/**
 * `AutoDownLogService`: writes one audit log for a config, with a given action, and flushes it.
 * The five public methods differ only in the action they pass to `CreateLog`.
 */
module LogService {
  import opened Wrappers
  import opened Text
  import opened LogAction
  import opened ConfigEntity
  import opened LogEntity
  import opened ConfigTable
  import opened LogTable
  import opened Store

  /** The fields `createLog` copies from the config and its arguments into the new log entity. */
  function DraftFor(spu: Option<SpuId>, configId: Option<ConfigId>, action: AutoDownLogAction,
                    description: Option<string>, context: Option<Context>): LogDraft
  {
    LogDraft(spu, configId, Some(action), description, context)
  }

  class AutoDownLogService {
    const db: Database

    constructor (db: Database)
      ensures this.db == db
    {
      this.db := db;
    }

    /**
     * What one `createLog` leaves behind: the log table gains exactly the row `NewLog` builds
     * from draft `d` (the next id, the flush time) and `log` is that row's entity; or the flush is
     * refused, the error is reported and nothing is written. Configs and SPUs never change.
     */
    twostate predicate Created(new log: AutoDownLog, new err: Option<PersistError>, new d: LogDraft, clock: Time)
      reads db, log
    {
      var r := NewLog(old(db.nextLogId), Ids(old(db.configs)), d, clock);
      && LogDraftOf(log) == d
      && (r.Failure? ==> err == Some(r.error) && db.logs == old(db.logs) && db.nextLogId == old(db.nextLogId)
                         && log.id.None?)
      && (r.Success? ==> err.None? && db.logs == old(db.logs) + [r.value] && db.nextLogId == old(db.nextLogId) + 1
                         && log.id == Some(r.value.id) && log.createTime == Some(clock))
      && db.configs == old(db.configs) && db.spus == old(db.spus) && db.nextConfigId == old(db.nextConfigId)
    }

    /**
     * `createLog(config, action, description, context)`: a new log entity carrying the config's
     * SPU id, the config, the action, the description and the context, persisted and flushed.
     * For a stored config with an SPU the flush always succeeds.
     */
    method CreateLog(config: AutoDownTimeConfig, action: AutoDownLogAction, description: Option<string>,
                     context: Option<Context>, clock: Time) returns (log: AutoDownLog, err: Option<PersistError>)
      requires db.Valid()
      modifies db
      ensures db.Valid() && fresh(log)
      ensures Created(log, err, DraftFor(config.spu, config.id, action, description, context), clock)
      ensures config.spu.Some? && config.id.Some? && config.id.value in Ids(old(db.configs)) ==> err.None?
    {
      log := new AutoDownLog();
      log.SetSpuId(config.spu);
      log.SetConfig(config.id);
      log.SetAction(Some(action));
      log.SetDescription(description);
      log.SetContext(context);
      err := db.PersistLog(log, clock);
    }

    /** `logScheduled`: `createLog` with SCHEDULED. */
    method LogScheduled(config: AutoDownTimeConfig, clock: Time, description: Option<string> := None,
                       context: Option<Context> := None) returns (log: AutoDownLog, err: Option<PersistError>)
      requires db.Valid()
      modifies db
      ensures db.Valid() && fresh(log)
      ensures Created(log, err, DraftFor(config.spu, config.id, Scheduled, description, context), clock)
      ensures config.spu.Some? && config.id.Some? && config.id.value in Ids(old(db.configs)) ==> err.None?
    {
      log, err := CreateLog(config, Scheduled, description, context, clock);
    }

    /** `logExecuted`: `createLog` with EXECUTED. */
    method LogExecuted(config: AutoDownTimeConfig, clock: Time, description: Option<string> := None,
                       context: Option<Context> := None) returns (log: AutoDownLog, err: Option<PersistError>)
      requires db.Valid()
      modifies db
      ensures db.Valid() && fresh(log)
      ensures Created(log, err, DraftFor(config.spu, config.id, Executed, description, context), clock)
      ensures config.spu.Some? && config.id.Some? && config.id.value in Ids(old(db.configs)) ==> err.None?
    {
      log, err := CreateLog(config, Executed, description, context, clock);
    }

    /** `logSkipped`: `createLog` with SKIPPED. */
    method LogSkipped(config: AutoDownTimeConfig, clock: Time, description: Option<string> := None,
                       context: Option<Context> := None) returns (log: AutoDownLog, err: Option<PersistError>)
      requires db.Valid()
      modifies db
      ensures db.Valid() && fresh(log)
      ensures Created(log, err, DraftFor(config.spu, config.id, Skipped, description, context), clock)
      ensures config.spu.Some? && config.id.Some? && config.id.value in Ids(old(db.configs)) ==> err.None?
    {
      log, err := CreateLog(config, Skipped, description, context, clock);
    }

    /** `logError`: `createLog` with ERROR. */
    method LogError(config: AutoDownTimeConfig, clock: Time, description: Option<string> := None,
                       context: Option<Context> := None) returns (log: AutoDownLog, err: Option<PersistError>)
      requires db.Valid()
      modifies db
      ensures db.Valid() && fresh(log)
      ensures Created(log, err, DraftFor(config.spu, config.id, Error, description, context), clock)
      ensures config.spu.Some? && config.id.Some? && config.id.value in Ids(old(db.configs)) ==> err.None?
    {
      log, err := CreateLog(config, Error, description, context, clock);
    }

    /** `logCanceled`: `createLog` with CANCELED. */
    method LogCanceled(config: AutoDownTimeConfig, clock: Time, description: Option<string> := None,
                       context: Option<Context> := None) returns (log: AutoDownLog, err: Option<PersistError>)
      requires db.Valid()
      modifies db
      ensures db.Valid() && fresh(log)
      ensures Created(log, err, DraftFor(config.spu, config.id, Canceled, description, context), clock)
      ensures config.spu.Some? && config.id.Some? && config.id.value in Ids(old(db.configs)) ==> err.None?
    {
      log, err := CreateLog(config, Canceled, description, context, clock);
    }
  }
}
