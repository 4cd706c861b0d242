/**
 * `AutoDownService`: schedules and cancels an SPU's automatic take-down and runs the executor
 * that takes down every due SPU, writing one audit log per action. All three share the one
 * database behind the entity manager.
 */
module AutoDownServiceModule {
  import opened Wrappers
  import opened Text
  import opened LogAction
  import opened ConfigEntity
  import opened LogEntity
  import opened ConfigTable
  import opened LogTable
  import opened Store
  import opened Execution
  import opened Scheduling
  import opened Repositories
  import opened LogService

  /** `cleanupOldConfigs`'s default `daysOld`. */
  const DEFAULT_CLEANUP_DAYS: int := 30

  class AutoDownService {
    const db: Database
    const configRepository: AutoDownTimeConfigRepository
    const logService: AutoDownLogService

    /** The repository and the log service work on the service's own database. */
    predicate Wired() {
      configRepository.db == db && logService.db == db
    }

    constructor (db: Database, configRepository: AutoDownTimeConfigRepository, logService: AutoDownLogService)
      requires configRepository.db == db && logService.db == db
      ensures this.db == db && this.configRepository == configRepository && this.logService == logService
      ensures Wired()
    {
      this.db := db;
      this.configRepository := configRepository;
      this.logService := logService;
    }

    /**
     * `configureAutoTakeDownTime(spu, time)`: the SPU's config (found by SPU, or a new one) gets
     * the new time and is flushed, which always succeeds for an existing SPU; then one SCHEDULED
     * log is written for it. SPUs are untouched.
     */
    method ConfigureAutoTakeDownTime(spuId: SpuId, time: Time, clock: Time) returns (config: AutoDownTimeConfig)
      requires Wired() && db.Valid()
      requires spuId in db.spus
      modifies db
      ensures db.Valid()
      ensures var r := Upsert(old(db.configs), old(db.nextConfigId), old(db.spus.Keys),
                              ScheduleDraft(old(db.configs), spuId, time), clock);
        && r.Success? && db.configs == r.value.0 && config.id == Some(r.value.1.id)
        && db.logs == old(db.logs) + [LogRecord(old(db.nextLogId), spuId, r.value.1.id, Scheduled,
                                                Some(ScheduledText(spuId, time)), None, clock)]
      ensures config.spu == Some(spuId) && config.autoTakeDownTime == Some(time)
      ensures db.nextLogId == old(db.nextLogId) + 1 && db.spus == old(db.spus)
    {
      ghost var t, nextId, spus := db.configs, db.nextConfigId, db.spus.Keys;
      ScheduleEffect(t, nextId, spus, spuId, time, clock);
      var found := configRepository.FindBySpu(spuId);
      if found.None? {
        config := new AutoDownTimeConfig();
        config.SetSpu(Some(spuId));
      } else {
        config := new AutoDownTimeConfig.FromRecord(found.value);
      }
      config.SetAutoTakeDownTime(Some(time));
      assert ConfigDraftOf(config) == ScheduleDraft(t, spuId, time);
      var err := db.PersistConfig(config, clock);
      assert config.id.value in Ids(db.configs) by {
        var row := Upsert(t, nextId, spus, ScheduleDraft(t, spuId, time), clock).value.1;
        assert row in db.configs;
      }
      var _, _ := logService.LogScheduled(config, clock, Some(ScheduledText(spuId, time)));
    }

    /**
     * `cancelAutoTakeDown(spuId)`: false, changing nothing, when the SPU has no config or its
     * config is already canceled; otherwise the config is marked canceled and flushed and one
     * CANCELED log is written for it.
     */
    method CancelAutoTakeDown(spuId: SpuId, clock: Time) returns (ok: bool)
      requires Wired() && db.Valid()
      modifies db
      ensures db.Valid()
      ensures ok <==> Cancelable(old(db.configs), spuId)
      ensures !ok ==> db.configs == old(db.configs) && db.logs == old(db.logs) && db.nextLogId == old(db.nextLogId)
      ensures ok ==>
        var c := FindBySpu(old(db.configs), spuId).value;
        && db.configs == Upsert(old(db.configs), old(db.nextConfigId), old(db.spus.Keys), CancelDraft(c), clock).value.0
        && db.logs == old(db.logs) + [LogRecord(old(db.nextLogId), spuId, c.id, Canceled, Some(CanceledText(spuId)), None, clock)]
        && db.nextLogId == old(db.nextLogId) + 1
      ensures db.spus == old(db.spus) && db.nextConfigId == old(db.nextConfigId)
    {
      var found := configRepository.FindBySpu(spuId);
      if found.None? || !found.value.isActive {
        return false;
      }
      var c := found.value;
      ghost var t, nextId, spus := db.configs, db.nextConfigId, db.spus.Keys;
      CancelEffect(t, nextId, spus, c, clock);
      var config := new AutoDownTimeConfig.FromRecord(c);
      var _ := config.MarkAsCanceled();
      assert ConfigDraftOf(config) == CancelDraft(c);
      var err := db.PersistConfig(config, clock);
      assert c.id in Ids(db.configs);
      var _, _ := logService.LogCanceled(config, clock, Some(CanceledText(spuId)));
      ok := true;
    }

    /**
     * `processSingleConfig(config)`: throws `spuNotFound` when the config has no SPU; otherwise
     * does what `Process` says: passes on a fault raised while loading or updating the SPU,
     * writes a SKIPPED log for an SPU whose flag is already `false`, and otherwise sets the flag
     * to `false`, flushes it and writes an EXECUTED log.
     */
    method ProcessSingleConfig(config: AutoDownTimeConfig, injected: Option<Fault>, clock: Time) returns (thrown: Option<Fault>)
      requires Wired() && db.Valid()
      requires config.id.Some? && config.id.value in Ids(db.configs)
      requires config.spu.Some? ==> config.spu.value in db.spus
      modifies db
      ensures db.Valid()
      ensures config.spu.None? ==>
        thrown == Some(SPU_NOT_FOUND) && db.spus == old(db.spus) && db.logs == old(db.logs) && db.nextLogId == old(db.nextLogId)
      ensures config.spu.Some? ==>
        var r := Process(RunState(old(db.spus), old(db.logs), old(db.nextLogId), 0), config.id.value, config.spu.value, injected, clock);
        && thrown == injected
        && (thrown.Some? ==> db.spus == old(db.spus) && db.logs == old(db.logs) && db.nextLogId == old(db.nextLogId))
        && db.spus == r.spus && db.logs == r.logs && db.nextLogId == r.nextLogId
      ensures db.configs == old(db.configs) && db.nextConfigId == old(db.nextConfigId)
    {
      if config.spu.None? {
        return Some(SPU_NOT_FOUND);
      }
      var spuId := config.spu.value;
      if injected.Some? {
        return injected;
      }
      if db.spus[spuId] == Some(false) {
        var _, _ := logService.LogSkipped(config, clock, Some(SkippedText(spuId)));
        return None;
      }
      db.TakeDownSpu(spuId);
      var _, _ := logService.LogExecuted(config, clock, Some(ExecutedText(spuId)));
      thrown := None;
    }

    /**
     * One pass of the loop in `executeAutoTakeDown` for the due config `c`, whose processing
     * raises `injected` (if anything): the `try` block runs `processSingleConfig` and reports
     * success, the `catch` block writes the ERROR log. The effect is exactly `Step`, with
     * `executed` the counter so far.
     */
    method TryProcess(c: ConfigRecord, injected: Option<Fault>, clock: Time, executed: nat) returns (ok: bool)
      requires Wired() && db.Valid()
      requires c in db.configs && c.spuId in db.spus
      modifies db
      ensures db.Valid() && db.configs == old(db.configs) && db.nextConfigId == old(db.nextConfigId)
      ensures var r := Step(RunState(old(db.spus), old(db.logs), old(db.nextLogId), executed), c, injected, clock);
        && db.spus == r.spus && db.logs == r.logs && db.nextLogId == r.nextLogId
        && r.count == executed + (if ok then 1 else 0)
    {
      ghost var st := RunState(db.spus, db.logs, db.nextLogId, executed);
      ghost var ids := Ids(db.configs);
      assert c.id in ids;
      var config := new AutoDownTimeConfig.FromRecord(c);
      var thrown := ProcessSingleConfig(config, injected, clock);
      if thrown.None? {
        StepDone(st, c, injected, clock, db.spus, db.logs, db.nextLogId);
        ok := true;
      } else {
        var f := thrown.value;
        var _, _ := logService.LogError(config, clock, Some(ErrorText(f)), Some(ErrorContext(f)));
        StepFailed(st, c, f, ids, clock, db.logs);
        ok := false;
      }
    }

    /**
     * `executeAutoTakeDown(now)`: runs `processSingleConfig` for every due config in turn,
     * counting those that did not throw and writing an ERROR log (message, file and line) for
     * those that did. SPU flags, logs and the count are exactly those of `Run` over the due
     * configs; the config table is untouched.
     */
    method ExecuteAutoTakeDown(now: Option<Time>, faults: ConfigId -> Option<Fault>, clock: Time) returns (count: nat)
      requires Wired() && db.Valid()
      modifies db
      ensures db.Valid()
      ensures SpusKnown(DueConfigs(old(db.configs), now.GetOr(clock)), old(db.spus))
      ensures var r := Run(RunState(old(db.spus), old(db.logs), old(db.nextLogId), 0),
                           DueConfigs(old(db.configs), now.GetOr(clock)), faults, clock);
        count == r.count && db.spus == r.spus && db.logs == r.logs && db.nextLogId == r.nextLogId
      ensures db.configs == old(db.configs) && db.nextConfigId == old(db.nextConfigId)
    {
      var configs := configRepository.FindActiveConfigs(now, clock);
      assert configs == DueConfigs(db.configs, now.GetOr(clock));
      DueSpusKnown(db.configs, db.spus, now.GetOr(clock));
      ghost var init := RunState(db.spus, db.logs, db.nextLogId, 0);
      ghost var t := db.configs;
      ghost var cur := init;
      count := 0;
      var i := 0;
      while i < |configs|
        invariant 0 <= i <= |configs|
        invariant db.Valid() && db.configs == t && db.nextConfigId == old(db.nextConfigId)
        invariant SpusKnown(configs, init.spus)
        invariant cur == Run(init, configs[..i], faults, clock)
        invariant db.spus == cur.spus && db.logs == cur.logs && db.nextLogId == cur.nextLogId && count == cur.count
      {
        var c := configs[i];
        assert c in t;
        RunExtend(init, configs, i, faults, clock);
        ghost var next := Step(cur, c, faults(c.id), clock);
        assert cur == RunState(db.spus, db.logs, db.nextLogId, count);
        var ok := TryProcess(c, faults(c.id), clock, count);
        if ok {
          count := count + 1;
        }
        cur := next;
        i := i + 1;
      }
      assert configs[..|configs|] == configs;
    }

    /** `countActiveConfigs(now)`: the number of configs `executeAutoTakeDown(now)` would process. */
    function CountActiveConfigs(now: Option<Time>, clock: Time): (n: nat)
      requires Wired()
      reads db
      ensures n == |DueConfigs(db.configs, now.GetOr(clock))|
    {
      configRepository.CountActiveConfigs(now, clock)
    }

    /**
     * `cleanupOldConfigs(daysOld)`: `cleanupOldCanceledConfigs(daysOld)`, deleting the canceled
     * configs not updated for more than `daysOld` days (and their logs), never an active one.
     */
    method CleanupOldConfigs(clock: Time, daysOld: int := DEFAULT_CLEANUP_DAYS) returns (n: nat)
      requires Wired() && db.Valid()
      modifies db
      ensures db.Valid()
      ensures db.configs == PurgeCanceled(old(db.configs), Cutoff(clock, daysOld))
      ensures n == |old(db.configs)| - |db.configs|
      ensures forall c :: c in old(db.configs) && c.isActive ==> c in db.configs
      ensures db.logs == CascadeDelete(old(db.logs), Ids(old(db.configs)) - Ids(db.configs))
      ensures db.spus == old(db.spus)
    {
      n := configRepository.CleanupOldCanceledConfigs(clock, daysOld);
    }
  }

  /** When processing does not throw, the step is its effect with the counter one higher. */
  lemma StepDone(st: RunState, c: ConfigRecord, injected: Option<Fault>, clock: Time,
                 spus: SpuCatalogue, logs: seq<LogRecord>, nextLogId: LogId)
    requires c.spuId in st.spus && injected.None?
    requires var r := Process(RunState(st.spus, st.logs, st.nextLogId, 0), c.id, c.spuId, injected, clock);
      spus == r.spus && logs == r.logs && nextLogId == r.nextLogId
    ensures Step(st, c, injected, clock) == RunState(spus, logs, nextLogId, st.count + 1)
  {
    assert RunState(st.spus, st.logs, st.nextLogId, 0) == st.(count := 0);
    StepCases(st, c, injected, clock);
  }

  /**
   * When processing throws `f`, the step is the row the catch block's `logError` writes: the
   * next id, the config and its SPU, ERROR, the fault's message as description and its message,
   * file and line as context, stamped with the flush time.
   */
  lemma StepFailed(st: RunState, c: ConfigRecord, f: Fault, configs: set<ConfigId>, clock: Time, logs: seq<LogRecord>)
    requires c.spuId in st.spus && c.id in configs
    requires logs == st.logs + [NewLog(st.nextLogId, configs,
                                       DraftFor(Some(c.spuId), Some(c.id), Error, Some(ErrorText(f)), Some(ErrorContext(f))), clock).value]
    ensures Step(st, c, Some(f), clock) == RunState(st.spus, logs, st.nextLogId + 1, st.count)
  {
    StepCases(st, c, Some(f), clock);
  }

  /** Every due config's SPU exists, by the config-to-SPU foreign key. */
  lemma DueSpusKnown(t: seq<ConfigRecord>, spus: SpuCatalogue, now: Time)
    requires forall c :: c in t ==> c.spuId in spus
    ensures SpusKnown(DueConfigs(t, now), spus)
  {
    var due := DueConfigs(t, now);
    forall i | 0 <= i < |due| ensures due[i].spuId in spus {
      assert due[i] in due;
    }
  }
}
