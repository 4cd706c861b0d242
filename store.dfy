/**
 * The database behind the entity manager: the config table, the log table, the SPU catalogue
 * and the two id generators. Every method is one `persist`/`remove` followed by `flush`, or one
 * bulk DQL statement, and either commits completely or reports the violated constraint and
 * changes nothing.
 */
module Store {
  import opened Wrappers
  import opened Text
  import opened ConfigEntity
  import opened LogEntity
  import opened ConfigTable
  import opened LogTable

  /** The fields of a config entity that a flush writes. */
  function ConfigDraftOf(e: AutoDownTimeConfig): ConfigDraft
    reads e
  {
    ConfigDraft(e.id, e.spu, e.autoTakeDownTime, e.isActive)
  }

  /** The fields of a log entity that a flush writes. */
  function LogDraftOf(e: AutoDownLog): LogDraft
    reads e
  {
    LogDraft(e.spuId, e.config, e.action, e.description, e.context)
  }

  class Database {
    var configs: seq<ConfigRecord>
    var logs: seq<LogRecord>
    var spus: SpuCatalogue
    var nextConfigId: ConfigId
    var nextLogId: LogId

    /**
     * The schema's constraints: unique ids below their generators, `UNIQ_SPU_ID`, the
     * config-to-SPU foreign key and the log-to-config foreign key.
     */
    ghost predicate Valid()
      reads this
    {
      UniqueIds(configs) && OnePerSpu(configs)
      && (forall c :: c in configs ==> c.id < nextConfigId && c.spuId in spus)
      && UniqueLogIds(logs)
      && (forall l :: l in logs ==> l.id < nextLogId && l.configId in Ids(configs))
    }

    /** An empty bundle schema next to an existing SPU catalogue. */
    constructor (catalogue: SpuCatalogue)
      ensures configs == [] && logs == [] && spus == catalogue
      ensures Valid()
    {
      configs, logs, spus := [], [], catalogue;
      nextConfigId, nextLogId := 0, 0;
    }

    /**
     * `persist($config)` + `flush()`: the row-level effect is `Upsert`; on success the entity
     * receives its id and timestamps, on failure nothing changes.
     */
    method PersistConfig(e: AutoDownTimeConfig, clock: Time) returns (err: Option<PersistError>)
      requires Valid()
      modifies this, e
      ensures Valid()
      ensures var r := Upsert(old(configs), old(nextConfigId), old(spus.Keys), old(ConfigDraftOf(e)), clock);
        && (r.Failure? ==> err == Some(r.error) && configs == old(configs) && nextConfigId == old(nextConfigId)
                           && e.id == old(e.id) && e.createTime == old(e.createTime) && e.updateTime == old(e.updateTime))
        && (r.Success? ==> err.None? && configs == r.value.0 && e.id == Some(r.value.1.id)
                           && e.createTime == Some(r.value.1.createTime) && e.updateTime == Some(r.value.1.updateTime)
                           && nextConfigId == old(nextConfigId) + (if old(e.id).None? then 1 else 0))
      ensures e.spu == old(e.spu) && e.autoTakeDownTime == old(e.autoTakeDownTime) && e.isActive == old(e.isActive)
      ensures logs == old(logs) && spus == old(spus) && nextLogId == old(nextLogId)
    {
      var r := Upsert(configs, nextConfigId, spus.Keys, ConfigDraftOf(e), clock);
      if r.Failure? {
        return Some(r.error);
      }
      UpsertKeepsInvariants(configs, nextConfigId, spus.Keys, ConfigDraftOf(e), clock);
      if e.id.None? {
        UpsertInserts(configs, nextConfigId, spus.Keys, ConfigDraftOf(e), clock);
        nextConfigId := nextConfigId + 1;
      } else {
        UpsertUpdates(configs, nextConfigId, spus.Keys, ConfigDraftOf(e), clock);
      }
      configs := r.value.0;
      e.id, e.createTime, e.updateTime := Some(r.value.1.id), Some(r.value.1.createTime), Some(r.value.1.updateTime);
      err := None;
    }

    /**
     * `remove($config)` + `flush()`: a new entity is ignored, an entity without a row is refused,
     * and a managed one loses its row, together with every log that references it
     * (`ON DELETE CASCADE`); the entity then has no id.
     */
    method RemoveConfig(e: AutoDownTimeConfig) returns (err: Option<PersistError>)
      requires Valid()
      modifies this, e
      ensures Valid()
      ensures old(e.id).None? ==> err.None? && configs == old(configs) && logs == old(logs) && e.id == old(e.id)
      ensures old(e.id).Some? && old(e.id).value !in Ids(old(configs)) ==>
        err == Some(DetachedEntity) && configs == old(configs) && logs == old(logs) && e.id == old(e.id)
      ensures old(e.id).Some? && old(e.id).value in Ids(old(configs)) ==>
        err.None? && configs == RemoveId(old(configs), old(e.id).value)
        && logs == CascadeDelete(old(logs), {old(e.id).value}) && e.id.None?
      ensures e.spu == old(e.spu) && e.autoTakeDownTime == old(e.autoTakeDownTime) && e.isActive == old(e.isActive)
      ensures e.createTime == old(e.createTime) && e.updateTime == old(e.updateTime)
      ensures spus == old(spus) && nextConfigId == old(nextConfigId) && nextLogId == old(nextLogId)
    {
      if e.id.None? {
        return None;
      }
      var id := e.id.value;
      if id !in Ids(configs) {
        return Some(DetachedEntity);
      }
      var configs' := RemoveId(configs, id);
      var logs' := CascadeDelete(logs, {id});
      forall l | l in logs' ensures l.configId in Ids(configs') {
        var c :| c in configs && c.id == l.configId;
        assert c in configs';
      }
      configs, logs := configs', logs';
      e.id := None;
      err := None;
    }

    /**
     * The bulk `DELETE` of `cleanupOldCanceledConfigs`: removes the inactive configs last updated
     * before `cutoff`, with their logs, and returns how many configs went.
     */
    method PurgeCanceledConfigs(cutoff: Time) returns (n: nat)
      requires Valid()
      modifies this
      ensures Valid()
      ensures configs == PurgeCanceled(old(configs), cutoff)
      ensures n == CountPurgeable(old(configs), cutoff)
      ensures n == |old(configs)| - |configs|
      ensures logs == CascadeDelete(old(logs), Ids(old(configs)) - Ids(configs))
      ensures spus == old(spus) && nextConfigId == old(nextConfigId) && nextLogId == old(nextLogId)
    {
      var configs' := PurgeCanceled(configs, cutoff);
      var logs' := CascadeDelete(logs, Ids(configs) - Ids(configs'));
      n := CountPurgeable(configs, cutoff);
      configs, logs := configs', logs';
    }

    /**
     * `persist($log)` + `flush()`. A new log becomes one appended row (`NewLog`) and gets its id
     * and creation time; a log that already has a row is read-only, so nothing is written.
     */
    method PersistLog(e: AutoDownLog, clock: Time) returns (err: Option<PersistError>)
      requires Valid()
      modifies this, e
      ensures Valid()
      ensures old(e.id).Some? && old(e.id).value in LogIds(old(logs)) ==>
        err.None? && logs == old(logs) && nextLogId == old(nextLogId) && e.id == old(e.id) && e.createTime == old(e.createTime)
      ensures old(e.id).Some? && old(e.id).value !in LogIds(old(logs)) ==>
        err == Some(DetachedEntity) && logs == old(logs) && nextLogId == old(nextLogId)
        && e.id == old(e.id) && e.createTime == old(e.createTime)
      ensures old(e.id).None? ==>
        var r := NewLog(old(nextLogId), Ids(old(configs)), old(LogDraftOf(e)), clock);
        && (r.Failure? ==> err == Some(r.error) && logs == old(logs) && nextLogId == old(nextLogId)
                           && e.id == old(e.id) && e.createTime == old(e.createTime))
        && (r.Success? ==> err.None? && logs == old(logs) + [r.value] && nextLogId == old(nextLogId) + 1
                           && e.id == Some(r.value.id) && e.createTime == Some(clock))
      ensures e.spuId == old(e.spuId) && e.config == old(e.config) && e.action == old(e.action)
      ensures e.description == old(e.description) && e.context == old(e.context)
      ensures configs == old(configs) && spus == old(spus) && nextConfigId == old(nextConfigId)
    {
      if e.id.Some? {
        if e.id.value in LogIds(logs) {
          return None;
        }
        return Some(DetachedEntity);
      }
      var r := NewLog(nextLogId, Ids(configs), LogDraftOf(e), clock);
      if r.Failure? {
        return Some(r.error);
      }
      AppendKeepsUnique(logs, r.value);
      logs := logs + [r.value];
      nextLogId := nextLogId + 1;
      e.id, e.createTime := Some(r.value.id), Some(clock);
      err := None;
    }

    /**
     * `remove($log)` + `flush()`: a new entity is ignored, an entity without a row is refused,
     * and a stored log loses its row; the entity then has no id.
     */
    method RemoveLog(e: AutoDownLog) returns (err: Option<PersistError>)
      requires Valid()
      modifies this, e
      ensures Valid()
      ensures old(e.id).None? ==> err.None? && logs == old(logs) && e.id == old(e.id)
      ensures old(e.id).Some? && old(e.id).value !in LogIds(old(logs)) ==>
        err == Some(DetachedEntity) && logs == old(logs) && e.id == old(e.id)
      ensures old(e.id).Some? && old(e.id).value in LogIds(old(logs)) ==>
        err.None? && logs == RemoveLogId(old(logs), old(e.id).value) && |logs| == |old(logs)| - 1 && e.id.None?
      ensures e.spuId == old(e.spuId) && e.config == old(e.config) && e.action == old(e.action)
      ensures e.description == old(e.description) && e.context == old(e.context) && e.createTime == old(e.createTime)
      ensures configs == old(configs) && spus == old(spus) && nextConfigId == old(nextConfigId) && nextLogId == old(nextLogId)
    {
      if e.id.None? {
        return None;
      }
      var id := e.id.value;
      if id !in LogIds(logs) {
        return Some(DetachedEntity);
      }
      RemoveOneLog(logs, id);
      logs := RemoveLogId(logs, id);
      e.id := None;
      err := None;
    }

    /**
     * The bulk `DELETE` of `cleanupOldLogs`: removes the logs created before `cutoff` and returns
     * how many went.
     */
    method PurgeLogs(cutoff: Time) returns (n: nat)
      requires Valid()
      modifies this
      ensures Valid()
      ensures logs == RecentLogs(old(logs), cutoff)
      ensures n == CountStale(old(logs), cutoff)
      ensures n == |old(logs)| - |logs|
      ensures configs == old(configs) && spus == old(spus) && nextConfigId == old(nextConfigId) && nextLogId == old(nextLogId)
    {
      n := CountStale(logs, cutoff);
      logs := RecentLogs(logs, cutoff);
    }

    /** `$spu->setValid(false)` + `flush()` on an existing SPU. */
    method TakeDownSpu(spuId: SpuId)
      requires Valid()
      requires spuId in spus
      modifies this
      ensures Valid()
      ensures spus == old(spus)[spuId := Some(false)]
      ensures configs == old(configs) && logs == old(logs)
      ensures nextConfigId == old(nextConfigId) && nextLogId == old(nextLogId)
    {
      spus := spus[spuId := Some(false)];
    }
  }

  /** With unique ids, removing a stored log's id deletes exactly that one row. */
  lemma RemoveOneLog(logs: seq<LogRecord>, id: LogId)
    requires UniqueLogIds(logs) && id in LogIds(logs)
    ensures |RemoveLogId(logs, id)| == |logs| - 1
  {
    var keep := OtherLogIds(id);
    var drop := HasLogId(id);
    Seqs.FilterPartition(logs, keep, drop);
    FilterKeepsLogIds(logs, drop);
    var gone := Seqs.Filter(logs, drop);
    var l :| l in logs && l.id == id;
    assert l in gone;
    AtMostOneWithId(gone, id);
  }
}
