/**
 * `AutoDownTimeConfigRepository` and `AutoDownLogRepository`: the queries read the tables of the
 * shared database, the writes go through its `persist`/`remove` + `flush` and bulk `DELETE`s.
 */
module Repositories {
  import opened Wrappers
  import opened Text
  import opened Seqs
  import opened LogAction
  import opened ConfigEntity
  import opened LogEntity
  import opened ConfigTable
  import opened LogTable
  import opened Store

  class AutoDownTimeConfigRepository {
    const db: Database

    constructor (db: Database)
      ensures this.db == db
    {
      this.db := db;
    }

    /**
     * `findActiveConfigs(now)`: the active configs whose take-down time is at or before `now`,
     * which defaults to the current time `clock`.
     */
    function FindActiveConfigs(now: Option<Time>, clock: Time): (r: seq<ConfigRecord>)
      reads db
      ensures forall c :: c in r <==> c in db.configs && c.isActive && c.autoTakeDownTime <= now.GetOr(clock)
      ensures now.None? ==> r == DueConfigs(db.configs, clock)
      ensures OnePerSpu(db.configs) ==> OnePerSpu(r)
    {
      DueConfigs(db.configs, now.GetOr(clock))
    }

    /** `findBySpu(spuId)`: the config of that SPU whether active or not, or none. */
    function FindBySpu(spuId: SpuId): (r: Option<ConfigRecord>)
      reads db
      ensures r.Some? ==> r.value in db.configs && r.value.spuId == spuId
      ensures r.None? <==> forall c :: c in db.configs ==> c.spuId != spuId
    {
      ConfigTable.FindBySpu(db.configs, spuId)
    }

    /** `countActiveConfigs(now)`: the size of `findActiveConfigs(now)`. */
    function CountActiveConfigs(now: Option<Time>, clock: Time): (n: nat)
      reads db
      ensures n == |FindActiveConfigs(now, clock)|
      ensures n <= |db.configs|
    {
      CountDue(db.configs, now.GetOr(clock))
    }

    /**
     * `save($entity)` with its flush: a new entity becomes exactly one more row, a managed one
     * rewrites its own row; a refused flush changes no row.
     */
    method Save(e: AutoDownTimeConfig, clock: Time) returns (err: Option<PersistError>)
      requires db.Valid()
      modifies db, e
      ensures db.Valid()
      ensures var r := Upsert(old(db.configs), old(db.nextConfigId), old(db.spus.Keys), old(ConfigDraftOf(e)), clock);
        && (r.Failure? ==> err == Some(r.error) && db.configs == old(db.configs) && e.id == old(e.id))
        && (r.Success? ==> err.None? && db.configs == r.value.0 && e.id == Some(r.value.1.id))
      ensures err.None? && old(e.id).None? ==> |db.configs| == |old(db.configs)| + 1
      ensures err.None? && old(e.id).Some? ==> |db.configs| == |old(db.configs)| && Ids(db.configs) == Ids(old(db.configs))
      ensures db.logs == old(db.logs) && db.spus == old(db.spus)
    {
      ghost var t, nextId, spus, d := db.configs, db.nextConfigId, db.spus.Keys, ConfigDraftOf(e);
      err := db.PersistConfig(e, clock);
      if err.None? {
        if d.id.None? {
          UpsertInserts(t, nextId, spus, d, clock);
        } else {
          UpsertUpdates(t, nextId, spus, d, clock);
        }
      }
    }

    /**
     * `remove($entity)` with its flush: a stored config loses exactly its own row, and its logs
     * go with it.
     */
    method Remove(e: AutoDownTimeConfig) returns (err: Option<PersistError>)
      requires db.Valid()
      modifies db, e
      ensures db.Valid()
      ensures old(e.id).Some? && old(e.id).value in Ids(old(db.configs)) ==>
        err.None? && db.configs == RemoveId(old(db.configs), old(e.id).value)
        && |db.configs| == |old(db.configs)| - 1
        && db.logs == CascadeDelete(old(db.logs), {old(e.id).value})
      ensures old(e.id).None? ==> err.None? && db.configs == old(db.configs) && db.logs == old(db.logs)
      ensures old(e.id).Some? && old(e.id).value !in Ids(old(db.configs)) ==>
        err == Some(DetachedEntity) && db.configs == old(db.configs) && db.logs == old(db.logs)
      ensures db.spus == old(db.spus)
    {
      err := db.RemoveConfig(e);
    }

    /**
     * `cleanupOldCanceledConfigs(daysOld)`: deletes the inactive configs last updated more than
     * `daysOld` days before `clock` (with their logs) and returns how many it deleted.
     */
    method CleanupOldCanceledConfigs(clock: Time, daysOld: int := DEFAULT_CONFIG_RETENTION_DAYS) returns (n: nat)
      requires db.Valid()
      modifies db
      ensures db.Valid()
      ensures db.configs == PurgeCanceled(old(db.configs), Cutoff(clock, daysOld))
      ensures n == |old(db.configs)| - |db.configs|
      ensures forall c :: c in old(db.configs) && c.isActive ==> c in db.configs
      ensures db.logs == CascadeDelete(old(db.logs), Ids(old(db.configs)) - Ids(db.configs))
      ensures db.spus == old(db.spus)
    {
      n := db.PurgeCanceledConfigs(Cutoff(clock, daysOld));
    }
  }

  class AutoDownLogRepository {
    const db: Database

    constructor (db: Database)
      ensures this.db == db
    {
      this.db := db;
    }

    /**
     * `findBySpuId(spuId, limit)`: only that SPU's logs, newest first, at most `limit` of them
     * and all of them when they fit; an SPU without logs gives nothing.
     */
    function FindBySpuId(spuId: SpuId, limit: nat := DEFAULT_LIMIT): (r: seq<LogRecord>)
      reads db
      ensures forall l :: l in r ==> l in db.logs && l.spuId == spuId
      ensures SortedDesc(r) && |r| <= limit
      ensures |r| == Min(limit, |Select(db.logs, BySpu(spuId))|)
      ensures limit >= |Select(db.logs, BySpu(spuId))| ==> multiset(r) == multiset(Select(db.logs, BySpu(spuId)))
      ensures (forall l :: l in db.logs ==> l.spuId != spuId) ==> r == []
    {
      Query(db.logs, BySpu(spuId), limit)
    }

    /** `findByConfigId(configId, limit)`: only that config's logs, newest first, at most `limit`. */
    function FindByConfigId(configId: ConfigId, limit: nat := DEFAULT_LIMIT): (r: seq<LogRecord>)
      reads db
      ensures forall l :: l in r ==> l in db.logs && l.configId == configId
      ensures SortedDesc(r) && |r| <= limit
      ensures |r| == Min(limit, |Select(db.logs, ByConfig(configId))|)
      ensures limit >= |Select(db.logs, ByConfig(configId))| ==> multiset(r) == multiset(Select(db.logs, ByConfig(configId)))
      ensures (forall l :: l in db.logs ==> l.configId != configId) ==> r == []
    {
      Query(db.logs, ByConfig(configId), limit)
    }

    /** `findByAction(action, limit)`: only the logs with that action, newest first, at most `limit`. */
    function FindByAction(action: AutoDownLogAction, limit: nat := DEFAULT_LIMIT): (r: seq<LogRecord>)
      reads db
      ensures forall l :: l in r ==> l in db.logs && l.action == action
      ensures SortedDesc(r) && |r| <= limit
      ensures |r| == Min(limit, CountAction(db.logs, action))
      ensures limit >= CountAction(db.logs, action) ==> multiset(r) == multiset(Select(db.logs, ByAction(action)))
      ensures (forall l :: l in db.logs ==> l.action != action) ==> r == []
    {
      Query(db.logs, ByAction(action), limit)
    }

    /**
     * `countByActions()`: walks the grouped rows and maps each action value that occurs to its
     * number of logs. Absent actions have no entry, the counts add up to the number of logs, and
     * an empty table gives an empty map.
     */
    method CountByActions() returns (counts: map<string, int>)
      ensures forall a: AutoDownLogAction :: a.Value() in counts <==> CountAction(db.logs, a) > 0
      ensures forall a: AutoDownLogAction :: a.Value() in counts ==> counts[a.Value()] == CountAction(db.logs, a)
      ensures counts.Keys <= AllValues()
      ensures SumOver(Cases(), counts) == |db.logs|
      ensures db.logs == [] ==> counts == map[]
    {
      counts := CollectCounts(GroupByAction(db.logs));
      ActionCounts(db.logs);
    }

    /**
     * `save($entity)` with its flush: a new log becomes exactly one more row; a stored one is
     * read-only and changes nothing.
     */
    method Save(e: AutoDownLog, clock: Time) returns (err: Option<PersistError>)
      requires db.Valid()
      modifies db, e
      ensures db.Valid()
      ensures old(e.id).None? ==>
        var r := NewLog(old(db.nextLogId), Ids(old(db.configs)), old(LogDraftOf(e)), clock);
        && (r.Failure? ==> err == Some(r.error) && db.logs == old(db.logs))
        && (r.Success? ==> err.None? && db.logs == old(db.logs) + [r.value] && e.id == Some(r.value.id))
      ensures old(e.id).Some? ==> db.logs == old(db.logs)
      ensures db.configs == old(db.configs) && db.spus == old(db.spus)
    {
      err := db.PersistLog(e, clock);
    }

    /** `remove($entity)` with its flush: a stored log loses exactly its own row. */
    method Remove(e: AutoDownLog) returns (err: Option<PersistError>)
      requires db.Valid()
      modifies db, e
      ensures db.Valid()
      ensures old(e.id).Some? && old(e.id).value in LogIds(old(db.logs)) ==>
        err.None? && db.logs == RemoveLogId(old(db.logs), old(e.id).value) && |db.logs| == |old(db.logs)| - 1
      ensures old(e.id).None? ==> err.None? && db.logs == old(db.logs)
      ensures old(e.id).Some? && old(e.id).value !in LogIds(old(db.logs)) ==>
        err == Some(DetachedEntity) && db.logs == old(db.logs)
      ensures db.configs == old(db.configs) && db.spus == old(db.spus)
    {
      err := db.RemoveLog(e);
    }

    /**
     * `cleanupOldLogs(daysOld)`: deletes the logs created more than `daysOld` days before `clock`
     * and returns how many it deleted.
     */
    method CleanupOldLogs(clock: Time, daysOld: int := DEFAULT_LOG_RETENTION_DAYS) returns (n: nat)
      requires db.Valid()
      modifies db
      ensures db.Valid()
      ensures db.logs == RecentLogs(old(db.logs), Cutoff(clock, daysOld))
      ensures n == CountStale(old(db.logs), Cutoff(clock, daysOld))
      ensures n == |old(db.logs)| - |db.logs|
      ensures db.configs == old(db.configs) && db.spus == old(db.spus)
    {
      n := db.PurgeLogs(Cutoff(clock, daysOld));
    }
  }
}
