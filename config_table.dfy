/**
 * The config table as a value: the queries of `AutoDownTimeConfigRepository` and the row-level
 * effect of persisting or removing an `AutoDownTimeConfig`.
 */
module ConfigTable {
  import opened Wrappers
  import opened Text
  import opened Seqs
  import opened ConfigEntity

  /** Seconds in a day; `subDays(d)` is modelled as subtracting `d * DAY_SECONDS`. */
  const DAY_SECONDS: int := 86400
  /** Default `daysOld` of `cleanupOldCanceledConfigs` and `cleanupOldConfigs`. */
  const DEFAULT_CONFIG_RETENTION_DAYS: int := 30

  /** `now` minus `daysOld` days. */
  function Cutoff(now: Time, daysOld: int): Time {
    now - daysOld * DAY_SECONDS
  }

  predicate UniqueIds(t: seq<ConfigRecord>) {
    forall i, j :: 0 <= i < j < |t| ==> t[i].id != t[j].id
  }

  /** The `UNIQ_SPU_ID` constraint: at most one config per SPU. */
  predicate OnePerSpu(t: seq<ConfigRecord>) {
    forall i, j :: 0 <= i < j < |t| ==> t[i].spuId != t[j].spuId
  }

  function Ids(t: seq<ConfigRecord>): set<ConfigId> {
    set c | c in t :: c.id
  }

  function IdOf(c: ConfigRecord): ConfigId { c.id }
  function SpuOf(c: ConfigRecord): SpuId { c.spuId }

  /** The due-selection condition of `findActiveConfigs` and `countActiveConfigs`. */
  predicate IsDue(c: ConfigRecord, now: Time) {
    c.isActive && c.autoTakeDownTime <= now
  }

  function DueAt(now: Time): ConfigRecord -> bool {
    c => IsDue(c, now)
  }

  /**
   * `findActiveConfigs(now)`: exactly the active configs whose time has come (the bound is
   * inclusive). Selecting keeps the table's uniqueness properties.
   */
  function DueConfigs(t: seq<ConfigRecord>, now: Time): (r: seq<ConfigRecord>)
    ensures forall c :: c in r <==> c in t && c.isActive && c.autoTakeDownTime <= now
    ensures |r| <= |t|
    ensures UniqueIds(t) ==> UniqueIds(r)
    ensures OnePerSpu(t) ==> OnePerSpu(r)
  {
    FilterKeepsConstraints(t, DueAt(now));
    Filter(t, DueAt(now))
  }

  /** `countActiveConfigs(now)`: a `COUNT` under the same condition, equal to the size of the selection. */
  function CountDue(t: seq<ConfigRecord>, now: Time): (n: nat)
    ensures n == |DueConfigs(t, now)|
    ensures n <= |t|
  {
    CountWhere(t, DueAt(now))
  }

  /** `findBySpu(id)`: the config of that SPU, active or not, or none. */
  function FindBySpu(t: seq<ConfigRecord>, spuId: SpuId): (r: Option<ConfigRecord>)
    ensures r.Some? ==> r.value in t && r.value.spuId == spuId
    ensures r.None? <==> forall c :: c in t ==> c.spuId != spuId
    decreases |t|
  {
    if t == [] then None
    else if t[0].spuId == spuId then Some(t[0])
    else FindBySpu(t[1..], spuId)
  }

  /** Under the unique constraint the single-result lookup finds the one config of the SPU. */
  lemma FindBySpuUnique(t: seq<ConfigRecord>, c: ConfigRecord)
    requires OnePerSpu(t)
    requires c in t
    ensures FindBySpu(t, c.spuId) == Some(c)
  {
    var r := FindBySpu(t, c.spuId);
    var i :| 0 <= i < |t| && t[i] == r.value;
    var j :| 0 <= j < |t| && t[j] == c;
    assert i == j;
  }

  /** The position of the row with a given id, if any. */
  function IndexOfId(t: seq<ConfigRecord>, id: ConfigId): (r: Option<nat>)
    ensures r.Some? ==> r.value < |t| && t[r.value].id == id
    ensures r.None? <==> id !in Ids(t)
    decreases |t|
  {
    if t == [] then None
    else if t[0].id == id then Some(0)
    else
      var r := IndexOfId(t[1..], id);
      if r.Some? then Some(r.value + 1) else None
  }

  /** The condition under which `cleanupOldCanceledConfigs` deletes a row. */
  predicate IsPurgeable(c: ConfigRecord, cutoff: Time) {
    !c.isActive && c.updateTime < cutoff
  }

  function KeptAt(cutoff: Time): ConfigRecord -> bool {
    c => !IsPurgeable(c, cutoff)
  }

  function PurgeableAt(cutoff: Time): ConfigRecord -> bool {
    c => IsPurgeable(c, cutoff)
  }

  /**
   * The table after `cleanupOldCanceledConfigs`: exactly the rows that are active or were last
   * updated at or after the cutoff survive; in particular no active config is ever deleted.
   */
  function PurgeCanceled(t: seq<ConfigRecord>, cutoff: Time): (r: seq<ConfigRecord>)
    ensures forall c :: c in r <==> c in t && (c.isActive || c.updateTime >= cutoff)
    ensures forall c :: c in t && c.isActive ==> c in r
    ensures UniqueIds(t) ==> UniqueIds(r)
    ensures OnePerSpu(t) ==> OnePerSpu(r)
  {
    FilterKeepsConstraints(t, KeptAt(cutoff));
    Filter(t, KeptAt(cutoff))
  }

  /** The number `cleanupOldCanceledConfigs` reports: the rows that the purge removes. */
  function CountPurgeable(t: seq<ConfigRecord>, cutoff: Time): (n: nat)
    ensures n + |PurgeCanceled(t, cutoff)| == |t|
    ensures multiset(PurgeCanceled(t, cutoff)) + multiset(Filter(t, PurgeableAt(cutoff))) == multiset(t)
  {
    FilterPartition(t, KeptAt(cutoff), PurgeableAt(cutoff));
    CountWhere(t, PurgeableAt(cutoff))
  }

  /** What a flush can refuse. */
  datatype PersistError =
    | NotNullViolation      // a NOT NULL column left unset
    | UniqueViolation       // `UNIQ_SPU_ID` would be broken
    | ForeignKeyViolation   // a referenced row does not exist
    | DetachedEntity        // the entity claims an id that has no row

  /** The persisted fields of an `AutoDownTimeConfig` entity at flush time. */
  datatype ConfigDraft = ConfigDraft(id: Option<ConfigId>, spu: Option<SpuId>, time: Option<Time>, isActive: bool)

  /** Some row other than the one with id `self` already holds SPU `spuId`. */
  predicate SpuTaken(t: seq<ConfigRecord>, spuId: SpuId, self: Option<ConfigId>) {
    exists c :: c in t && c.spuId == spuId && Some(c.id) != self
  }

  /**
   * `persist` + `flush` of a config entity: an INSERT with a fresh id and both timestamps stamped
   * when the entity is new, an UPDATE of its row (id and creation time kept, update time stamped)
   * otherwise, or the constraint that the flush violates.
   */
  function Upsert(t: seq<ConfigRecord>, nextId: ConfigId, spus: set<SpuId>, d: ConfigDraft, clock: Time)
    : (r: Result<(seq<ConfigRecord>, ConfigRecord), PersistError>)
    ensures r.Failure? <==>
      d.spu.None? || d.time.None? || d.spu.value !in spus || SpuTaken(t, d.spu.value, d.id)
      || (d.id.Some? && d.id.value !in Ids(t))
  {
    if d.spu.None? || d.time.None? then Failure(NotNullViolation)
    else if d.spu.value !in spus then Failure(ForeignKeyViolation)
    else if d.id.None? then
      if SpuTaken(t, d.spu.value, None) then Failure(UniqueViolation)
      else
        var row := ConfigRecord(nextId, d.spu.value, d.time.value, d.isActive, clock, clock);
        Success((t + [row], row))
    else
      var i := IndexOfId(t, d.id.value);
      if i.None? then Failure(DetachedEntity)
      else if SpuTaken(t, d.spu.value, d.id) then Failure(UniqueViolation)
      else
        var row := t[i.value].(spuId := d.spu.value, autoTakeDownTime := d.time.value,
                               isActive := d.isActive, updateTime := clock);
        Success((t[i.value := row], row))
  }

  /**
   * `UNIQ_SPU_ID`: flushing a new config for an SPU that already has one is refused with a
   * unique violation, whatever its other fields, and no row is written.
   */
  lemma UpsertRejectsSecondConfig(t: seq<ConfigRecord>, nextId: ConfigId, spus: set<SpuId>, d: ConfigDraft, clock: Time, c: ConfigRecord)
    requires d.id.None? && d.spu == Some(c.spuId) && d.time.Some? && c.spuId in spus
    requires c in t
    ensures Upsert(t, nextId, spus, d, clock) == Failure(UniqueViolation)
  {
    assert SpuTaken(t, c.spuId, None);
  }

  /** A new entity is inserted as exactly one new row, after all existing rows. */
  lemma UpsertInserts(t: seq<ConfigRecord>, nextId: ConfigId, spus: set<SpuId>, d: ConfigDraft, clock: Time)
    requires d.id.None?
    requires Upsert(t, nextId, spus, d, clock).Success?
    ensures var (t', row) := Upsert(t, nextId, spus, d, clock).value;
      t' == t + [row] && row.id == nextId && Some(row.spuId) == d.spu && Some(row.autoTakeDownTime) == d.time
      && row.isActive == d.isActive && row.createTime == clock && row.updateTime == clock
  {
  }

  /** A managed entity rewrites its own row in place: same id, same creation time, same row count. */
  lemma UpsertUpdates(t: seq<ConfigRecord>, nextId: ConfigId, spus: set<SpuId>, d: ConfigDraft, clock: Time)
    requires UniqueIds(t)
    requires d.id.Some?
    requires Upsert(t, nextId, spus, d, clock).Success?
    ensures var (t', row) := Upsert(t, nextId, spus, d, clock).value;
      |t'| == |t| && row in t' && Ids(t') == Ids(t)
      && row.id == d.id.value && Some(row.spuId) == d.spu && Some(row.autoTakeDownTime) == d.time
      && row.isActive == d.isActive && row.updateTime == clock
      && (forall c :: c in t && c.id == row.id ==> row.createTime == c.createTime)
      && (forall c :: c in t && c.id != row.id ==> c in t')
  {
    var i := IndexOfId(t, d.id.value).value;
    var (t', row) := Upsert(t, nextId, spus, d, clock).value;
    assert t' == t[i := row];
    assert t'[i] == row;
    forall c | c in t && c.id == row.id ensures row.createTime == c.createTime {
      var k :| 0 <= k < |t| && t[k] == c;
      assert k == i;
    }
    forall c | c in t && c.id != row.id ensures c in t' {
      var k :| 0 <= k < |t| && t[k] == c;
      assert t'[k] == c;
    }
    forall x | x in Ids(t') ensures x in Ids(t) {
      var c :| c in t' && c.id == x;
      var k :| 0 <= k < |t'| && t'[k] == c;
      assert t[k].id == x;
    }
    forall x | x in Ids(t) ensures x in Ids(t') {
      var c :| c in t && c.id == x;
      var k :| 0 <= k < |t| && t[k] == c;
      assert t'[k].id == x;
    }
  }

  /** Persisting keeps ids unique (given a fresh id counter) and keeps one config per SPU. */
  lemma UpsertKeepsInvariants(t: seq<ConfigRecord>, nextId: ConfigId, spus: set<SpuId>, d: ConfigDraft, clock: Time)
    requires UniqueIds(t) && OnePerSpu(t)
    requires forall c :: c in t ==> c.id < nextId
    requires Upsert(t, nextId, spus, d, clock).Success?
    ensures var t' := Upsert(t, nextId, spus, d, clock).value.0;
      UniqueIds(t') && OnePerSpu(t') && (forall c :: c in t' ==> c.id < nextId + 1)
      && (forall c :: c in t' ==> c.spuId in spus || c in t)
  {
    var (t', row) := Upsert(t, nextId, spus, d, clock).value;
    if d.id.None? {
      assert t' == t + [row];
      forall i, j | 0 <= i < j < |t'| ensures t'[i].id != t'[j].id && t'[i].spuId != t'[j].spuId {
        if j == |t| {
          assert t'[i] in t;
        }
      }
    } else {
      var k := IndexOfId(t, d.id.value).value;
      assert t' == t[k := row];
      forall i, j | 0 <= i < j < |t'| ensures t'[i].id != t'[j].id && t'[i].spuId != t'[j].spuId {
        if i == k {
          assert t[j] in t && Some(t[j].id) != d.id;
        } else if j == k {
          assert t[i] in t && Some(t[i].id) != d.id;
        }
      }
      forall c | c in t' ensures c.id < nextId + 1 {
        var m :| 0 <= m < |t'| && t'[m] == c;
        assert m != k ==> t[m] == c;
      }
      forall c | c in t' ensures c.spuId in spus || c in t {
        var m :| 0 <= m < |t'| && t'[m] == c;
        assert m != k ==> t[m] == c;
      }
    }
  }

  /** Selecting rows keeps ids unique and keeps one config per SPU. */
  lemma FilterKeepsConstraints(t: seq<ConfigRecord>, p: ConfigRecord -> bool)
    ensures UniqueIds(t) ==> UniqueIds(Filter(t, p))
    ensures OnePerSpu(t) ==> OnePerSpu(Filter(t, p))
  {
    if UniqueIds(t) {
      FilterKeepsKeysDistinct(t, p, IdOf);
    }
    if OnePerSpu(t) {
      FilterKeepsKeysDistinct(t, p, SpuOf);
    }
  }

  function KeepOtherIds(id: ConfigId): ConfigRecord -> bool {
    (c: ConfigRecord) => c.id != id
  }

  function HasId(id: ConfigId): ConfigRecord -> bool {
    (c: ConfigRecord) => c.id == id
  }

  /** The table after removing the row with id `id` (what `remove` + `flush` deletes). */
  function RemoveId(t: seq<ConfigRecord>, id: ConfigId): (r: seq<ConfigRecord>)
    ensures forall c :: c in r <==> c in t && c.id != id
    ensures UniqueIds(t) ==> UniqueIds(r) && |r| == |t| - (if id in Ids(t) then 1 else 0)
    ensures OnePerSpu(t) ==> OnePerSpu(r)
  {
    FilterKeepsConstraints(t, KeepOtherIds(id));
    RemoveIdCount(t, id);
    Filter(t, KeepOtherIds(id))
  }

  /** With unique ids, removing an id deletes one row if it is present and none otherwise. */
  lemma RemoveIdCount(t: seq<ConfigRecord>, id: ConfigId)
    ensures UniqueIds(t) ==> |Filter(t, KeepOtherIds(id))| == |t| - (if id in Ids(t) then 1 else 0)
  {
    if UniqueIds(t) {
      FilterPartition(t, KeepOtherIds(id), HasId(id));
      FilterKeepsKeysDistinct(t, HasId(id), IdOf);
      var gone := Filter(t, HasId(id));
      if id in Ids(t) {
        var c :| c in t && c.id == id;
        assert c in gone;
      }
    }
  }
}
