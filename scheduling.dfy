/**
 * The config-table effect of `configureAutoTakeDownTime` and `cancelAutoTakeDown`: which entity
 * each flushes, and what the table looks like afterwards.
 */
module Scheduling {
  import opened Wrappers
  import opened Text
  import opened ConfigEntity
  import opened ConfigTable

  /** The table constraints of the database, for an id counter and a set of existing SPUs. */
  predicate TableValid(t: seq<ConfigRecord>, nextId: ConfigId, spus: set<SpuId>) {
    UniqueIds(t) && OnePerSpu(t) && (forall c :: c in t ==> c.id < nextId && c.spuId in spus)
  }

  /**
   * The entity `configureAutoTakeDownTime` flushes for SPU `spuId`: the SPU's existing config,
   * active or canceled, with the new time; or a new config of that SPU, active by default.
   */
  function ScheduleDraft(t: seq<ConfigRecord>, spuId: SpuId, time: Time): (d: ConfigDraft)
    ensures d.spu == Some(spuId) && d.time == Some(time)
    ensures d.id.None? <==> FindBySpu(t, spuId).None?
  {
    match FindBySpu(t, spuId)
    case None => ConfigDraft(None, Some(spuId), Some(time), true)
    case Some(c) => ConfigDraft(Some(c.id), Some(c.spuId), Some(time), c.isActive)
  }

  /** The entity `cancelAutoTakeDown` flushes for its config `c`: the same row, marked canceled. */
  function CancelDraft(c: ConfigRecord): ConfigDraft {
    ConfigDraft(Some(c.id), Some(c.spuId), Some(c.autoTakeDownTime), false)
  }

  /** Whether `cancelAutoTakeDown(spuId)` does anything: the SPU has a config and it is active. */
  predicate Cancelable(t: seq<ConfigRecord>, spuId: SpuId) {
    FindBySpu(t, spuId).Some? && FindBySpu(t, spuId).value.isActive
  }

  /**
   * Scheduling an existing SPU always succeeds. Afterwards the SPU has exactly one config, with
   * the new time and the flush as its update time; a new config is appended as an active row
   * with the next id, an existing one keeps its id, creation time and active bit (a canceled
   * config stays canceled). The other SPUs' configs are untouched and the constraints still hold.
   */
  lemma ScheduleEffect(t: seq<ConfigRecord>, nextId: ConfigId, spus: set<SpuId>, spuId: SpuId, time: Time, clock: Time)
    requires TableValid(t, nextId, spus) && spuId in spus
    ensures var r := Upsert(t, nextId, spus, ScheduleDraft(t, spuId, time), clock);
      && r.Success?
      && var (t', row) := r.value;
      && row.spuId == spuId && row.autoTakeDownTime == time && row.updateTime == clock
      && FindBySpu(t', spuId) == Some(row)
      && TableValid(t', nextId + 1, spus)
      && (forall c :: c in t && c.spuId != spuId ==> c in t')
      && (forall c :: c in t' && c.spuId != spuId ==> c in t)
      && (FindBySpu(t, spuId).None? ==>
            t' == t + [row] && row.id == nextId && row.isActive && row.createTime == clock)
      && (FindBySpu(t, spuId).Some? ==>
            |t'| == |t| && Ids(t') == Ids(t) && row.id == FindBySpu(t, spuId).value.id
            && row.isActive == FindBySpu(t, spuId).value.isActive
            && row.createTime == FindBySpu(t, spuId).value.createTime)
  {
    var d := ScheduleDraft(t, spuId, time);
    var found := FindBySpu(t, spuId);
    if found.Some? {
      var c := found.value;
      forall x | x in t && x.spuId == spuId ensures x.id == c.id {
        FindBySpuUnique(t, x);
      }
      assert !SpuTaken(t, spuId, d.id);
      assert c.id in Ids(t);
    }
    var r := Upsert(t, nextId, spus, d, clock);
    assert r.Success?;
    UpsertKeepsInvariants(t, nextId, spus, d, clock);
    var (t', row) := r.value;
    if found.None? {
      UpsertInserts(t, nextId, spus, d, clock);
      forall c | c in t' && c.spuId != spuId ensures c in t {
      }
    } else {
      UpsertUpdates(t, nextId, spus, d, clock);
      var c := found.value;
      forall x | x in t' && x.spuId != spuId ensures x in t {
        UpdateOthersKept(t, nextId, spus, d, clock, x);
      }
    }
    FindBySpuUnique(t', row);
  }

  /** After an update, every row other than the rewritten one was already in the table. */
  lemma UpdateOthersKept(t: seq<ConfigRecord>, nextId: ConfigId, spus: set<SpuId>, d: ConfigDraft, clock: Time, x: ConfigRecord)
    requires d.id.Some?
    requires Upsert(t, nextId, spus, d, clock).Success?
    requires x in Upsert(t, nextId, spus, d, clock).value.0
    requires x != Upsert(t, nextId, spus, d, clock).value.1
    ensures x in t
  {
    var i := IndexOfId(t, d.id.value).value;
    var (t', row) := Upsert(t, nextId, spus, d, clock).value;
    assert t' == t[i := row];
    var k :| 0 <= k < |t'| && t'[k] == x;
    assert k != i;
    assert t[k] == x;
  }

  /**
   * Canceling a stored config always succeeds: its row becomes the same row, inactive and
   * stamped with the flush time, every other row stays, and the table keeps its size and its
   * constraints. Afterwards the SPU is no longer cancelable, so a second cancel does nothing.
   */
  lemma CancelEffect(t: seq<ConfigRecord>, nextId: ConfigId, spus: set<SpuId>, c: ConfigRecord, clock: Time)
    requires TableValid(t, nextId, spus) && c in t
    ensures var r := Upsert(t, nextId, spus, CancelDraft(c), clock);
      && r.Success?
      && var (t', row) := r.value;
      && row == c.(isActive := false, updateTime := clock)
      && FindBySpu(t', c.spuId) == Some(row)
      && !Cancelable(t', c.spuId)
      && |t'| == |t| && Ids(t') == Ids(t)
      && TableValid(t', nextId, spus)
      && (forall x :: x in t && x.id != c.id ==> x in t')
      && (forall x :: x in t' ==> x in t || x == row)
  {
    var d := CancelDraft(c);
    forall x | x in t && x.spuId == c.spuId ensures x.id == c.id {
      FindBySpuUnique(t, x);
      FindBySpuUnique(t, c);
    }
    assert !SpuTaken(t, c.spuId, d.id);
    assert c.id in Ids(t);
    var r := Upsert(t, nextId, spus, d, clock);
    assert r.Success?;
    UpsertKeepsInvariants(t, nextId, spus, d, clock);
    UpsertUpdates(t, nextId, spus, d, clock);
    var (t', row) := r.value;
    var i := IndexOfId(t, c.id).value;
    assert t[i] == c by {
      var j :| 0 <= j < |t| && t[j] == c;
      assert t[j].id == t[i].id;
    }
    forall x | x in t' ensures x in t || x == row {
      if x != row {
        UpdateOthersKept(t, nextId, spus, d, clock, x);
      }
    }
    forall x | x in t' ensures x.id < nextId {
    }
    FindBySpuUnique(t', row);
  }
}
