/** The `AutoDownTimeConfig` entity: one scheduled take-down per SPU. */
module ConfigEntity {
  import opened Wrappers
  import opened Text

  /** Identity of an SPU (a product, owned by another subsystem). */
  type SpuId = int
  /**
   * The SPU catalogue of the product subsystem, reduced to what this core reads and writes:
   * each existing SPU's nullable `valid` flag.
   */
  type SpuCatalogue = map<SpuId, Option<bool>>
  /** Auto-increment id of a config row. */
  type ConfigId = nat

  /**
   * A stored row of the config table. `spuId` and `autoTakeDownTime` are NOT NULL columns;
   * `spuId` is unique across the table; the timestamps are stamped on insert and update.
   */
  datatype ConfigRecord = ConfigRecord(
    id: ConfigId,
    spuId: SpuId,
    autoTakeDownTime: Time,
    isActive: bool,
    createTime: Time,
    updateTime: Time)

  /** `__toString()`: "SPU-<SPU id, or 0> 自动下架于 <time as Y-m-d H:i:s, or empty>". */
  function ConfigLabel(spu: Option<SpuId>, time: Option<Time>): string {
    SpuLabel(spu.GetOr(0), ConfigLabelRest(time))
  }

  function ConfigLabelRest(time: Option<Time>): (s: string)
    ensures |s| > 0 && s[0] == ' '
  {
    " 自动下架于 " + TimeTextOrEmpty(time)
  }

  function TimeTextOrEmpty(time: Option<Time>): string {
    if time.Some? then DateTimeText(time.value) else ""
  }

  /** The label names its SPU unambiguously: equal labels mean equal SPU ids and equal time text. */
  lemma ConfigLabelNamesSpu(s1: Option<SpuId>, t1: Option<Time>, s2: Option<SpuId>, t2: Option<Time>)
    ensures ConfigLabel(s1, t1) == ConfigLabel(s2, t2) ==>
      s1.GetOr(0) == s2.GetOr(0) && TimeTextOrEmpty(t1) == TimeTextOrEmpty(t2)
  {
    SpuLabelPrefixFree(s1.GetOr(0), s2.GetOr(0), ConfigLabelRest(t1), ConfigLabelRest(t2));
    if ConfigLabelRest(t1) == ConfigLabelRest(t2) {
      PrefixCancel(" 自动下架于 ", TimeTextOrEmpty(t1), TimeTextOrEmpty(t2));
    }
  }

  /** The in-memory entity; every field is nullable until set or persisted. */
  class AutoDownTimeConfig {
    var id: Option<ConfigId>
    var spu: Option<SpuId>
    var autoTakeDownTime: Option<Time>
    var isActive: bool
    var createTime: Option<Time>
    var updateTime: Option<Time>

    /** `new AutoDownTimeConfig()`: nothing set yet, and active by default. */
    constructor ()
      ensures id == None && spu == None && autoTakeDownTime == None
      ensures isActive
      ensures createTime == None && updateTime == None
    {
      id, spu, autoTakeDownTime := None, None, None;
      isActive := true;
      createTime, updateTime := None, None;
    }

    /** The managed entity Doctrine builds from a stored row. */
    constructor FromRecord(r: ConfigRecord)
      ensures id == Some(r.id) && spu == Some(r.spuId) && autoTakeDownTime == Some(r.autoTakeDownTime)
      ensures isActive == r.isActive
      ensures createTime == Some(r.createTime) && updateTime == Some(r.updateTime)
    {
      id, spu, autoTakeDownTime := Some(r.id), Some(r.spuId), Some(r.autoTakeDownTime);
      isActive := r.isActive;
      createTime, updateTime := Some(r.createTime), Some(r.updateTime);
    }

    method SetSpu(s: Option<SpuId>)
      modifies this
      ensures spu == s
      ensures id == old(id) && autoTakeDownTime == old(autoTakeDownTime) && isActive == old(isActive)
      ensures createTime == old(createTime) && updateTime == old(updateTime)
    {
      spu := s;
    }

    method SetAutoTakeDownTime(t: Option<Time>)
      modifies this
      ensures autoTakeDownTime == t
      ensures id == old(id) && spu == old(spu) && isActive == old(isActive)
      ensures createTime == old(createTime) && updateTime == old(updateTime)
    {
      autoTakeDownTime := t;
    }

    method SetIsActive(active: bool)
      modifies this
      ensures isActive == active
      ensures id == old(id) && spu == old(spu) && autoTakeDownTime == old(autoTakeDownTime)
      ensures createTime == old(createTime) && updateTime == old(updateTime)
    {
      isActive := active;
    }

    /** `isActive()` and `getIsActive()`. */
    predicate IsActive()
      reads this
    {
      isActive
    }

    /** `isCanceled()`: always the negation of `isActive()`. */
    predicate IsCanceled()
      reads this
      ensures IsCanceled() <==> !IsActive()
    {
      !isActive
    }

    /**
     * `markAsCanceled()`: clears the active bit, touches nothing else and returns the same
     * object. The new state does not depend on the old bit, so a second call changes nothing.
     */
    method MarkAsCanceled() returns (self: AutoDownTimeConfig)
      modifies this
      ensures self == this
      ensures !isActive && IsCanceled()
      ensures id == old(id) && spu == old(spu) && autoTakeDownTime == old(autoTakeDownTime)
      ensures createTime == old(createTime) && updateTime == old(updateTime)
    {
      isActive := false;
      self := this;
    }

    /** `__toString()`: starts with "SPU-" and, by `ConfigLabelNamesSpu`, names the SPU unambiguously. */
    function ToString(): (s: string)
      reads this
      ensures |s| > 4 && s[..4] == "SPU-"
      ensures |s| >= |ConfigLabelRest(autoTakeDownTime)| && s[|s| - |ConfigLabelRest(autoTakeDownTime)|..] == ConfigLabelRest(autoTakeDownTime)
    {
      var rest := ConfigLabelRest(autoTakeDownTime);
      SpuLabelShape(spu.GetOr(0), rest, rest);
      ConfigLabel(spu, autoTakeDownTime)
    }
  }
}
