/** The `AutoDownLog` entity: one immutable audit record per notable event. */
module LogEntity {
  import opened Wrappers
  import opened Text
  import opened LogAction
  import opened ConfigEntity

  /** Generated id of a log row (time-sortable in the source; a counter here). */
  type LogId = nat

  /** A JSON scalar inside a log's context; the context itself is kept opaque. */
  datatype ContextValue = StringValue(s: string) | IntValue(i: int) | BoolValue(b: bool)
  type Context = map<string, ContextValue>

  /**
   * A stored row of the log table. `spuId`, `configId` and `action` are NOT NULL;
   * `description` and `context` are nullable. `configId` is a foreign key with ON DELETE CASCADE.
   */
  datatype LogRecord = LogRecord(
    id: LogId,
    spuId: SpuId,
    configId: ConfigId,
    action: AutoDownLogAction,
    description: Option<string>,
    context: Option<Context>,
    createTime: Time)

  /** `__toString()`: "SPU-<SPU id, or 0> <action label, or empty>". */
  function LogLabel(spuId: Option<SpuId>, action: Option<AutoDownLogAction>): string {
    SpuLabel(spuId.GetOr(0), LogLabelRest(action))
  }

  function LogLabelRest(action: Option<AutoDownLogAction>): (s: string)
    ensures |s| > 0 && s[0] == ' '
  {
    " " + LabelOrEmpty(action)
  }

  function LabelOrEmpty(action: Option<AutoDownLogAction>): string {
    if action.Some? then action.value.Label() else ""
  }

  /** The label determines the SPU id (null reads as 0) and the action. */
  lemma LogLabelInjective(s1: Option<SpuId>, a1: Option<AutoDownLogAction>, s2: Option<SpuId>, a2: Option<AutoDownLogAction>)
    ensures LogLabel(s1, a1) == LogLabel(s2, a2) ==> s1.GetOr(0) == s2.GetOr(0) && a1 == a2
  {
    SpuLabelPrefixFree(s1.GetOr(0), s2.GetOr(0), LogLabelRest(a1), LogLabelRest(a2));
    if LogLabelRest(a1) == LogLabelRest(a2) {
      PrefixCancel(" ", LabelOrEmpty(a1), LabelOrEmpty(a2));
      LabelOrEmptyInjective(a1, a2);
    }
  }

  lemma LabelOrEmptyInjective(a1: Option<AutoDownLogAction>, a2: Option<AutoDownLogAction>)
    ensures LabelOrEmpty(a1) == LabelOrEmpty(a2) ==> a1 == a2
  {
    match (a1, a2)
    case (Some(x), Some(y)) => ValuesAndLabelsDistinct(x, y);
    case (Some(x), None) => assert |x.Label()| > 0;
    case (None, Some(y)) => assert |y.Label()| > 0;
    case (None, None) =>
  }

  /** The in-memory entity; every field is nullable until set or persisted. */
  class AutoDownLog {
    var id: Option<LogId>
    var spuId: Option<SpuId>
    /** The owning config, by its id (the `config_id` join column). */
    var config: Option<ConfigId>
    var action: Option<AutoDownLogAction>
    var description: Option<string>
    var context: Option<Context>
    var createTime: Option<Time>

    constructor ()
      ensures id == None && spuId == None && config == None && action == None
      ensures description == None && context == None && createTime == None
    {
      id, spuId, config, action := None, None, None, None;
      description, context, createTime := None, None, None;
    }

    method SetSpuId(s: Option<SpuId>)
      modifies this
      ensures spuId == s
      ensures id == old(id) && config == old(config) && action == old(action)
      ensures description == old(description) && context == old(context) && createTime == old(createTime)
    {
      spuId := s;
    }

    method SetConfig(c: Option<ConfigId>)
      modifies this
      ensures config == c
      ensures id == old(id) && spuId == old(spuId) && action == old(action)
      ensures description == old(description) && context == old(context) && createTime == old(createTime)
    {
      config := c;
    }

    method SetAction(a: Option<AutoDownLogAction>)
      modifies this
      ensures action == a
      ensures id == old(id) && spuId == old(spuId) && config == old(config)
      ensures description == old(description) && context == old(context) && createTime == old(createTime)
    {
      action := a;
    }

    method SetDescription(d: Option<string>)
      modifies this
      ensures description == d
      ensures id == old(id) && spuId == old(spuId) && config == old(config) && action == old(action)
      ensures context == old(context) && createTime == old(createTime)
    {
      description := d;
    }

    method SetContext(c: Option<Context>)
      modifies this
      ensures context == c
      ensures id == old(id) && spuId == old(spuId) && config == old(config) && action == old(action)
      ensures description == old(description) && createTime == old(createTime)
    {
      context := c;
    }

    /** `__toString()`: starts with "SPU-" and, by `LogLabelInjective`, names the SPU and the action. */
    function ToString(): (s: string)
      reads this
      ensures |s| > 4 && s[..4] == "SPU-"
      ensures |s| >= |LabelOrEmpty(action)| && s[|s| - |LabelOrEmpty(action)|..] == LabelOrEmpty(action)
    {
      var rest := LogLabelRest(action);
      assert rest[|rest| - |LabelOrEmpty(action)|..] == LabelOrEmpty(action);
      SpuLabelShape(spuId.GetOr(0), rest, LabelOrEmpty(action));
      LogLabel(spuId, action)
    }
  }
}
