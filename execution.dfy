/**
 * What `executeAutoTakeDown` does to the SPU catalogue, the log table and its counter, as a fold
 * over the due configs; `AutoDownService.ExecuteAutoTakeDown` is proved to compute exactly this.
 */
module Execution {
  import opened Wrappers
  import opened Text
  import opened Seqs
  import opened LogAction
  import opened ConfigEntity
  import opened LogEntity
  import opened ConfigTable
  import opened LogTable

  /** A `Throwable` as the executor reads it: message, file and line. */
  datatype Fault = Fault(message: string, file: string, line: int)

  /** The exception `AutoDownServiceException::spuNotFound()` creates. */
  const SPU_NOT_FOUND: Fault := Fault("配置关联的SPU不存在", "src/Exception/AutoDownServiceException.php", 9)

  /** How one call of `processSingleConfig` ends. */
  datatype Outcome = TakenDown | AlreadyDown | Failed(fault: Fault)

  /**
   * The outcome for an SPU whose `valid` flag is `valid`, when loading or updating the SPU raises
   * `injected` (if anything). Only a flag that is exactly `false` counts as already down.
   */
  function OutcomeOf(valid: Option<bool>, injected: Option<Fault>): Outcome {
    if injected.Some? then Failed(injected.value)
    else if valid == Some(false) then AlreadyDown
    else TakenDown
  }

  /** The action of the log an outcome leaves. */
  function LoggedAction(o: Outcome): AutoDownLogAction {
    match o
    case TakenDown => Executed
    case AlreadyDown => Skipped
    case Failed(_) => Error
  }

  /** The descriptions the service writes (`sprintf` with `%d` and `Y-m-d H:i:s`). */
  function ScheduledText(spuId: SpuId, time: Time): string {
    "设置SPU-" + Decimal(spuId) + "自动下架时间为" + DateTimeText(time)
  }

  function CanceledText(spuId: SpuId): string {
    "取消SPU-" + Decimal(spuId) + "的自动下架"
  }

  function SkippedText(spuId: SpuId): string {
    "SPU-" + Decimal(spuId) + "已经下架，跳过执行"
  }

  function ExecutedText(spuId: SpuId): string {
    "成功将SPU-" + Decimal(spuId) + "下架"
  }

  function ErrorText(f: Fault): string {
    "自动下架执行失败: " + f.message
  }

  /** The context of an ERROR log: the exception's message, file and line. */
  function ErrorContext(f: Fault): Context {
    map["error_message" := StringValue(f.message), "error_file" := StringValue(f.file), "error_line" := IntValue(f.line)]
  }

  /** What one run of the executor has changed so far, and its counter. */
  datatype RunState = RunState(spus: SpuCatalogue, logs: seq<LogRecord>, nextLogId: LogId, count: nat)

  /** The log row the next write for config `id` of SPU `spuId` creates. */
  function Entry(st: RunState, id: ConfigId, spuId: SpuId, action: AutoDownLogAction, description: string,
                 context: Option<Context>, clock: Time): LogRecord
  {
    LogRecord(st.nextLogId, spuId, id, action, Some(description), context, clock)
  }

  function Append(st: RunState, l: LogRecord): RunState {
    st.(logs := st.logs + [l], nextLogId := st.nextLogId + 1)
  }

  /**
   * What `processSingleConfig` leaves behind for config `id` of SPU `spuId` (the counter belongs
   * to the caller): nothing when it throws, a SKIPPED log for an SPU already down, and otherwise
   * the SPU taken down and an EXECUTED log.
   */
  function Process(st: RunState, id: ConfigId, spuId: SpuId, injected: Option<Fault>, clock: Time): RunState
    requires spuId in st.spus
  {
    match OutcomeOf(st.spus[spuId], injected)
    case Failed(_) => st
    case AlreadyDown => Append(st, Entry(st, id, spuId, Skipped, SkippedText(spuId), None, clock))
    case TakenDown =>
      Append(st.(spus := st.spus[spuId := Some(false)]), Entry(st, id, spuId, Executed, ExecutedText(spuId), None, clock))
  }

  /**
   * One pass of the loop in `executeAutoTakeDown`: `processSingleConfig` for `c`, or, when that
   * throws, the ERROR log the loop's `catch` writes; the counter grows in the `try` block only.
   */
  function Step(st: RunState, c: ConfigRecord, injected: Option<Fault>, clock: Time): (r: RunState)
    requires c.spuId in st.spus
    ensures r.spus.Keys == st.spus.Keys
    ensures |r.logs| == |st.logs| + 1 && r.logs[..|st.logs|] == st.logs && r.nextLogId == st.nextLogId + 1
    ensures st.count <= r.count <= st.count + 1
  {
    var o := OutcomeOf(st.spus[c.spuId], injected);
    if o.Failed? then Append(st, Entry(st, c.id, c.spuId, Error, ErrorText(o.fault), Some(ErrorContext(o.fault)), clock))
    else Process(st, c.id, c.spuId, injected, clock).(count := st.count + 1)
  }

  /**
   * A step writes exactly one log for `c`, with the next id, the run's clock and an action that
   * tells the outcome; the counter grows unless processing threw; only a valid SPU is changed,
   * and only to `false`.
   */
  lemma StepEffect(st: RunState, c: ConfigRecord, injected: Option<Fault>, clock: Time)
    requires c.spuId in st.spus
    ensures var r := Step(st, c, injected, clock);
      var o := OutcomeOf(st.spus[c.spuId], injected);
      && r.logs[|st.logs|].id == st.nextLogId && r.logs[|st.logs|].configId == c.id
      && r.logs[|st.logs|].spuId == c.spuId && r.logs[|st.logs|].createTime == clock
      && r.logs[|st.logs|].action == LoggedAction(o)
      && r.count == st.count + (if o.Failed? then 0 else 1)
      && r.spus == (if o == TakenDown then st.spus[c.spuId := Some(false)] else st.spus)
  {
  }

  /**
   * A step is `processSingleConfig`'s effect plus one on the counter when nothing is thrown, and
   * the catch block's ERROR log, with the fault's message, file and line, when something is.
   */
  lemma StepCases(st: RunState, c: ConfigRecord, injected: Option<Fault>, clock: Time)
    requires c.spuId in st.spus
    ensures injected.None? ==>
      Step(st, c, injected, clock) == Process(st.(count := 0), c.id, c.spuId, injected, clock).(count := st.count + 1)
    ensures injected.Some? ==>
      Step(st, c, injected, clock)
        == Append(st, Entry(st, c.id, c.spuId, Error, ErrorText(injected.value), Some(ErrorContext(injected.value)), clock))
  {
  }

  predicate SpusKnown(due: seq<ConfigRecord>, spus: SpuCatalogue) {
    forall i :: 0 <= i < |due| ==> due[i].spuId in spus
  }

  /**
   * The whole loop over `due`, in order, with `faults` saying which configs' processing throws.
   * It appends one log per config, never removes one, and counts at most one per config.
   */
  function Run(st: RunState, due: seq<ConfigRecord>, faults: ConfigId -> Option<Fault>, clock: Time): (r: RunState)
    requires SpusKnown(due, st.spus)
    ensures r.spus.Keys == st.spus.Keys
    ensures |r.logs| == |st.logs| + |due| && r.logs[..|st.logs|] == st.logs
    ensures r.nextLogId == st.nextLogId + |due|
    ensures st.count <= r.count <= st.count + |due|
    decreases |due|
  {
    if due == [] then st
    else
      var n := |due| - 1;
      var prev := Run(st, due[..n], faults, clock);
      Step(prev, due[n], faults(due[n].id), clock)
  }

  /** The runs over the prefixes of `due`: the last step is the one for the last config. */
  lemma RunUnfold(st: RunState, due: seq<ConfigRecord>, faults: ConfigId -> Option<Fault>, clock: Time)
    requires SpusKnown(due, st.spus) && due != []
    ensures SpusKnown(due[..|due| - 1], st.spus)
    ensures Run(st, due, faults, clock)
      == Step(Run(st, due[..|due| - 1], faults, clock), due[|due| - 1], faults(due[|due| - 1].id), clock)
  {
  }

  /** The run over the first `k + 1` configs is the run over the first `k`, then one step. */
  lemma RunExtend(st: RunState, due: seq<ConfigRecord>, k: nat, faults: ConfigId -> Option<Fault>, clock: Time)
    requires SpusKnown(due, st.spus) && k < |due|
    ensures SpusKnown(due[..k], st.spus) && SpusKnown(due[..k + 1], st.spus)
    ensures Run(st, due[..k + 1], faults, clock) == Step(Run(st, due[..k], faults, clock), due[k], faults(due[k].id), clock)
  {
    var pre := due[..k + 1];
    assert pre[..k] == due[..k];
    assert SpusKnown(pre, st.spus) by {
      forall i | 0 <= i < |pre| ensures pre[i].spuId in st.spus {
        assert pre[i] == due[i];
      }
    }
    RunUnfold(st, pre, faults, clock);
  }

  /** An element of a prefix is the element at the same index of the whole. */
  lemma PrefixAt<T>(a: seq<T>, b: seq<T>, k: int)
    requires |a| <= |b| && b[..|a|] == a && 0 <= k < |a|
    ensures b[k] == a[k]
  {
    assert b[..|a|][k] == b[k];
  }

  /** The log written for config `c` as the `k`-th write of a run starting at id `firstId`. */
  predicate LogFor(l: LogRecord, id: LogId, c: ConfigRecord, faulted: bool, clock: Time) {
    l.id == id && l.configId == c.id && l.spuId == c.spuId && l.createTime == clock && (l.action == Error <==> faulted)
  }

  /** Every log a run from `st` to `r` appended for `due` is the `LogFor` its config. */
  predicate AllLogged(st: RunState, r: RunState, due: seq<ConfigRecord>, faults: ConfigId -> Option<Fault>, clock: Time) {
    |r.logs| >= |st.logs| + |due|
    && forall i :: 0 <= i < |due| ==>
      LogFor(r.logs[|st.logs| + i], st.nextLogId + i, due[i], faults(due[i].id).Some?, clock)
  }

  /**
   * The `i`-th appended log belongs to the `i`-th due config: its id, SPU and config, the run's
   * clock, and the ERROR action exactly when that config's processing threw.
   */
  lemma {:induction false} RunLogEntries(st: RunState, due: seq<ConfigRecord>, faults: ConfigId -> Option<Fault>, clock: Time)
    requires SpusKnown(due, st.spus)
    ensures AllLogged(st, Run(st, due, faults, clock), due, faults, clock)
    decreases |due|
  {
    if due != [] {
      var n := |due| - 1;
      var c := due[n];
      RunUnfold(st, due, faults, clock);
      RunLogEntries(st, due[..n], faults, clock);
      var prev := Run(st, due[..n], faults, clock);
      var r := Step(prev, c, faults(c.id), clock);
      StepEffect(prev, c, faults(c.id), clock);
      assert Run(st, due, faults, clock) == r;
      LoggedAfterLast(st, prev, r, due[..n], due, faults, clock);
    }
  }

  /** Appending the last config's log to logs that cover the others covers them all. */
  lemma LoggedAfterLast(st: RunState, prev: RunState, r: RunState, pre: seq<ConfigRecord>, due: seq<ConfigRecord>,
                        faults: ConfigId -> Option<Fault>, clock: Time)
    requires due != [] && pre == due[..|due| - 1]
    requires AllLogged(st, prev, pre, faults, clock)
    requires |prev.logs| == |st.logs| + |pre| && |r.logs| == |prev.logs| + 1 && r.logs[..|prev.logs|] == prev.logs
    requires LogFor(r.logs[|prev.logs|], st.nextLogId + |pre|, due[|pre|], faults(due[|pre|].id).Some?, clock)
    ensures AllLogged(st, r, due, faults, clock)
  {
    forall i | 0 <= i < |due|
      ensures LogFor(r.logs[|st.logs| + i], st.nextLogId + i, due[i], faults(due[i].id).Some?, clock)
    {
      if i < |pre| {
        PrefixAt(prev.logs, r.logs, |st.logs| + i);
        PrefixAt(pre, due, i);
      }
    }
  }

  /** The number of ERROR logs appended, and the counter's growth, add up to the number of due configs. */
  lemma {:induction false} RunCountsSucceeded(st: RunState, due: seq<ConfigRecord>, faults: ConfigId -> Option<Fault>, clock: Time)
    requires SpusKnown(due, st.spus)
    ensures var r := Run(st, due, faults, clock);
      r.count + CountAction(r.logs[|st.logs|..], Error) == st.count + |due|
    decreases |due|
  {
    if due != [] {
      var n := |due| - 1;
      RunUnfold(st, due, faults, clock);
      RunCountsSucceeded(st, due[..n], faults, clock);
      var prev := Run(st, due[..n], faults, clock);
      var r := Step(prev, due[n], faults(due[n].id), clock);
      StepEffect(prev, due[n], faults(due[n].id), clock);
      assert Run(st, due, faults, clock) == r;
      CountAfterAppend(prev.logs, r.logs, |st.logs|, Error);
    }
  }

  /** Appending one log adds one to the count of its action in any suffix, and nothing to the others. */
  lemma CountAfterAppend(a: seq<LogRecord>, b: seq<LogRecord>, k: nat, action: AutoDownLogAction)
    requires k <= |a| && |b| == |a| + 1 && b[..|a|] == a
    ensures CountAction(b[k..], action) == CountAction(a[k..], action) + (if b[|a|].action == action then 1 else 0)
  {
    assert b == a + [b[|a|]];
    assert b[k..] == a[k..] + [b[|a|]];
    FilterAppend(a[k..], [b[|a|]], MatchesKey(ByAction(action)));
  }

  /**
   * A run changes an SPU's flag only to `false`, and only for an SPU that one of the due configs
   * points to; SPUs already down stay down.
   */
  lemma {:induction false} RunSpus(st: RunState, due: seq<ConfigRecord>, faults: ConfigId -> Option<Fault>, clock: Time)
    requires SpusKnown(due, st.spus)
    ensures var r := Run(st, due, faults, clock);
      forall s :: s in st.spus ==>
        r.spus[s] == st.spus[s] || (r.spus[s] == Some(false) && exists c :: c in due && c.spuId == s)
    decreases |due|
  {
    if due != [] {
      var n := |due| - 1;
      RunUnfold(st, due, faults, clock);
      RunSpus(st, due[..n], faults, clock);
      var r := Run(st, due, faults, clock);
      StepEffect(Run(st, due[..n], faults, clock), due[n], faults(due[n].id), clock);
      forall s | s in st.spus
        ensures r.spus[s] == st.spus[s] || (r.spus[s] == Some(false) && exists c :: c in due && c.spuId == s)
      {
        var prev := Run(st, due[..n], faults, clock);
        if r.spus[s] != prev.spus[s] {
          assert due[n] in due && due[n].spuId == s;
        } else if prev.spus[s] != st.spus[s] {
          var c :| c in due[..n] && c.spuId == s;
          assert c in due;
        }
      }
    }
  }

  /** A run leaves alone the flag of every SPU that none of the due configs points to. */
  lemma {:induction false} RunUntouched(st: RunState, due: seq<ConfigRecord>, faults: ConfigId -> Option<Fault>, clock: Time, s: SpuId)
    requires SpusKnown(due, st.spus) && s in st.spus
    requires forall i :: 0 <= i < |due| ==> due[i].spuId != s
    ensures Run(st, due, faults, clock).spus[s] == st.spus[s]
    decreases |due|
  {
    if due != [] {
      var n := |due| - 1;
      var pre := due[..n];
      RunUnfold(st, due, faults, clock);
      forall i | 0 <= i < n ensures pre[i].spuId != s {
        PrefixAt(pre, due, i);
      }
      RunUntouched(st, pre, faults, clock, s);
      StepEffect(Run(st, pre, faults, clock), due[n], faults(due[n].id), clock);
    }
  }

  /** When nothing throws, every due config is counted and every due SPU ends up down. */
  lemma {:induction false} RunFaultFree(st: RunState, due: seq<ConfigRecord>, faults: ConfigId -> Option<Fault>, clock: Time)
    requires SpusKnown(due, st.spus)
    requires forall i :: 0 <= i < |due| ==> faults(due[i].id).None?
    ensures var r := Run(st, due, faults, clock);
      r.count == st.count + |due| && forall i :: 0 <= i < |due| ==> r.spus[due[i].spuId] == Some(false)
    decreases |due|
  {
    if due != [] {
      var n := |due| - 1;
      var last := due[n];
      var pre := due[..n];
      RunUnfold(st, due, faults, clock);
      forall i | 0 <= i < n ensures faults(pre[i].id).None? {
        PrefixAt(pre, due, i);
      }
      RunFaultFree(st, pre, faults, clock);
      var prev := Run(st, pre, faults, clock);
      var r := Step(prev, last, faults(last.id), clock);
      StepEffect(prev, last, faults(last.id), clock);
      assert Run(st, due, faults, clock) == r;
      DownAfterLast(pre, due, prev.spus, r.spus);
    }
  }

  /** If every SPU but the last config's was already down and the last one is taken down, all are. */
  lemma DownAfterLast(pre: seq<ConfigRecord>, due: seq<ConfigRecord>, before: SpuCatalogue, after: SpuCatalogue)
    requires due != [] && pre == due[..|due| - 1]
    requires due[|due| - 1].spuId in after && after[due[|due| - 1].spuId] == Some(false)
    requires SpusKnown(pre, before)
    requires forall i :: 0 <= i < |pre| ==> before[pre[i].spuId] == Some(false)
    requires forall s :: s in before && s != due[|due| - 1].spuId ==> s in after && after[s] == before[s]
    ensures SpusKnown(due, after)
    ensures forall i :: 0 <= i < |due| ==> after[due[i].spuId] == Some(false)
  {
    forall i | 0 <= i < |due| - 1 ensures due[i] == pre[i] {
      PrefixAt(pre, due, i);
    }
  }

  /** A log that reports a skip, or an error when processing threw. */
  predicate SkippedUnlessFaulted(l: LogRecord, faulted: bool) {
    l.action == (if faulted then Error else Skipped)
  }

  /** Every log a run from `st` to `r` appended for `due` is a skip, or an error where processing threw. */
  predicate AllSkipped(st: RunState, r: RunState, due: seq<ConfigRecord>, faults: ConfigId -> Option<Fault>) {
    |r.logs| >= |st.logs| + |due|
    && forall i :: 0 <= i < |due| ==> SkippedUnlessFaulted(r.logs[|st.logs| + i], faults(due[i].id).Some?)
  }

  /**
   * A run over configs whose SPUs are all down changes no SPU: every config is skipped, or logged
   * as an error when its processing throws.
   */
  lemma {:induction false} RunOnTakenDown(st: RunState, due: seq<ConfigRecord>, faults: ConfigId -> Option<Fault>, clock: Time)
    requires SpusKnown(due, st.spus)
    requires forall i :: 0 <= i < |due| ==> st.spus[due[i].spuId] == Some(false)
    ensures Run(st, due, faults, clock).spus == st.spus
    ensures AllSkipped(st, Run(st, due, faults, clock), due, faults)
    decreases |due|
  {
    if due != [] {
      var n := |due| - 1;
      var pre := due[..n];
      RunUnfold(st, due, faults, clock);
      forall i | 0 <= i < n ensures st.spus[pre[i].spuId] == Some(false) {
        PrefixAt(pre, due, i);
      }
      RunOnTakenDown(st, pre, faults, clock);
      var prev := Run(st, pre, faults, clock);
      var c := due[n];
      var r := Step(prev, c, faults(c.id), clock);
      StepEffect(prev, c, faults(c.id), clock);
      SkippedAfterLast(st, prev, r, pre, due, faults);
    }
  }

  /** Skips logged before the last step stay in place when it appends one more. */
  lemma SkippedAfterLast(st: RunState, prev: RunState, r: RunState, pre: seq<ConfigRecord>, due: seq<ConfigRecord>,
                         faults: ConfigId -> Option<Fault>)
    requires due != [] && pre == due[..|due| - 1]
    requires |prev.logs| == |st.logs| + |pre| && |r.logs| == |prev.logs| + 1 && r.logs[..|prev.logs|] == prev.logs
    requires AllSkipped(st, prev, pre, faults)
    requires SkippedUnlessFaulted(r.logs[|prev.logs|], faults(due[|pre|].id).Some?)
    ensures AllSkipped(st, r, due, faults)
  {
    forall i | 0 <= i < |due| ensures SkippedUnlessFaulted(r.logs[|st.logs| + i], faults(due[i].id).Some?) {
      if i < |pre| {
        PrefixAt(prev.logs, r.logs, |st.logs| + i);
        PrefixAt(pre, due, i);
      }
    }
  }

  /**
   * When nothing throws in either run, running again over the same due configs changes no SPU
   * and counts every config again (as skipped).
   */
  lemma RunTwice(st: RunState, due: seq<ConfigRecord>, faults: ConfigId -> Option<Fault>, clock: Time, clock': Time)
    requires SpusKnown(due, st.spus)
    requires forall c :: c in due ==> faults(c.id).None?
    ensures var r := Run(st, due, faults, clock);
      SpusKnown(due, r.spus)
      && Run(r, due, faults, clock').spus == r.spus
      && Run(r, due, faults, clock').count == r.count + |due|
  {
    var r := Run(st, due, faults, clock);
    RunFaultFree(st, due, faults, clock);
    RunOnTakenDown(r, due, faults, clock');
    RunFaultFree(r, due, faults, clock');
  }

  /**
   * The log for config `c` and the SPU's flag after the run are those the outcome decided by the
   * flag before the run (`before`) and the fault `injected`.
   */
  predicate Decided(l: LogRecord, before: SpuCatalogue, after: SpuCatalogue, c: ConfigRecord, injected: Option<Fault>) {
    c.spuId in before && c.spuId in after
    && var o := OutcomeOf(before[c.spuId], injected);
    l.action == LoggedAction(o) && after[c.spuId] == (if o == TakenDown then Some(false) else before[c.spuId])
  }

  /**
   * With one config per SPU (which the unique constraint guarantees for the due selection), each
   * config's outcome is decided by the state before the run: the SPU's flag as it was then, and
   * whether its processing threw.
   */
  lemma {:induction false} RunOutcomes(st: RunState, due: seq<ConfigRecord>, faults: ConfigId -> Option<Fault>, clock: Time)
    requires SpusKnown(due, st.spus)
    requires OnePerSpu(due)
    ensures AllDecided(st, Run(st, due, faults, clock), due, faults)
    decreases |due|
  {
    if due != [] {
      var n := |due| - 1;
      var c := due[n];
      RunUnfold(st, due, faults, clock);
      var pre := due[..n];
      assert OnePerSpu(pre) by {
        forall i, j | 0 <= i < j < |pre| ensures pre[i].spuId != pre[j].spuId {
          PrefixAt(pre, due, i);
          PrefixAt(pre, due, j);
        }
      }
      RunOutcomes(st, pre, faults, clock);
      forall i | 0 <= i < n ensures pre[i].spuId != c.spuId {
        PrefixAt(pre, due, i);
      }
      assert c in due;
      RunUntouched(st, pre, faults, clock, c.spuId);
      var prev := Run(st, pre, faults, clock);
      var r := Step(prev, c, faults(c.id), clock);
      StepEffect(prev, c, faults(c.id), clock);
      DecidedAfterLast(st, prev, r, pre, due, faults);
    }
  }

  /**
   * The logs a run from `st` to `r` appended for `due`, and the SPU flags in `r`, are those the
   * outcomes decided by the flags in `st` and the faults.
   */
  predicate AllDecided(st: RunState, r: RunState, due: seq<ConfigRecord>, faults: ConfigId -> Option<Fault>) {
    |r.logs| >= |st.logs| + |due|
    && forall i :: 0 <= i < |due| ==> Decided(r.logs[|st.logs| + i], st.spus, r.spus, due[i], faults(due[i].id))
  }

  /** Entries decided before the last step stay decided: the last step touches only its own SPU. */
  lemma DecidedAfterLast(st: RunState, prev: RunState, r: RunState, pre: seq<ConfigRecord>, due: seq<ConfigRecord>,
                         faults: ConfigId -> Option<Fault>)
    requires due != [] && pre == due[..|due| - 1]
    requires |prev.logs| == |st.logs| + |pre| && |r.logs| == |prev.logs| + 1 && r.logs[..|prev.logs|] == prev.logs
    requires AllDecided(st, prev, pre, faults)
    requires Decided(r.logs[|prev.logs|], st.spus, r.spus, due[|pre|], faults(due[|pre|].id))
    requires forall i :: 0 <= i < |pre| ==> pre[i].spuId != due[|pre|].spuId
    requires forall s :: s in prev.spus && s != due[|pre|].spuId ==> s in r.spus && r.spus[s] == prev.spus[s]
    ensures AllDecided(st, r, due, faults)
  {
    forall i | 0 <= i < |due| ensures Decided(r.logs[|st.logs| + i], st.spus, r.spus, due[i], faults(due[i].id)) {
      if i < |pre| {
        PrefixAt(prev.logs, r.logs, |st.logs| + i);
        PrefixAt(pre, due, i);
      }
    }
  }

  function Unfaulted(faults: ConfigId -> Option<Fault>): ConfigRecord -> bool {
    (c: ConfigRecord) => faults(c.id).None?
  }

  /**
   * The counter grows by exactly the number of due configs whose processing did not throw,
   * executed and skipped alike.
   */
  lemma {:induction false} RunCount(st: RunState, due: seq<ConfigRecord>, faults: ConfigId -> Option<Fault>, clock: Time)
    requires SpusKnown(due, st.spus)
    ensures Run(st, due, faults, clock).count == st.count + CountWhere(due, Unfaulted(faults))
    decreases |due|
  {
    if due != [] {
      var n := |due| - 1;
      RunUnfold(st, due, faults, clock);
      RunCount(st, due[..n], faults, clock);
      StepEffect(Run(st, due[..n], faults, clock), due[n], faults(due[n].id), clock);
      assert due == due[..n] + [due[n]];
      CountWhereSnoc(due[..n], due[n], Unfaulted(faults));
    }
  }
}
