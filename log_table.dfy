/**
 * The log table as a value: the queries of `AutoDownLogRepository` (filter, newest first,
 * limit), its group-by count, its retention purge, and the row-level effect of writing a log.
 */
module LogTable {
  import opened Wrappers
  import opened Text
  import opened Seqs
  import opened LogAction
  import opened ConfigEntity
  import opened LogEntity
  import opened ConfigTable

  /** Default `limit` of the `find*` queries. */
  const DEFAULT_LIMIT: nat := 100
  /** Default `daysOld` of `cleanupOldLogs`. */
  const DEFAULT_LOG_RETENTION_DAYS: int := 90

  predicate UniqueLogIds(logs: seq<LogRecord>) {
    forall i, j :: 0 <= i < j < |logs| ==> logs[i].id != logs[j].id
  }

  function LogIdOf(l: LogRecord): LogId { l.id }

  /** The column a `find*` query filters on, with the value it must equal. */
  datatype LogKey = BySpu(spuId: SpuId) | ByConfig(configId: ConfigId) | ByAction(action: AutoDownLogAction)

  predicate Matches(key: LogKey, l: LogRecord) {
    match key
    case BySpu(s) => l.spuId == s
    case ByConfig(c) => l.configId == c
    case ByAction(a) => l.action == a
  }

  function MatchesKey(key: LogKey): LogRecord -> bool {
    l => Matches(key, l)
  }

  /** The `WHERE` part of a `find*` query. */
  function Select(logs: seq<LogRecord>, key: LogKey): (r: seq<LogRecord>)
    ensures forall l :: l in r <==> l in logs && Matches(key, l)
    ensures |r| <= |logs|
  {
    Filter(logs, MatchesKey(key))
  }

  /** `ORDER BY createTime DESC`. */
  predicate SortedDesc(s: seq<LogRecord>) {
    forall i, j :: 0 <= i < j < |s| ==> s[i].createTime >= s[j].createTime
  }

  function Insert(x: LogRecord, s: seq<LogRecord>): (r: seq<LogRecord>)
    requires SortedDesc(s)
    ensures SortedDesc(r)
    ensures multiset(r) == multiset(s) + multiset{x}
    ensures |r| == |s| + 1
    decreases |s|
  {
    if s == [] || x.createTime >= s[0].createTime then
      SortedCons(x, s);
      [x] + s
    else
      SortedTail(s);
      var rest := Insert(x, s[1..]);
      assert s == [s[0]] + s[1..];
      SortedCons(s[0], rest);
      [s[0]] + rest
  }

  lemma SortedTail(s: seq<LogRecord>)
    requires SortedDesc(s) && s != []
    ensures SortedDesc(s[1..])
    ensures |s| > 1 ==> s[0].createTime >= s[1].createTime
  {
    var t := s[1..];
    forall i, j | 0 <= i < j < |t| ensures t[i].createTime >= t[j].createTime {
      assert t[i] == s[i + 1] && t[j] == s[j + 1];
    }
  }

  /** A log no older than the head of a sorted sequence can be put in front of it. */
  lemma SortedCons(h: LogRecord, s: seq<LogRecord>)
    requires SortedDesc(s)
    requires s != [] ==> h.createTime >= s[0].createTime
    ensures SortedDesc([h] + s)
  {
    var r := [h] + s;
    forall i, j | 0 <= i < j < |r| ensures r[i].createTime >= r[j].createTime {
      if i == 0 && j > 1 {
        assert r[j] == s[j - 1];
      }
    }
  }

  /** A stable insertion sort, newest first. */
  function SortDesc(s: seq<LogRecord>): (r: seq<LogRecord>)
    ensures SortedDesc(r)
    ensures multiset(r) == multiset(s)
    ensures |r| == |s|
    decreases |s|
  {
    if s == [] then []
    else
      assert s == [s[0]] + s[1..];
      Insert(s[0], SortDesc(s[1..]))
  }

  function Min(a: nat, b: nat): nat {
    if a <= b then a else b
  }

  /**
   * `findBySpuId`, `findByConfigId`, `findByAction`: the matching logs, newest first, at most
   * `limit` of them; what is left out is never newer than what is returned, and everything
   * matching is returned when it fits within the limit.
   */
  function Query(logs: seq<LogRecord>, key: LogKey, limit: nat): (r: seq<LogRecord>)
    ensures |r| == Min(limit, |Select(logs, key)|)
    ensures forall l :: l in r ==> l in logs && Matches(key, l)
    ensures SortedDesc(r)
    ensures multiset(r) <= multiset(Select(logs, key))
    ensures forall l, m :: l in multiset(Select(logs, key)) - multiset(r) && m in r ==> m.createTime >= l.createTime
    ensures limit >= |Select(logs, key)| ==> multiset(r) == multiset(Select(logs, key))
    ensures (forall l :: l in logs ==> !Matches(key, l)) ==> r == []
  {
    var sel := Select(logs, key);
    var sorted := SortDesc(sel);
    var k := Min(limit, |sorted|);
    TakeNewest(sel, sorted, k);
    NoMatchNoSelection(logs, key);
    sorted[..k]
  }

  /**
   * The first `k` elements of a newest-first arrangement of `sel` are drawn from `sel` and are at
   * least as new as all the others.
   */
  lemma TakeNewest(sel: seq<LogRecord>, sorted: seq<LogRecord>, k: nat)
    requires SortedDesc(sorted) && multiset(sorted) == multiset(sel) && k <= |sorted|
    ensures multiset(sorted[..k]) <= multiset(sel)
    ensures forall l, m :: l in multiset(sel) - multiset(sorted[..k]) && m in sorted[..k] ==> m.createTime >= l.createTime
    ensures forall l :: l in sorted[..k] ==> l in sel
    ensures k == |sorted| ==> multiset(sorted[..k]) == multiset(sel)
    ensures SortedDesc(sorted[..k])
  {
    assert sorted == sorted[..k] + sorted[k..];
    assert multiset(sorted) == multiset(sorted[..k]) + multiset(sorted[k..]);
    forall l, m | l in multiset(sel) - multiset(sorted[..k]) && m in sorted[..k]
      ensures m.createTime >= l.createTime
    {
      assert l in multiset(sorted[k..]);
      assert l in sorted[k..];
      var j :| k <= j < |sorted| && sorted[j] == l;
      var i :| 0 <= i < k && sorted[i] == m;
    }
    forall l | l in sorted[..k] ensures l in sel {
      assert l in multiset(sorted);
    }
  }

  lemma NoMatchNoSelection(logs: seq<LogRecord>, key: LogKey)
    ensures (forall l :: l in logs ==> !Matches(key, l)) ==> Select(logs, key) == []
  {
    var sel := Select(logs, key);
    if sel != [] {
      assert sel[0] in sel;
    }
  }

  /** The number of logs with a given action. */
  function CountAction(logs: seq<LogRecord>, a: AutoDownLogAction): (n: nat)
    ensures n == |Select(logs, ByAction(a))|
    ensures n <= |logs|
  {
    CountWhere(logs, MatchesKey(ByAction(a)))
  }

  /** Every log has exactly one of the five actions, so the per-action counts add up to the total. */
  lemma {:induction false} ActionCountsSum(logs: seq<LogRecord>)
    ensures CountAction(logs, Scheduled) + CountAction(logs, Executed) + CountAction(logs, Skipped)
      + CountAction(logs, Error) + CountAction(logs, Canceled) == |logs|
    decreases |logs|
  {
    if logs != [] {
      ActionCountsSum(logs[1..]);
    }
  }

  /** One row of the `SELECT action, COUNT(id) ... GROUP BY action` result. */
  datatype ActionRow = ActionRow(action: AutoDownLogAction, count: nat)

  function RowAction(r: ActionRow): AutoDownLogAction { r.action }

  function NonEmpty(): ActionRow -> bool {
    (r: ActionRow) => r.count > 0
  }

  function AllRows(logs: seq<LogRecord>): seq<ActionRow> {
    [ActionRow(Scheduled, CountAction(logs, Scheduled)),
     ActionRow(Executed, CountAction(logs, Executed)),
     ActionRow(Skipped, CountAction(logs, Skipped)),
     ActionRow(Error, CountAction(logs, Error)),
     ActionRow(Canceled, CountAction(logs, Canceled))]
  }

  /**
   * The grouped rows: one per action that occurs, carrying its count; absent actions have no row
   * and no action has two (rows in declaration order; SQL leaves the order open).
   */
  function GroupByAction(logs: seq<LogRecord>): (rows: seq<ActionRow>)
    ensures forall r :: r in rows ==> r.count > 0 && r.count == CountAction(logs, r.action)
    ensures forall a :: CountAction(logs, a) > 0 <==> ActionRow(a, CountAction(logs, a)) in rows
    ensures forall i, j :: 0 <= i < j < |rows| ==> rows[i].action != rows[j].action
  {
    GroupedRows(logs);
    Filter(AllRows(logs), NonEmpty())
  }

  /** The facts `GroupByAction` promises, about the filtered rows of the five actions. */
  lemma GroupedRows(logs: seq<LogRecord>)
    ensures var rows := Filter(AllRows(logs), NonEmpty());
      && (forall r :: r in rows ==> r.count > 0 && r.count == CountAction(logs, r.action))
      && (forall a :: CountAction(logs, a) > 0 <==> ActionRow(a, CountAction(logs, a)) in rows)
      && (forall i, j :: 0 <= i < j < |rows| ==> rows[i].action != rows[j].action)
  {
    var all := AllRows(logs);
    FilterKeepsKeysDistinct(all, NonEmpty(), RowAction);
    forall a ensures ActionRow(a, CountAction(logs, a)) in all {
      AllRowsComplete(logs, a);
    }
    forall r | r in all ensures r.count == CountAction(logs, r.action) {
      var k :| 0 <= k < |all| && all[k] == r;
    }
  }

  lemma AllRowsComplete(logs: seq<LogRecord>, a: AutoDownLogAction)
    ensures ActionRow(a, CountAction(logs, a)) in AllRows(logs)
  {
    var all := AllRows(logs);
    match a
    case Scheduled => assert all[0] in all;
    case Executed => assert all[1] in all;
    case Skipped => assert all[2] in all;
    case Error => assert all[3] in all;
    case Canceled => assert all[4] in all;
  }

  /** The count stored under an action's value, or 0 when it has no entry. */
  function Stored(counts: map<string, int>, a: AutoDownLogAction): int {
    if a.Value() in counts then counts[a.Value()] else 0
  }

  /** The sum of the counts stored under the given actions' values. */
  function SumOver(cs: seq<AutoDownLogAction>, counts: map<string, int>): int {
    if cs == [] then 0 else Stored(counts, cs[0]) + SumOver(cs[1..], counts)
  }

  /** A map holding exactly the non-zero per-action counts sums to the number of logs. */
  lemma CountsSum(logs: seq<LogRecord>, counts: map<string, int>)
    requires forall a: AutoDownLogAction :: a.Value() in counts <==> CountAction(logs, a) > 0
    requires forall a: AutoDownLogAction :: a.Value() in counts ==> counts[a.Value()] == CountAction(logs, a)
    ensures SumOver(Cases(), counts) == |logs|
  {
    ActionCountsSum(logs);
    var cs := Cases();
    forall a ensures Stored(counts, a) == CountAction(logs, a) {
    }
    assert SumOver(cs[4..], counts) == Stored(counts, Canceled);
    assert SumOver(cs[3..], counts) == Stored(counts, Error) + SumOver(cs[4..], counts);
    assert SumOver(cs[2..], counts) == Stored(counts, Skipped) + SumOver(cs[3..], counts);
    assert SumOver(cs[1..], counts) == Stored(counts, Executed) + SumOver(cs[2..], counts);
    assert SumOver(cs, counts) == Stored(counts, Scheduled) + SumOver(cs[1..], counts);
  }

  /**
   * The map the `foreach` of `countByActions` builds from the grouped rows: row by row, the
   * backing string of the row's action to the row's count.
   */
  function CountsOf(rows: seq<ActionRow>): map<string, int>
    decreases |rows|
  {
    if rows == [] then map[]
    else
      var n := |rows| - 1;
      CountsOf(rows[..n])[rows[n].action.Value() := rows[n].count]
  }

  /** The `foreach` of `countByActions` over the grouped rows, building `CountsOf(rows)`. */
  method CollectCounts(rows: seq<ActionRow>) returns (counts: map<string, int>)
    ensures counts == CountsOf(rows)
  {
    counts := map[];
    var i := 0;
    while i < |rows|
      invariant 0 <= i <= |rows|
      invariant counts == CountsOf(rows[..i])
    {
      assert rows[..i + 1][..i] == rows[..i];
      counts := counts[rows[i].action.Value() := rows[i].count];
      i := i + 1;
    }
    assert rows[..|rows|] == rows;
  }

  /** Every key of the built map is the value of some row's action. */
  lemma {:induction false} CountsOfKeys(rows: seq<ActionRow>)
    ensures forall v :: v in CountsOf(rows) ==> exists k :: 0 <= k < |rows| && rows[k].action.Value() == v
    decreases |rows|
  {
    if rows != [] {
      var n := |rows| - 1;
      var pre := rows[..n];
      CountsOfKeys(pre);
      assert CountsOf(rows) == CountsOf(pre)[rows[n].action.Value() := rows[n].count];
      forall v | v in CountsOf(rows) ensures exists k :: 0 <= k < |rows| && rows[k].action.Value() == v {
        if v != rows[n].action.Value() {
          assert v in CountsOf(pre);
          var k :| 0 <= k < n && pre[k].action.Value() == v;
          assert rows[k] == pre[k];
        }
      }
    }
  }

  /** When no action has two rows, the built map holds every row's count under its action's value. */
  lemma {:induction false} CountsOfRows(rows: seq<ActionRow>)
    requires forall i, j :: 0 <= i < j < |rows| ==> rows[i].action != rows[j].action
    ensures forall k :: 0 <= k < |rows| ==>
      rows[k].action.Value() in CountsOf(rows) && CountsOf(rows)[rows[k].action.Value()] == rows[k].count
    decreases |rows|
  {
    if rows != [] {
      var n := |rows| - 1;
      var pre := rows[..n];
      forall i, j | 0 <= i < j < |pre| ensures pre[i].action != pre[j].action {
        assert pre[i] == rows[i] && pre[j] == rows[j];
      }
      CountsOfRows(pre);
      forall k | 0 <= k < n
        ensures rows[k].action.Value() in CountsOf(rows) && CountsOf(rows)[rows[k].action.Value()] == rows[k].count
      {
        assert pre[k] == rows[k];
        ValuesAndLabelsDistinct(rows[k].action, rows[n].action);
      }
    }
  }

  /** The built map has an entry exactly for each action that occurs, holding its number of logs. */
  lemma CountsPresent(logs: seq<LogRecord>)
    ensures var counts := CountsOf(GroupByAction(logs));
      && (forall a: AutoDownLogAction :: a.Value() in counts <==> CountAction(logs, a) > 0)
      && (forall a: AutoDownLogAction :: a.Value() in counts ==> counts[a.Value()] == CountAction(logs, a))
  {
    CountsFromRows(logs);
    var rows := GroupByAction(logs);
    var counts := CountsOf(rows);
    CountsOfRows(rows);
    forall a: AutoDownLogAction | CountAction(logs, a) > 0 ensures a.Value() in counts {
      var k :| 0 <= k < |rows| && rows[k] == ActionRow(a, CountAction(logs, a));
    }
  }

  /** Every entry of the built map is the count of an action that occurs. */
  lemma CountsFromRows(logs: seq<LogRecord>)
    ensures var counts := CountsOf(GroupByAction(logs));
      forall a: AutoDownLogAction :: a.Value() in counts ==> CountAction(logs, a) > 0 && counts[a.Value()] == CountAction(logs, a)
  {
    var rows := GroupByAction(logs);
    var counts := CountsOf(rows);
    CountsOfKeys(rows);
    CountsOfRows(rows);
    forall a: AutoDownLogAction | a.Value() in counts
      ensures CountAction(logs, a) > 0 && counts[a.Value()] == CountAction(logs, a)
    {
      var k :| 0 <= k < |rows| && rows[k].action.Value() == a.Value();
      ValuesAndLabelsDistinct(a, rows[k].action);
      assert rows[k] in rows;
    }
  }

  /**
   * The result of `countByActions`: an entry exactly for each action that occurs, holding its
   * number of logs, keyed by backing strings only; the entries add up to the number of logs and
   * an empty table gives an empty map.
   */
  lemma ActionCounts(logs: seq<LogRecord>)
    ensures var counts := CountsOf(GroupByAction(logs));
      && (forall a: AutoDownLogAction :: a.Value() in counts <==> CountAction(logs, a) > 0)
      && (forall a: AutoDownLogAction :: a.Value() in counts ==> counts[a.Value()] == CountAction(logs, a))
      && counts.Keys <= AllValues()
      && SumOver(Cases(), counts) == |logs|
      && (logs == [] ==> counts == map[])
  {
    CountsPresent(logs);
    CountsSum(logs, CountsOf(GroupByAction(logs)));
    CountsKeysValid(logs);
    NoLogsNoRows(logs);
  }

  /** Every key of the built map is the backing string of an action. */
  lemma CountsKeysValid(logs: seq<LogRecord>)
    ensures CountsOf(GroupByAction(logs)).Keys <= AllValues()
  {
    var rows := GroupByAction(logs);
    CountsOfKeys(rows);
    forall v | v in CountsOf(rows) ensures v in AllValues() {
      var k :| 0 <= k < |rows| && rows[k].action.Value() == v;
    }
  }

  /** An empty table groups into no rows (a row needs a log with its action). */
  lemma NoLogsNoRows(logs: seq<LogRecord>)
    ensures logs == [] ==> GroupByAction(logs) == [] && CountsOf(GroupByAction(logs)) == map[]
  {
    var rows := GroupByAction(logs);
    if rows != [] {
      assert rows[0] in rows;
    }
  }

  /** The condition under which `cleanupOldLogs` deletes a row. */
  predicate IsStale(l: LogRecord, cutoff: Time) {
    l.createTime < cutoff
  }

  function FreshAt(cutoff: Time): LogRecord -> bool {
    l => !IsStale(l, cutoff)
  }

  function StaleAt(cutoff: Time): LogRecord -> bool {
    l => IsStale(l, cutoff)
  }

  /** The table after `cleanupOldLogs`: exactly the logs created at or after the cutoff survive. */
  function RecentLogs(logs: seq<LogRecord>, cutoff: Time): (r: seq<LogRecord>)
    ensures forall l :: l in r <==> l in logs && l.createTime >= cutoff
    ensures UniqueLogIds(logs) ==> UniqueLogIds(r)
  {
    FilterKeepsLogIds(logs, FreshAt(cutoff));
    Filter(logs, FreshAt(cutoff))
  }

  /** The number `cleanupOldLogs` reports: the logs the purge removes. */
  function CountStale(logs: seq<LogRecord>, cutoff: Time): (n: nat)
    ensures n + |RecentLogs(logs, cutoff)| == |logs|
    ensures multiset(RecentLogs(logs, cutoff)) + multiset(Filter(logs, StaleAt(cutoff))) == multiset(logs)
  {
    FilterPartition(logs, FreshAt(cutoff), StaleAt(cutoff));
    CountWhere(logs, StaleAt(cutoff))
  }

  lemma FilterKeepsLogIds(logs: seq<LogRecord>, p: LogRecord -> bool)
    ensures UniqueLogIds(logs) ==> UniqueLogIds(Filter(logs, p))
  {
    if UniqueLogIds(logs) {
      FilterKeepsKeysDistinct(logs, p, LogIdOf);
    }
  }

  function OutsideConfigs(ids: set<ConfigId>): LogRecord -> bool {
    (l: LogRecord) => l.configId !in ids
  }

  /** `ON DELETE CASCADE`: deleting configs deletes exactly the logs that reference them. */
  function CascadeDelete(logs: seq<LogRecord>, removed: set<ConfigId>): (r: seq<LogRecord>)
    ensures forall l :: l in r <==> l in logs && l.configId !in removed
    ensures UniqueLogIds(logs) ==> UniqueLogIds(r)
    ensures removed == {} ==> r == logs
  {
    FilterKeepsLogIds(logs, OutsideConfigs(removed));
    if removed == {} then FilterAll(logs, OutsideConfigs(removed)); Filter(logs, OutsideConfigs(removed))
    else Filter(logs, OutsideConfigs(removed))
  }

  /** A filter that every element passes changes nothing. */
  lemma {:induction false} FilterAll<T(!new)>(s: seq<T>, p: T -> bool)
    requires forall x :: x in s ==> p(x)
    ensures Filter(s, p) == s
    decreases |s|
  {
    if s != [] {
      FilterAll(s[1..], p);
      assert s == [s[0]] + s[1..];
    }
  }

  /** The persisted fields of an `AutoDownLog` entity at flush time. */
  datatype LogDraft = LogDraft(
    spuId: Option<SpuId>,
    config: Option<ConfigId>,
    action: Option<AutoDownLogAction>,
    description: Option<string>,
    context: Option<Context>)

  /**
   * `persist` + `flush` of a new log: one new row with a fresh id and the flush time as its
   * creation time, storing every field exactly as drafted, or the constraint the flush violates
   * (`spuId`, `config` and `action` are NOT NULL; `config` must reference an existing config).
   */
  function NewLog(nextId: LogId, configs: set<ConfigId>, d: LogDraft, clock: Time): (r: Result<LogRecord, PersistError>)
    ensures r.Failure? <==> d.spuId.None? || d.config.None? || d.action.None? || d.config.value !in configs
    ensures r.Success? ==>
      r.value.id == nextId && Some(r.value.spuId) == d.spuId && Some(r.value.configId) == d.config
      && Some(r.value.action) == d.action && r.value.description == d.description
      && r.value.context == d.context && r.value.createTime == clock
  {
    if d.spuId.None? || d.config.None? || d.action.None? then Failure(NotNullViolation)
    else if d.config.value !in configs then Failure(ForeignKeyViolation)
    else Success(LogRecord(nextId, d.spuId.value, d.config.value, d.action.value, d.description, d.context, clock))
  }

  function OtherLogIds(id: LogId): LogRecord -> bool {
    (l: LogRecord) => l.id != id
  }

  function HasLogId(id: LogId): LogRecord -> bool {
    (l: LogRecord) => l.id == id
  }

  /** With unique ids, at most one log carries a given id. */
  lemma {:induction false} AtMostOneWithId(logs: seq<LogRecord>, id: LogId)
    requires UniqueLogIds(logs)
    ensures |Filter(logs, HasLogId(id))| <= 1
    decreases |logs|
  {
    if logs != [] {
      var rest := logs[1..];
      assert UniqueLogIds(rest) by {
        forall i, j | 0 <= i < j < |rest| ensures rest[i].id != rest[j].id {
          assert rest[i] == logs[i + 1] && rest[j] == logs[j + 1];
        }
      }
      AtMostOneWithId(rest, id);
      assert logs == [logs[0]] + rest;
      FilterCons(logs[0], rest, HasLogId(id));
      if logs[0].id == id {
        forall y | y in rest ensures !HasLogId(id)(y) {
          var k :| 0 <= k < |rest| && rest[k] == y;
          assert logs[k + 1] == y;
        }
        FilterNone(rest, HasLogId(id));
      }
    }
  }

  /** The table after removing the log with id `id` (what `remove` + `flush` deletes). */
  function RemoveLogId(logs: seq<LogRecord>, id: LogId): (r: seq<LogRecord>)
    ensures forall l :: l in r <==> l in logs && l.id != id
    ensures UniqueLogIds(logs) ==> UniqueLogIds(r)
    ensures |r| <= |logs|
  {
    FilterKeepsLogIds(logs, OtherLogIds(id));
    Filter(logs, OtherLogIds(id))
  }

  function LogIds(logs: seq<LogRecord>): set<LogId> {
    set l | l in logs :: l.id
  }

  /** Appending a row with an id above all existing ids keeps ids unique. */
  lemma AppendKeepsUnique(logs: seq<LogRecord>, l: LogRecord)
    requires UniqueLogIds(logs)
    requires forall m :: m in logs ==> m.id < l.id
    ensures UniqueLogIds(logs + [l])
  {
    var s := logs + [l];
    forall i, j | 0 <= i < j < |s| ensures s[i].id != s[j].id {
      if j == |logs| {
        assert s[i] in logs;
      }
    }
  }
}
