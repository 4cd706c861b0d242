/** The closed set of audit-log actions (`AutoDownLogAction`, a string-backed PHP enum). */
module LogAction {
  import opened Wrappers

  datatype AutoDownLogAction = Scheduled | Executed | Skipped | Error | Canceled {

    /** The backing string stored in the `action` column. */
    function Value(): string {
      match this
      case Scheduled => "scheduled"
      case Executed => "executed"
      case Skipped => "skipped"
      case Error => "error"
      case Canceled => "canceled"
    }

    /** The display label; total over the five cases. */
    function Label(): string {
      match this
      case Scheduled => "已安排"
      case Executed => "已执行"
      case Skipped => "已跳过"
      case Error => "执行出错"
      case Canceled => "已取消"
    }

    /** `getItem()`: the case as a value/label pair. */
    function GetItem(): (item: Item)
      ensures item.value == Value() && item.labelText == Label()
      ensures FromValue(item.value) == Some(this)
    {
      FromValueOfValue(this);
      Item(Value(), Label())
    }

    /** `toSelectItem()`: the same pair as `getItem()`. */
    function ToSelectItem(): (item: Item)
      ensures item.value == Value() && item.labelText == Label()
      ensures FromValue(item.value) == Some(this)
    {
      GetItem()
    }
  }

  /** The `array{value: string, label: string}` returned by `getItem()`. */
  datatype Item = Item(value: string, labelText: string)

  /** `cases()`, in declaration order. */
  function Cases(): (cs: seq<AutoDownLogAction>)
    ensures |cs| == 5
  {
    [Scheduled, Executed, Skipped, Error, Canceled]
  }

  /** `cases()` lists every case. */
  lemma CasesComplete(a: AutoDownLogAction)
    ensures exists j :: 0 <= j < |Cases()| && Cases()[j] == a
  {
    match a
    case Scheduled => assert Cases()[0] == a;
    case Executed => assert Cases()[1] == a;
    case Skipped => assert Cases()[2] == a;
    case Error => assert Cases()[3] == a;
    case Canceled => assert Cases()[4] == a;
  }

  /** `tryFrom()`: the case whose backing string is `v`, if any (how a stored value is read back). */
  function FromValue(v: string): Option<AutoDownLogAction> {
    if v == "scheduled" then Some(Scheduled)
    else if v == "executed" then Some(Executed)
    else if v == "skipped" then Some(Skipped)
    else if v == "error" then Some(Error)
    else if v == "canceled" then Some(Canceled)
    else None
  }

  /** Reading back a stored value gives the case that was stored. */
  lemma FromValueOfValue(a: AutoDownLogAction)
    ensures FromValue(a.Value()) == Some(a)
  {
    match a
    case Scheduled =>
    case Executed =>
      assert "executed"[0] != "scheduled"[0];
    case Skipped =>
      assert "skipped"[1] != "scheduled"[1];
    case Error =>
      assert "error"[0] != "scheduled"[0];
    case Canceled =>
      assert "canceled"[0] != "scheduled"[0];
  }

  /** `tryFrom` succeeds exactly on the five backing strings, and then inverts `Value`. */
  lemma ValueOfFromValue(v: string)
    ensures FromValue(v).Some? ==> FromValue(v).value.Value() == v
    ensures FromValue(v).None? <==> forall a: AutoDownLogAction :: a.Value() != v
  {
    if FromValue(v).None? {
      forall a: AutoDownLogAction ensures a.Value() != v {
        FromValueOfValue(a);
      }
    }
  }

  /** Distinct cases have distinct backing strings and distinct labels. */
  lemma ValuesAndLabelsDistinct(a: AutoDownLogAction, b: AutoDownLogAction)
    ensures a != b ==> a.Value() != b.Value()
    ensures a != b ==> a.Label() != b.Label()
  {
    FromValueOfValue(a);
    FromValueOfValue(b);
    assert "已安排"[1] != "已执行"[1] && "已安排"[1] != "已跳过"[1] && "已安排"[1] != "已取消"[1];
    assert "已执行"[1] != "已跳过"[1] && "已执行"[1] != "已取消"[1] && "已跳过"[1] != "已取消"[1];
    assert |"执行出错"| == 4;
  }

  /** The backing strings of all cases. */
  function AllValues(): (vs: set<string>)
    ensures forall a: AutoDownLogAction :: a.Value() in vs
  {
    forall a: AutoDownLogAction ensures a.Value() in set j | 0 <= j < |Cases()| :: Cases()[j].Value() {
      CasesComplete(a);
    }
    set j | 0 <= j < |Cases()| :: Cases()[j].Value()
  }

  lemma CaseValuesDistinct(i: nat, j: nat)
    requires i < j < |Cases()|
    ensures Cases()[i].Value() != Cases()[j].Value()
  {
    ValuesAndLabelsDistinct(Cases()[i], Cases()[j]);
  }

  /**
   * `getItems()`: fills a value-to-label map by a loop over `cases()`.
   * One entry per case, keyed by its backing string and mapped to its label.
   */
  method GetItems() returns (items: map<string, string>)
    ensures items.Keys == AllValues()
    ensures forall a: AutoDownLogAction :: items[a.Value()] == a.Label()
    ensures |items| == 5
  {
    var cases := Cases();
    items := map[];
    var i := 0;
    while i < |cases|
      invariant 0 <= i <= |cases|
      invariant items.Keys == set j | 0 <= j < i :: cases[j].Value()
      invariant forall j :: 0 <= j < i ==> items[cases[j].Value()] == cases[j].Label()
      invariant |items| == i
    {
      assert cases[i].Value() !in items by {
        forall j | 0 <= j < i ensures cases[j].Value() != cases[i].Value() {
          CaseValuesDistinct(j, i);
        }
      }
      items := items[cases[i].Value() := cases[i].Label()];
      i := i + 1;
    }
    forall a: AutoDownLogAction ensures a.Value() in items && items[a.Value()] == a.Label() {
      CasesComplete(a);
    }
  }
}
