/** The fixed catalog of condition types, the part of a condition the registry
    can observe, and the factory that turns a class object into a condition. */
module Conditions {

  datatype Option<+T> = None | Some(value: T)

  /** The seven concrete Condition classes the registry knows about. */
  datatype CondType =
    | AirplaneMode
    | Hotspot
    | Dnd
    | BatterySaver
    | CellularData
    | BackgroundData
    | WorkMode

  /** The order in which catalog completion looks for missing types. */
  const CATALOG: seq<CondType> :=
    [AirplaneMode, Hotspot, Dnd, BatterySaver, CellularData, BackgroundData, WorkMode]

  /** The simple class name (`getClass().getSimpleName()`) of each type. */
  function SimpleName(t: CondType): string
  {
    match t
    case AirplaneMode => "AirplaneModeCondition"
    case Hotspot => "HotspotCondition"
    case Dnd => "DndCondition"
    case BatterySaver => "BatterySaverCondition"
    case CellularData => "CellularDataCondition"
    case BackgroundData => "BackgroundDataCondition"
    case WorkMode => "WorkModeCondition"
  }

  /** A primitive value held in a persistable bundle. */
  datatype Value = LongValue(l: int) | BoolValue(b: bool) | StringValue(s: string)

  /** A persistable bundle: typed values under string keys. */
  type Bundle = map<string, Value>

  /** What the registry observes of a condition: `getLastChange()`, `shouldShow()`,
      the boolean `saveState` returns and the bundle it fills in. */
  datatype State = State(lastChange: int, shown: bool, persist: bool, bundle: Bundle)

  datatype Condition = Condition(kind: CondType, state: State)

  /** The state of a condition that was just constructed. */
  const DEFAULT_STATE: State := State(0, false, false, map[])

  function DefaultCondition(t: CondType): Condition
  {
    Condition(t, DEFAULT_STATE)
  }

  /** A class object: one of the catalog's classes, or any other class the
      runtime can load under the given fully qualified name. */
  datatype ClassRef = CatalogClass(t: CondType) | OtherClass(name: string)

  /** createCondition: a fresh condition of exactly the requested catalog type;
      any other class is the fatal "Unexpected Condition" error (None). */
  function CreateCondition(clz: ClassRef): (r: Option<Condition>)
    ensures r.Some? <==> clz.CatalogClass?
    ensures r.Some? ==> r.value.kind == clz.t && r.value.state == DEFAULT_STATE
  {
    match clz
    case CatalogClass(t) => Some(DefaultCondition(t))
    case OtherClass(_) => None
  }

  predicate HasKind(s: seq<Condition>, t: CondType)
  {
    exists c :: c in s && c.kind == t
  }

  /** No two entries of the list are of the same type. */
  predicate DistinctKinds(s: seq<Condition>)
  {
    forall i, j :: 0 <= i < j < |s| ==> s[i].kind != s[j].kind
  }

  /** Every catalog type has an entry in the list. */
  predicate Complete(s: seq<Condition>)
  {
    forall t :: HasKind(s, t)
  }

  lemma CatalogListsEveryTypeOnce()
    ensures forall t :: t in CATALOG
    ensures forall i, j :: 0 <= i < j < |CATALOG| ==> CATALOG[i] != CATALOG[j]
  {
    forall t ensures t in CATALOG {
      match t
      case AirplaneMode => assert CATALOG[0] == t;
      case Hotspot => assert CATALOG[1] == t;
      case Dnd => assert CATALOG[2] == t;
      case BatterySaver => assert CATALOG[3] == t;
      case CellularData => assert CATALOG[4] == t;
      case BackgroundData => assert CATALOG[5] == t;
      case WorkMode => assert CATALOG[6] == t;
    }
  }

  /** Distinct types have distinct simple class names. */
  lemma SimpleNameInjective(a: CondType, b: CondType)
    ensures SimpleName(a) == SimpleName(b) ==> a == b
  {
  }

  lemma HasKindAppend(a: seq<Condition>, b: seq<Condition>, t: CondType)
    ensures HasKind(a + b, t) <==> HasKind(a, t) || HasKind(b, t)
  {
    if HasKind(a + b, t) {
      var c :| c in a + b && c.kind == t;
      assert c in a || c in b;
    }
    if HasKind(a, t) {
      var c :| c in a && c.kind == t;
      assert c in a + b;
    }
    if HasKind(b, t) {
      var c :| c in b && c.kind == t;
      assert c in a + b;
    }
  }

  /** Two lists holding the same entries have the same types. */
  lemma HasKindPermutation(a: seq<Condition>, b: seq<Condition>)
    requires multiset(a) == multiset(b)
    ensures forall t :: HasKind(a, t) <==> HasKind(b, t)
  {
    forall t ensures HasKind(a, t) <==> HasKind(b, t) {
      if HasKind(a, t) {
        var c :| c in a && c.kind == t;
        assert c in multiset(a);
      }
      if HasKind(b, t) {
        var c :| c in b && c.kind == t;
        assert c in multiset(b);
      }
    }
  }

  /** Two lists with the same type at every index have the same types. */
  lemma SameKindsSameTypes(a: seq<Condition>, b: seq<Condition>)
    requires |a| == |b|
    requires forall i :: 0 <= i < |a| ==> a[i].kind == b[i].kind
    ensures forall t :: HasKind(a, t) <==> HasKind(b, t)
    ensures DistinctKinds(a) <==> DistinctKinds(b)
  {
    forall t ensures HasKind(a, t) <==> HasKind(b, t) {
      if HasKind(a, t) {
        var c :| c in a && c.kind == t;
        var i :| 0 <= i < |a| && a[i] == c;
        assert b[i] in b;
      }
      if HasKind(b, t) {
        var c :| c in b && c.kind == t;
        var i :| 0 <= i < |b| && b[i] == c;
        assert a[i] in a;
      }
    }
  }

  lemma DistinctSnoc(a: seq<Condition>, c: Condition)
    ensures DistinctKinds(a + [c]) <==> DistinctKinds(a) && !HasKind(a, c.kind)
  {
    var s := a + [c];
    if DistinctKinds(s) {
      forall i, j | 0 <= i < j < |a| ensures a[i].kind != a[j].kind {
        assert a[i] == s[i] && a[j] == s[j];
      }
      forall d | d in a ensures d.kind != c.kind {
        var i :| 0 <= i < |a| && a[i] == d;
        assert s[i] == d && s[|a|] == c;
      }
    }
    if DistinctKinds(a) && !HasKind(a, c.kind) {
      forall i, j | 0 <= i < j < |s| ensures s[i].kind != s[j].kind {
        assert s[i] == a[i];
        if j == |a| {
          assert a[i] in a;
        } else {
          assert s[j] == a[j];
        }
      }
    }
  }

  lemma DistinctCons(c: Condition, a: seq<Condition>)
    ensures DistinctKinds([c] + a) <==> DistinctKinds(a) && !HasKind(a, c.kind)
  {
    var s := [c] + a;
    if DistinctKinds(s) {
      forall i, j | 0 <= i < j < |a| ensures a[i].kind != a[j].kind {
        assert a[i] == s[i + 1] && a[j] == s[j + 1];
      }
      forall d | d in a ensures d.kind != c.kind {
        var i :| 0 <= i < |a| && a[i] == d;
        assert s[i + 1] == d && s[0] == c;
      }
    }
    if DistinctKinds(a) && !HasKind(a, c.kind) {
      forall i, j | 0 <= i < j < |s| ensures s[i].kind != s[j].kind {
        assert s[j] == a[j - 1];
        if i == 0 {
          assert a[j - 1] in a;
        } else {
          assert s[i] == a[i - 1];
        }
      }
    }
  }
}
