/** The condition registry: ConditionManager with its list of conditions, its
    listeners and its state file, and the catalog completion it runs when it
    is constructed. */
module Registry {
  import opened Conditions
  import opened Sequences
  import opened Ordering
  import opened Persistence

  /** Identity of a registered ConditionListener. */
  type Listener = nat

  /** `getCondition` over a list: the first entry of type `t`, if any. */
  function Lookup(s: seq<Condition>, t: CondType): Option<Condition>
  {
    if s == [] then None
    else if s[0].kind == t then Some(s[0])
    else Lookup(s[1..], t)
  }

  /** Lookup finds nothing exactly when no entry has the type, and otherwise
      the entry at the first index holding that type. */
  lemma {:induction false} LookupFirst(s: seq<Condition>, t: CondType)
    ensures Lookup(s, t).None? <==> !HasKind(s, t)
    ensures Lookup(s, t).Some? ==>
              exists i :: 0 <= i < |s| && s[i] == Lookup(s, t).value && s[i].kind == t
                          && forall j :: 0 <= j < i ==> s[j].kind != t
  {
    if s != [] && s[0].kind != t {
      var r := Lookup(s[1..], t);
      LookupFirst(s[1..], t);
      assert s == [s[0]] + s[1..];
      HasKindAppend([s[0]], s[1..], t);
      if r.Some? {
        var k :| 0 <= k < |s[1..]| && s[1..][k] == r.value && s[1..][k].kind == t
                 && forall j :: 0 <= j < k ==> s[1..][j].kind != t;
        assert s[k + 1] == r.value;
        forall j | 0 <= j < k + 1 ensures s[j].kind != t {
          if j > 0 {
            assert s[j] == s[1..][j - 1];
          }
        }
      }
    } else if s != [] {
      assert s[0] in s;
    }
  }

  /** On a list holding every catalog type, lookup finds a condition of any
      type asked for. */
  lemma CompleteLookupFinds(s: seq<Condition>, t: CondType)
    requires Complete(s)
    ensures Lookup(s, t).Some? && Lookup(s, t).value.kind == t
  {
    LookupFirst(s, t);
  }

  /** `addIfMissing` over a list: a default condition of type `t` is appended
      when the list has none. */
  function AddedIfMissing(s: seq<Condition>, t: CondType): seq<Condition>
  {
    if Lookup(s, t).None? then s + [CreateCondition(CatalogClass(t)).value] else s
  }

  /** `addIfMissing` keeps the list as a prefix, adds exactly one condition
      exactly when the type was missing, afterwards has the type, loses no
      other type and never duplicates one. */
  lemma AddedIfMissingFacts(s: seq<Condition>, t: CondType)
    ensures var r := AddedIfMissing(s, t);
            HasKind(r, t)
            && (forall u :: HasKind(r, u) <==> HasKind(s, u) || u == t)
            && |s| <= |r| && r[..|s|] == s
            && (|r| == |s| <==> HasKind(s, t))
            && (|r| == |s| + 1 ==> r[|s|] == DefaultCondition(t))
            && (DistinctKinds(s) ==> DistinctKinds(r))
  {
    LookupFirst(s, t);
    if !HasKind(s, t) {
      var d := DefaultCondition(t);
      forall u ensures HasKind(s + [d], u) <==> HasKind(s, u) || u == t {
        HasKindAppend(s, [d], u);
        assert d in [d];
      }
      DistinctSnoc(s, d);
      assert (s + [d])[..|s|] == s;
    }
  }

  /** The seven `addIfMissing` calls of catalog completion, for the types `ts`
      in order. */
  function AddAllMissing(s: seq<Condition>, ts: seq<CondType>): seq<Condition>
    decreases |ts|
  {
    if ts == [] then s
    else AddedIfMissing(AddAllMissing(s, ts[..|ts| - 1]), ts[|ts| - 1])
  }

  lemma AddAllStep(s: seq<Condition>, ts: seq<CondType>, k: nat)
    requires k < |ts|
    ensures AddAllMissing(s, ts[..k + 1]) == AddedIfMissing(AddAllMissing(s, ts[..k]), ts[k])
  {
    assert ts[..k + 1][..k] == ts[..k];
  }

  /** The seven calls written out, in catalog order. */
  lemma AddAllCatalog(s: seq<Condition>)
    ensures AddAllMissing(s, CATALOG)
         == AddedIfMissing(AddedIfMissing(AddedIfMissing(AddedIfMissing(AddedIfMissing(AddedIfMissing(
              AddedIfMissing(s, AirplaneMode), Hotspot), Dnd), BatterySaver), CellularData), BackgroundData), WorkMode)
  {
    assert CATALOG[..0] == [];
    AddAllStep(s, CATALOG, 0);
    AddAllStep(s, CATALOG, 1);
    AddAllStep(s, CATALOG, 2);
    AddAllStep(s, CATALOG, 3);
    AddAllStep(s, CATALOG, 4);
    AddAllStep(s, CATALOG, 5);
    AddAllStep(s, CATALOG, 6);
    assert CATALOG[..7] == CATALOG;
  }

  /** The default conditions completion creates: one per type of `ts` that
      `s` lacks, in the order of `ts`. */
  function Defaults(s: seq<Condition>, ts: seq<CondType>): seq<Condition>
    decreases |ts|
  {
    if ts == [] then []
    else Defaults(s, ts[..|ts| - 1])
         + (if HasKind(s, ts[|ts| - 1]) then [] else [DefaultCondition(ts[|ts| - 1])])
  }

  lemma {:induction false} DefaultsKinds(s: seq<Condition>, ts: seq<CondType>, u: CondType)
    ensures HasKind(Defaults(s, ts), u) <==> u in ts && !HasKind(s, u)
    decreases |ts|
  {
    if ts == [] {
    } else {
      var init, last := ts[..|ts| - 1], ts[|ts| - 1];
      assert ts == init + [last];
      DefaultsKinds(s, init, u);
      var extra := if HasKind(s, last) then [] else [DefaultCondition(last)];
      HasKindAppend(Defaults(s, init), extra, u);
      if !HasKind(s, last) {
        assert DefaultCondition(last) in extra;
      }
    }
  }

  /** With no type listed twice, the `addIfMissing` calls append exactly the
      defaults for the missing types, in catalog order, and keep the list. */
  lemma {:induction false} AddAllIsAppendDefaults(s: seq<Condition>, ts: seq<CondType>)
    requires forall i, j :: 0 <= i < j < |ts| ==> ts[i] != ts[j]
    ensures AddAllMissing(s, ts) == s + Defaults(s, ts)
    decreases |ts|
  {
    if ts != [] {
      var init, last := ts[..|ts| - 1], ts[|ts| - 1];
      AddAllIsAppendDefaults(s, init);
      AddedIfMissingFacts(AddAllMissing(s, init), last);
      var d := Defaults(s, init);
      assert last !in init by {
        forall i | 0 <= i < |init| ensures init[i] != last {
          assert init[i] == ts[i];
        }
      }
      DefaultsKinds(s, init, last);
      HasKindAppend(s, d, last);
      assert HasKind(s + d, last) <==> HasKind(s, last);
      if HasKind(s, last) {
        assert Defaults(s, ts) == d + [];
      } else {
        assert Defaults(s, ts) == d + [DefaultCondition(last)];
      }
    }
  }

  /** After the `addIfMissing` calls every listed type is present, and no type
      present before is lost. */
  lemma {:induction false} AddAllCovers(s: seq<Condition>, ts: seq<CondType>)
    ensures forall u :: HasKind(AddAllMissing(s, ts), u) <==> HasKind(s, u) || u in ts
    decreases |ts|
  {
    if ts != [] {
      var init, last := ts[..|ts| - 1], ts[|ts| - 1];
      assert ts == init + [last];
      AddAllCovers(s, init);
      AddedIfMissingFacts(AddAllMissing(s, init), last);
    }
  }

  lemma {:induction false} AddAllKeepsDistinct(s: seq<Condition>, ts: seq<CondType>)
    requires DistinctKinds(s)
    ensures DistinctKinds(AddAllMissing(s, ts))
    decreases |ts|
  {
    if ts != [] {
      AddAllKeepsDistinct(s, ts[..|ts| - 1]);
      AddedIfMissingFacts(AddAllMissing(s, ts[..|ts| - 1]), ts[|ts| - 1]);
    }
  }

  /** On a list that has every listed type, the `addIfMissing` calls add nothing. */
  lemma {:induction false} AddAllOnComplete(s: seq<Condition>, ts: seq<CondType>)
    requires forall t :: t in ts ==> HasKind(s, t)
    ensures AddAllMissing(s, ts) == s
    decreases |ts|
  {
    if ts != [] {
      var init, last := ts[..|ts| - 1], ts[|ts| - 1];
      assert ts == init + [last];
      AddAllOnComplete(s, init);
      AddedIfMissingFacts(s, last);
    }
  }

  /** `addMissingConditions`: add the missing catalog types, then sort. */
  function CompleteCatalog(s: seq<Condition>): seq<Condition>
  {
    SortByLastChange(AddAllMissing(s, CATALOG))
  }

  /** After completion every one of the seven catalog types is present. */
  lemma CompletionCoversCatalog(s: seq<Condition>)
    ensures Complete(CompleteCatalog(s))
  {
    var added := AddAllMissing(s, CATALOG);
    AddAllCovers(s, CATALOG);
    CatalogListsEveryTypeOnce();
    SortIsSortedPermutation(added);
    HasKindPermutation(added, CompleteCatalog(s));
  }

  /** Completion yields the loaded list plus the new defaults, reordered into
      ascending order of last change. */
  lemma CompletionIsSortedPermutation(s: seq<Condition>)
    ensures Sorted(CompleteCatalog(s))
    ensures multiset(CompleteCatalog(s)) == multiset(s + Defaults(s, CATALOG))
  {
    CatalogListsEveryTypeOnce();
    AddAllIsAppendDefaults(s, CATALOG);
    SortIsSortedPermutation(AddAllMissing(s, CATALOG));
  }

  /** Completion never creates a second condition of a type. */
  lemma CompletionKeepsTypesUnique(s: seq<Condition>)
    requires DistinctKinds(s)
    ensures DistinctKinds(CompleteCatalog(s))
  {
    AddAllKeepsDistinct(s, CATALOG);
    SortKeepsDistinct(AddAllMissing(s, CATALOG));
  }

  /** Completion changes nothing on a complete list in sorted order. */
  lemma CompletionOfCompleteSorted(s: seq<Condition>)
    requires Complete(s) && Sorted(s)
    ensures CompleteCatalog(s) == s
  {
    AddAllOnComplete(s, CATALOG);
    SortOfSortedIsIdentity(s);
  }

  /** Running completion a second time changes nothing. */
  lemma CompletionIdempotent(s: seq<Condition>)
    ensures CompleteCatalog(CompleteCatalog(s)) == CompleteCatalog(s)
  {
    CompletionCoversCatalog(s);
    CompletionIsSortedPermutation(s);
    CompletionOfCompleteSorted(CompleteCatalog(s));
  }

  /** Constructing from a file that was saved from a list without duplicate
      types succeeds, and leaves every catalog type exactly once. */
  lemma ReloadOfSavedList(s: seq<Condition>, loadable: set<string>, restore: Restorer)
    requires DistinctKinds(s)
    ensures ReadEntries(SaveSelection(s), loadable, restore).Loaded?
    ensures var loaded := CompleteCatalog(InitialConditions(Some(SaveSelection(s)), loadable, restore));
            Complete(loaded) && DistinctKinds(loaded)
  {
    SavedFileReadsDistinct(s, loadable, restore);
    var initial := InitialConditions(Some(SaveSelection(s)), loadable, restore);
    CompletionCoversCatalog(initial);
    CompletionKeepsTypesUnique(initial);
  }

  predicate IsShown(c: Condition)
  {
    c.state.shown
  }

  /** The conditions present before catalog completion: those read from the
      state file, or none when there is no file. */
  function InitialConditions(file: Option<seq<Entry>>, loadable: set<string>, restore: Restorer): seq<Condition>
  {
    if file.None? then []
    else match ReadEntries(file.value, loadable, restore)
      case Loaded(cs) => cs
      case Fatal(_) => []
  }

  class ConditionManager {
    /** `mConditions`, in the order `getConditions()` returns them. */
    var conditions: seq<Condition>
    /** `mListeners`, in registration order. */
    var listeners: seq<Listener>
    /** The state file's condition elements; None while there is no file. */
    var xmlFile: Option<seq<Entry>>

    /** Every catalog type has a condition. */
    ghost predicate Valid()
      reads this
    {
      Complete(conditions)
    }

    /** The field initialisation of the constructor. */
    constructor (file: Option<seq<Entry>>)
      ensures conditions == [] && listeners == [] && xmlFile == file
    {
      conditions := [];
      listeners := [];
      xmlFile := file;
    }

    /** The constructor: read the state file if there is one, then complete
        the catalog. A file naming a loadable class that is not one of the
        seven catalog classes makes construction fail (None). */
    static method Create(file: Option<seq<Entry>>, loadable: set<string>, restore: Restorer)
      returns (r: Option<ConditionManager>)
      ensures r.None? <==> file.Some? && ReadEntries(file.value, loadable, restore).Fatal?
      ensures r.Some? ==> fresh(r.value) && r.value.Valid()
      ensures r.Some? ==> r.value.conditions == CompleteCatalog(InitialConditions(file, loadable, restore))
      ensures r.Some? ==> r.value.listeners == [] && r.value.xmlFile == file
    {
      var m := new ConditionManager(file);
      ghost var initial := InitialConditions(file, loadable, restore);
      if file.Some? {
        var fatal := m.ReadFromXml(loadable, restore);
        if fatal {
          return None;
        }
        assert m.conditions == [] + ReadEntries(file.value, loadable, restore).conds;
      }
      assert m.conditions == initial;
      m.AddMissingConditions();
      CompletionCoversCatalog(initial);
      r := Some(m);
    }

    /** `refreshAll`: each condition, in list order, re-derives its state;
        `refresh` stands for the condition's own detection logic. */
    method RefreshAll(refresh: Condition -> State)
      modifies this`conditions
      ensures |conditions| == |old(conditions)|
      ensures forall i :: 0 <= i < |conditions| ==>
                conditions[i] == Condition(old(conditions)[i].kind, refresh(old(conditions)[i]))
      ensures Valid() == old(Valid())
    {
      var n := |conditions|;
      for i := 0 to n
        invariant |conditions| == n
        invariant forall j :: 0 <= j < i ==>
                    conditions[j] == Condition(old(conditions)[j].kind, refresh(old(conditions)[j]))
        invariant forall j :: i <= j < n ==> conditions[j] == old(conditions)[j]
      {
        conditions := conditions[i := Condition(conditions[i].kind, refresh(conditions[i]))];
      }
      SameKindsSameTypes(conditions, old(conditions));
    }

    /** `readFromXml`: appends the conditions read from the state file. A
        missing file reads as nothing. When `fatal` is set the constructor
        does not complete, so the list is left unspecified. */
    method ReadFromXml(loadable: set<string>, restore: Restorer) returns (fatal: bool)
      modifies this`conditions
      ensures xmlFile.None? ==> !fatal && conditions == old(conditions)
      ensures xmlFile.Some? ==> (fatal <==> ReadEntries(xmlFile.value, loadable, restore).Fatal?)
      ensures xmlFile.Some? && !fatal ==>
                conditions == old(conditions) + ReadEntries(xmlFile.value, loadable, restore).conds
    {
      fatal := false;
      if xmlFile.None? {
        return;
      }
      var entries := xmlFile.value;
      ghost var start := conditions;
      ghost var read: seq<Condition> := [];
      var i := 0;
      while i < |entries|
        invariant 0 <= i <= |entries|
        invariant conditions == start + read
        invariant ReadEntries(entries, loadable, restore) == Prepend(read, ReadEntries(entries[i..], loadable, restore))
      {
        var clz := entries[i].cls;
        if !StartsWith(clz, PKG) {
          clz := PKG + clz;
        }
        var ref := ForName(clz, loadable);
        ReadFrom(entries, i, loadable, restore, ref);
        if ref.None? {
          assert read + [] == read;
          return;
        }
        var created := CreateCondition(ref.value);
        if created.None? {
          fatal := true;
          return;
        }
        var c := created.value;
        var restored := Condition(c.kind, restore(c, entries[i].bundle));
        PrependTwice(read, [restored], ReadEntries(entries[i + 1..], loadable, restore));
        AppendAssoc(start, read, restored);
        conditions := conditions + [restored];
        read := read + [restored];
        i := i + 1;
      }
      assert read + [] == read;
    }

    /** The selection loop of `saveToXml`: the elements it writes. */
    method SavedEntries() returns (entries: seq<Entry>)
      ensures entries == SaveSelection(conditions)
    {
      entries := [];
      for i := 0 to |conditions|
        invariant entries == SaveSelection(conditions[..i])
      {
        var c := conditions[i];
        assert conditions[..i + 1][..i] == conditions[..i];
        if c.state.persist {
          entries := entries + [Entry(SimpleName(c.kind), c.state.bundle)];
        }
      }
      assert conditions[..|conditions|] == conditions;
    }

    /** `saveToXml`: the file is rewritten to hold the selected elements. */
    method SaveToXml()
      modifies this`xmlFile
      ensures xmlFile == Some(SaveSelection(conditions))
    {
      var entries := SavedEntries();
      xmlFile := Some(entries);
    }

    /** `addMissingConditions`. */
    method AddMissingConditions()
      modifies this`conditions
      ensures conditions == CompleteCatalog(old(conditions))
    {
      ghost var s := conditions;
      AddIfMissing(AirplaneMode);
      AddIfMissing(Hotspot);
      AddIfMissing(Dnd);
      AddIfMissing(BatterySaver);
      AddIfMissing(CellularData);
      AddIfMissing(BackgroundData);
      AddIfMissing(WorkMode);
      AddAllCatalog(s);
      conditions := SortByLastChange(conditions);
    }

    /** `addIfMissing`: appends a new condition of type `t` only when
        `getCondition` finds none. */
    method AddIfMissing(t: CondType)
      modifies this`conditions
      ensures conditions == AddedIfMissing(old(conditions), t)
    {
      var found := GetCondition(CatalogClass(t));
      if found.None? {
        var created := CreateCondition(CatalogClass(t));
        conditions := conditions + [created.value];
      }
    }

    /** `getCondition`: the first condition of the class, or None. A class
        outside the catalog is never found. */
    method GetCondition(clz: ClassRef) returns (r: Option<Condition>)
      ensures clz.CatalogClass? ==> r == Lookup(conditions, clz.t)
      ensures clz.OtherClass? ==> r.None?
      ensures Valid() && clz.CatalogClass? ==> r.Some? && r.value.kind == clz.t
    {
      for i := 0 to |conditions|
        invariant forall j :: 0 <= j < i ==> CatalogClass(conditions[j].kind) != clz
      {
        if clz == CatalogClass(conditions[i].kind) {
          LookupFirst(conditions, clz.t);
          ghost var k :| 0 <= k < |conditions| && conditions[k] == Lookup(conditions, clz.t).value
                         && conditions[k].kind == clz.t
                         && forall j :: 0 <= j < k ==> conditions[j].kind != clz.t;
          assert conditions[i] in conditions;
          assert k == i;
          return Some(conditions[i]);
        }
      }
      if clz.CatalogClass? {
        LookupFirst(conditions, clz.t);
        assert !HasKind(conditions, clz.t) by {
          forall c | c in conditions ensures c.kind != clz.t {
            var j :| 0 <= j < |conditions| && conditions[j] == c;
          }
        }
      }
      return None;
    }

    /** `getVisibleConditions`: a new list of the conditions that should show. */
    method GetVisibleConditions() returns (visible: seq<Condition>)
      ensures visible == Filter(conditions, IsShown)
    {
      visible := [];
      for i := 0 to |conditions|
        invariant visible == Filter(conditions[..i], IsShown)
      {
        assert conditions[..i + 1][..i] == conditions[..i];
        if conditions[i].state.shown {
          visible := visible + [conditions[i]];
        }
      }
      assert conditions[..|conditions|] == conditions;
    }

    /** `notifyChanged`: save, re-sort, then tell every listener. `calls` lists
        the listeners whose `onConditionsChanged` ran, in call order. */
    method NotifyChanged(condition: Condition) returns (calls: seq<Listener>)
      modifies this`conditions, this`xmlFile
      ensures xmlFile == Some(SaveSelection(old(conditions)))
      ensures conditions == SortByLastChange(old(conditions))
      ensures calls == listeners
      ensures Valid() == old(Valid())
    {
      SaveToXml();
      conditions := SortByLastChange(conditions);
      calls := DispatchChange();
      SortIsSortedPermutation(old(conditions));
      HasKindPermutation(conditions, old(conditions));
    }

    /** The listener loop of `notifyChanged`: one call per registration, in
        registration order. */
    method DispatchChange() returns (calls: seq<Listener>)
      ensures calls == listeners
    {
      calls := [];
      for i := 0 to |listeners|
        invariant calls == listeners[..i]
      {
        calls := calls + [listeners[i]];
      }
    }

    /** `addListener`: appends, without removing an earlier registration. */
    method AddListener(listener: Listener)
      modifies this`listeners
      ensures listeners == old(listeners) + [listener]
    {
      listeners := listeners + [listener];
    }

    /** `remListener`: removes the first registration of the listener only. */
    method RemListener(listener: Listener)
      modifies this`listeners
      ensures listeners == RemoveFirst(old(listeners), listener)
    {
      listeners := RemoveFirst(listeners, listener);
    }
  }
}
