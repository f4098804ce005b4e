/** What `saveToXml` selects and how it names it, and what `readFromXml` makes
    of the entries it finds. The state file is the sequence of its condition
    elements; the XML encoding itself is not modelled. */
module Persistence {
  import opened Conditions
  import opened Sequences

  /** Package of the condition classes, prefixed to stored class names. */
  const PKG: string := "com.android.settings.dashboard.conditional."

  /** One condition element of the state file: its class attribute and the
      bundle written inside it. */
  datatype Entry = Entry(cls: string, bundle: Bundle)

  predicate StartsWith(s: string, prefix: string)
  {
    |prefix| <= |s| && s[..|prefix|] == prefix
  }

  /** The class attribute made fully qualified: PKG is put in front unless it
      is already there. */
  function Qualify(clz: string): (r: string)
    ensures StartsWith(r, PKG)
    ensures r == clz || r == PKG + clz
  {
    if StartsWith(clz, PKG) then clz else PKG + clz
  }

  /** Qualifying a name twice is the same as qualifying it once. */
  lemma QualifyIdempotent(clz: string)
    ensures Qualify(Qualify(clz)) == Qualify(clz)
  {
  }

  /** The catalog type among `ts` whose class has this fully qualified name. */
  function TypeNamed(ts: seq<CondType>, qualified: string): Option<CondType>
  {
    if ts == [] then None
    else if PKG + SimpleName(ts[0]) == qualified then Some(ts[0])
    else TypeNamed(ts[1..], qualified)
  }

  /** The type found is one of `ts` and carries that name; none is found only
      when no type of `ts` carries it. */
  lemma {:induction false} TypeNamedFinds(ts: seq<CondType>, qualified: string)
    ensures var r := TypeNamed(ts, qualified);
            (r.Some? ==> r.value in ts && PKG + SimpleName(r.value) == qualified)
            && (r.None? ==> forall t :: t in ts ==> PKG + SimpleName(t) != qualified)
  {
    if ts != [] {
      TypeNamedFinds(ts[1..], qualified);
      assert forall t :: t in ts ==> t == ts[0] || t in ts[1..];
    }
  }

  /** `Class.forName`: the catalog class of that name, else any other class the
      runtime can load (`loadable`), else nothing (ClassNotFoundException). */
  function ForName(qualified: string, loadable: set<string>): Option<ClassRef>
  {
    match TypeNamed(CATALOG, qualified)
    case Some(t) => Some(CatalogClass(t))
    case None => if qualified in loadable then Some(OtherClass(qualified)) else None
  }

  lemma PrefixedNamesDiffer(a: string, b: string)
    ensures PKG + a == PKG + b ==> a == b
  {
    if PKG + a == PKG + b {
      assert a == (PKG + a)[|PKG|..];
      assert b == (PKG + b)[|PKG|..];
    }
  }

  /** A name resolves to a catalog class exactly when it is that class's
      fully qualified name. */
  lemma ForNameCatalog(qualified: string, loadable: set<string>, t: CondType)
    ensures ForName(qualified, loadable) == Some(CatalogClass(t)) <==> qualified == PKG + SimpleName(t)
  {
    CatalogListsEveryTypeOnce();
    TypeNamedFinds(CATALOG, qualified);
    match TypeNamed(CATALOG, qualified)
    case Some(u) =>
      PrefixedNamesDiffer(SimpleName(u), SimpleName(t));
      SimpleNameInjective(u, t);
    case None =>
  }

  /** The simple name that the save step writes qualifies back to the type it
      was written for. */
  lemma SavedNameResolves(t: CondType, loadable: set<string>)
    ensures ForName(Qualify(SimpleName(t)), loadable) == Some(CatalogClass(t))
  {
    assert |SimpleName(t)| < |PKG|;
    ForNameCatalog(Qualify(SimpleName(t)), loadable, t);
  }

  predicate Persists(c: Condition)
  {
    c.state.persist
  }

  /** The element written for a condition: its simple class name and bundle. */
  function EntryOf(c: Condition): Entry
  {
    Entry(SimpleName(c.kind), c.state.bundle)
  }

  /** The elements `saveToXml` writes: one per condition whose `saveState`
      returns true, in list order, tagged with its simple class name. */
  function SaveSelection(s: seq<Condition>): (r: seq<Entry>)
    ensures |r| == |Filter(s, Persists)|
    ensures forall i :: 0 <= i < |r| ==> r[i] == EntryOf(Filter(s, Persists)[i])
    decreases |s|
  {
    if s == [] then []
    else SaveSelection(s[..|s| - 1]) + (if Persists(s[|s| - 1]) then [EntryOf(s[|s| - 1])] else [])
  }

  /** Omission: when types are unique, a condition whose `saveState` returns
      false has no element in the file. */
  lemma OmittedNotSaved(s: seq<Condition>, c: Condition)
    requires DistinctKinds(s) && c in s && !Persists(c)
    ensures forall e :: e in SaveSelection(s) ==> e.cls != SimpleName(c.kind)
  {
    var saved := SaveSelection(s);
    var kept := Filter(s, Persists);
    forall e | e in saved ensures e.cls != SimpleName(c.kind) {
      var i :| 0 <= i < |saved| && saved[i] == e;
      var d := kept[i];
      FilterMembers(s, Persists, d);
      assert d in s && Persists(d);
      var a :| 0 <= a < |s| && s[a] == d;
      var b :| 0 <= b < |s| && s[b] == c;
      assert a != b;
      assert d.kind != c.kind;
      SimpleNameInjective(d.kind, c.kind);
    }
  }

  /** Restores a freshly created condition from a bundle (`restoreState`);
      what a condition reads from its bundle is the condition's own logic. */
  type Restorer = (Condition, Bundle) -> State

  /** A condition of type `t` created and then restored from `b`. */
  function Restored(t: CondType, b: Bundle, restore: Restorer): Condition
  {
    Condition(t, restore(DefaultCondition(t), b))
  }

  /** Outcome of reading the file: the conditions read, or the fatal
      "Unexpected Condition" error for a loadable class that is not one of the
      seven catalog classes. */
  datatype LoadResult = Loaded(conds: seq<Condition>) | Fatal(cls: string)

  /** The result of reading `p` and then reading on to `r`. */
  function Prepend(p: seq<Condition>, r: LoadResult): LoadResult
  {
    match r
    case Loaded(cs) => Loaded(p + cs)
    case Fatal(n) => Fatal(n)
  }

  lemma PrependTwice(p: seq<Condition>, q: seq<Condition>, r: LoadResult)
    ensures Prepend(p, Prepend(q, r)) == Prepend(p + q, r)
  {
    if r.Loaded? {
      assert p + (q + r.conds) == (p + q) + r.conds;
    }
  }

  /** One element of `readFromXml`, followed by the read of the rest (`rest`).
      A name that resolves to no class ends the read and keeps what was read
      before it. */
  function ReadStep(e: Entry, loadable: set<string>, restore: Restorer, rest: LoadResult): LoadResult
  {
    var clz := Qualify(e.cls);
    match ForName(clz, loadable)
    case None => Loaded([])
    case Some(ref) =>
      match CreateCondition(ref)
      case None => Fatal(clz)
      case Some(c) => Prepend([Restored(c.kind, e.bundle, restore)], rest)
  }

  /** `readFromXml` over the file's elements, in order. */
  function ReadEntries(entries: seq<Entry>, loadable: set<string>, restore: Restorer): LoadResult
    decreases |entries|
  {
    if entries == [] then Loaded([])
    else ReadStep(entries[0], loadable, restore, ReadEntries(entries[1..], loadable, restore))
  }

  /** Reading from index `i` on, by how element `i`'s name resolves: the read
      ends there, fails there, or yields that element's condition followed by
      the read from `i + 1` on. */
  lemma ReadFrom(entries: seq<Entry>, i: nat, loadable: set<string>, restore: Restorer, ref: Option<ClassRef>)
    requires i < |entries| && ref == ForName(Qualify(entries[i].cls), loadable)
    ensures ref.None? ==> ReadEntries(entries[i..], loadable, restore) == Loaded([])
    ensures ref.Some? && ref.value.OtherClass? ==>
              ReadEntries(entries[i..], loadable, restore) == Fatal(Qualify(entries[i].cls))
    ensures ref.Some? && ref.value.CatalogClass? ==>
              ReadEntries(entries[i..], loadable, restore)
              == Prepend([Restored(ref.value.t, entries[i].bundle, restore)], ReadEntries(entries[i + 1..], loadable, restore))
  {
    assert entries[i..][0] == entries[i] && entries[i..][1..] == entries[i + 1..];
  }

  /** What a read yields: the conditions read are created and restored from a
      prefix of the elements, each of the type its element names; the read
      stops at the first name that resolves to no class; a fatal read names a
      loadable class that is not one of the seven catalog classes. */
  lemma {:induction false} ReadKeepsPrefix(entries: seq<Entry>, loadable: set<string>, restore: Restorer)
    ensures var r := ReadEntries(entries, loadable, restore);
            r.Loaded? ==> |r.conds| <= |entries|
    ensures var r := ReadEntries(entries, loadable, restore);
            r.Loaded? ==> forall i :: 0 <= i < |r.conds| ==>
              ForName(Qualify(entries[i].cls), loadable) == Some(CatalogClass(r.conds[i].kind))
              && r.conds[i] == Restored(r.conds[i].kind, entries[i].bundle, restore)
    ensures var r := ReadEntries(entries, loadable, restore);
            r.Loaded? && |r.conds| < |entries| ==> ForName(Qualify(entries[|r.conds|].cls), loadable).None?
    ensures var r := ReadEntries(entries, loadable, restore);
            r.Fatal? ==> r.cls in loadable && TypeNamed(CATALOG, r.cls).None?
    decreases |entries|
  {
    if entries != [] {
      var clz := Qualify(entries[0].cls);
      var ref := ForName(clz, loadable);
      if ref.Some? && ref.value.CatalogClass? {
        ReadKeepsPrefix(entries[1..], loadable, restore);
        var rest := ReadEntries(entries[1..], loadable, restore);
        var first := Restored(ref.value.t, entries[0].bundle, restore);
        assert ReadEntries(entries, loadable, restore) == Prepend([first], rest);
        if rest.Loaded? {
          var cs := [first] + rest.conds;
          forall i | 0 <= i < |cs|
            ensures ForName(Qualify(entries[i].cls), loadable) == Some(CatalogClass(cs[i].kind))
            ensures cs[i] == Restored(cs[i].kind, entries[i].bundle, restore)
          {
            if i > 0 {
              assert cs[i] == rest.conds[i - 1] && entries[i] == entries[1..][i - 1];
            }
          }
          if |cs| < |entries| {
            assert entries[|cs|] == entries[1..][|rest.conds|];
          }
        }
      }
    }
  }

  /** The element's name loads one of the seven catalog classes. */
  predicate LoadsCatalog(e: Entry, loadable: set<string>)
  {
    var ref := ForName(Qualify(e.cls), loadable);
    ref.Some? && ref.value.CatalogClass?
  }

  /** The element's name loads a class that is not one of the catalog classes. */
  predicate LoadsOther(e: Entry, loadable: set<string>)
  {
    var ref := ForName(Qualify(e.cls), loadable);
    ref.Some? && ref.value.OtherClass?
  }

  /** Element `k` loads a non-catalog class and every element before it loads a
      catalog class. */
  predicate FirstFailing(entries: seq<Entry>, k: int, loadable: set<string>)
  {
    0 <= k < |entries|
    && (forall j :: 0 <= j < k ==> LoadsCatalog(entries[j], loadable))
    && LoadsOther(entries[k], loadable)
  }

  /** A read is fatal exactly when, before any name that loads no class, some
      name loads a class outside the catalog; the error names the first one. */
  lemma {:induction false} ReadFatalExactly(entries: seq<Entry>, loadable: set<string>, restore: Restorer)
    ensures var r := ReadEntries(entries, loadable, restore);
            r.Fatal? ==> exists k :: FirstFailing(entries, k, loadable) && r.cls == Qualify(entries[k].cls)
    ensures (exists k :: FirstFailing(entries, k, loadable)) ==> ReadEntries(entries, loadable, restore).Fatal?
    decreases |entries|
  {
    if entries != [] {
      var ref := ForName(Qualify(entries[0].cls), loadable);
      ReadFrom(entries, 0, loadable, restore, ref);
      assert entries[0..] == entries;
      var tail := entries[1..];
      if ref.None? {
        forall k | 0 <= k < |entries| ensures !FirstFailing(entries, k, loadable) {
          assert !LoadsCatalog(entries[0], loadable) && !LoadsOther(entries[0], loadable);
        }
      } else if ref.value.OtherClass? {
        assert FirstFailing(entries, 0, loadable);
      } else {
        ReadFatalExactly(tail, loadable, restore);
        var r := ReadEntries(entries, loadable, restore);
        var rest := ReadEntries(tail, loadable, restore);
        assert r == Prepend([Restored(ref.value.t, entries[0].bundle, restore)], rest);
        assert !LoadsOther(entries[0], loadable);
        if r.Fatal? {
          var k' :| FirstFailing(tail, k', loadable) && rest.cls == Qualify(tail[k'].cls);
          forall j | 0 <= j < k' + 1 ensures LoadsCatalog(entries[j], loadable) {
            if j > 0 { assert entries[j] == tail[j - 1]; }
          }
          assert FirstFailing(entries, k' + 1, loadable) && r.cls == Qualify(entries[k' + 1].cls);
        }
        if exists k :: FirstFailing(entries, k, loadable) {
          var k :| FirstFailing(entries, k, loadable);
          assert k > 0;
          forall j | 0 <= j < k - 1 ensures LoadsCatalog(tail[j], loadable) {
            assert tail[j] == entries[j + 1];
          }
          assert FirstFailing(tail, k - 1, loadable);
        }
      }
    }
  }

  /** Entries that all carry a catalog type's simple name are all read. */
  lemma {:induction false} ReadWellNamed(entries: seq<Entry>, kinds: seq<CondType>, loadable: set<string>, restore: Restorer)
    requires |kinds| == |entries|
    requires forall i :: 0 <= i < |entries| ==> entries[i].cls == SimpleName(kinds[i])
    ensures ReadEntries(entries, loadable, restore).Loaded?
    ensures |ReadEntries(entries, loadable, restore).conds| == |entries|
    ensures forall i :: 0 <= i < |entries| ==>
              ReadEntries(entries, loadable, restore).conds[i] == Restored(kinds[i], entries[i].bundle, restore)
    decreases |entries|
  {
    if entries != [] {
      SavedNameResolves(kinds[0], loadable);
      ReadWellNamed(entries[1..], kinds[1..], loadable, restore);
      var rest := ReadEntries(entries[1..], loadable, restore).conds;
      var first := Restored(kinds[0], entries[0].bundle, restore);
      assert ReadEntries(entries, loadable, restore) == Loaded([first] + rest);
    }
  }

  /** Round trip: reading back what was saved yields, in order, one condition
      per persisting condition, of the same type, restored from its own bundle. */
  lemma SaveThenRead(s: seq<Condition>, loadable: set<string>, restore: Restorer)
    ensures ReadEntries(SaveSelection(s), loadable, restore).Loaded?
    ensures |ReadEntries(SaveSelection(s), loadable, restore).conds| == |Filter(s, Persists)|
    ensures forall i :: 0 <= i < |Filter(s, Persists)| ==>
              ReadEntries(SaveSelection(s), loadable, restore).conds[i]
              == Restored(Filter(s, Persists)[i].kind, Filter(s, Persists)[i].state.bundle, restore)
  {
    var kept := Filter(s, Persists);
    var kinds := seq(|kept|, i requires 0 <= i < |kept| => kept[i].kind);
    ReadWellNamed(SaveSelection(s), kinds, loadable, restore);
  }

  /** Keeping only some entries never makes two of them share a type. */
  lemma {:induction false} FilterKeepsDistinct(s: seq<Condition>, p: Condition -> bool)
    requires DistinctKinds(s)
    ensures DistinctKinds(Filter(s, p))
    decreases |s|
  {
    if s != [] {
      var init, last := s[..|s| - 1], s[|s| - 1];
      assert s == init + [last];
      DistinctSnoc(init, last);
      FilterKeepsDistinct(init, p);
      if p(last) {
        forall c | c in Filter(init, p) ensures c.kind != last.kind {
          FilterMembers(init, p, c);
        }
        DistinctSnoc(Filter(init, p), last);
      } else {
        assert Filter(s, p) == Filter(init, p) + [];
      }
    }
  }

  /** A file saved from a list without duplicate types reads back without
      duplicate types. */
  lemma SavedFileReadsDistinct(s: seq<Condition>, loadable: set<string>, restore: Restorer)
    requires DistinctKinds(s)
    ensures ReadEntries(SaveSelection(s), loadable, restore).Loaded?
    ensures DistinctKinds(ReadEntries(SaveSelection(s), loadable, restore).conds)
  {
    var kept := Filter(s, Persists);
    SaveThenRead(s, loadable, restore);
    FilterKeepsDistinct(s, Persists);
    SameKindsSameTypes(ReadEntries(SaveSelection(s), loadable, restore).conds, kept);
  }

  /** The stored simple name and the fully qualified name of one class are two
      different strings that load the same class, so a file holding both reads
      back two conditions of one type. */
  lemma TwoSpellingsReadTwice(loadable: set<string>, restore: Restorer)
    ensures var entries := [Entry(SimpleName(Dnd), map[]), Entry(PKG + SimpleName(Dnd), map[])];
            entries[0].cls != entries[1].cls
            && ReadEntries(entries, loadable, restore).Loaded?
            && |ReadEntries(entries, loadable, restore).conds| == 2
            && ReadEntries(entries, loadable, restore).conds[0].kind == Dnd
            && ReadEntries(entries, loadable, restore).conds[1].kind == Dnd
  {
    var entries := [Entry(SimpleName(Dnd), map[]), Entry(PKG + SimpleName(Dnd), map[])];
    assert |entries[0].cls| < |entries[1].cls|;
    SavedNameResolves(Dnd, loadable);
    assert StartsWith(entries[1].cls, PKG);
    ForNameCatalog(entries[1].cls, loadable, Dnd);
    ReadFrom(entries, 0, loadable, restore, ForName(Qualify(entries[0].cls), loadable));
    ReadFrom(entries, 1, loadable, restore, ForName(Qualify(entries[1].cls), loadable));
    assert entries[2..] == [];
    assert entries[0..] == entries;
  }
}
