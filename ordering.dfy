/** CONDITION_COMPARATOR and the order `Collections.sort` leaves the list in.
    `Collections.sort` is a stable sort; a stable sort by a key has exactly one
    possible result, so a stable insertion sort stands for it here. */
module Ordering {
  import opened Conditions
  import opened Sequences

  /** `Long.compare(lhs.getLastChange(), rhs.getLastChange())`. */
  function Compare(lhs: Condition, rhs: Condition): (r: int)
    ensures -1 <= r <= 1
    ensures r < 0 <==> lhs.state.lastChange < rhs.state.lastChange
    ensures r == 0 <==> lhs.state.lastChange == rhs.state.lastChange
  {
    if lhs.state.lastChange < rhs.state.lastChange then -1
    else if lhs.state.lastChange == rhs.state.lastChange then 0
    else 1
  }

  /** Ascending by last change: no entry compares greater than a later one. */
  predicate Sorted(s: seq<Condition>)
  {
    forall i, j :: 0 <= i < j < |s| ==> Compare(s[i], s[j]) <= 0
  }

  lemma SortedTail(s: seq<Condition>)
    requires Sorted(s) && s != []
    ensures Sorted(s[1..])
  {
    forall i, j | 0 <= i < j < |s[1..]| ensures Compare(s[1..][i], s[1..][j]) <= 0 {
      assert s[1..][i] == s[i + 1] && s[1..][j] == s[j + 1];
    }
  }

  /** Puts `x` after every entry that does not compare greater than it. */
  function Insert(x: Condition, s: seq<Condition>): seq<Condition>
  {
    if s == [] then [x]
    else if Compare(x, s[0]) < 0 then [x] + s
    else [s[0]] + Insert(x, s[1..])
  }

  /** Insertion sort, taking the entries in list order. */
  function SortByLastChange(s: seq<Condition>): seq<Condition>
    decreases |s|
  {
    if s == [] then []
    else Insert(s[|s| - 1], SortByLastChange(s[..|s| - 1]))
  }

  lemma {:induction false} InsertPermutes(x: Condition, s: seq<Condition>)
    ensures multiset(Insert(x, s)) == multiset(s) + multiset{x}
  {
    if s != [] && Compare(x, s[0]) >= 0 {
      assert s == [s[0]] + s[1..];
      InsertPermutes(x, s[1..]);
    }
  }

  /** An entry that compares no greater than every entry of a sorted list can
      go in front of it. */
  lemma ConsKeepsSorted(y: Condition, s: seq<Condition>)
    requires Sorted(s)
    requires forall c :: c in s ==> Compare(y, c) <= 0
    ensures Sorted([y] + s)
  {
    var r := [y] + s;
    forall i, j | 0 <= i < j < |r| ensures Compare(r[i], r[j]) <= 0 {
      assert r[j] == s[j - 1];
      if i > 0 {
        assert r[i] == s[i - 1];
      } else {
        assert s[j - 1] in s;
      }
    }
  }

  lemma {:induction false} InsertKeepsSorted(x: Condition, s: seq<Condition>)
    requires Sorted(s)
    ensures Sorted(Insert(x, s))
  {
    if s == [] {
    } else if Compare(x, s[0]) < 0 {
      forall c | c in s ensures Compare(x, c) <= 0 {
        var j :| 0 <= j < |s| && s[j] == c;
        assert j == 0 || Compare(s[0], s[j]) <= 0;
      }
      ConsKeepsSorted(x, s);
    } else {
      var tail := s[1..];
      var rest := Insert(x, tail);
      SortedTail(s);
      InsertKeepsSorted(x, tail);
      InsertPermutes(x, tail);
      forall c | c in rest ensures Compare(s[0], c) <= 0 {
        assert c in multiset(rest);
        if c != x {
          assert c in multiset(tail);
          var k :| 0 <= k < |tail| && tail[k] == c;
          assert s[k + 1] == c;
        }
      }
      ConsKeepsSorted(s[0], rest);
    }
  }

  /** `Collections.sort(mConditions, CONDITION_COMPARATOR)` leaves the list in
      ascending order of last change and holding exactly the same entries. */
  lemma {:induction false} SortIsSortedPermutation(s: seq<Condition>)
    ensures Sorted(SortByLastChange(s))
    ensures multiset(SortByLastChange(s)) == multiset(s)
    decreases |s|
  {
    if s != [] {
      var init, last := s[..|s| - 1], s[|s| - 1];
      assert s == init + [last];
      SortIsSortedPermutation(init);
      InsertKeepsSorted(last, SortByLastChange(init));
      InsertPermutes(last, SortByLastChange(init));
    }
  }

  function ChangedAt(k: int): Condition -> bool
  {
    (c: Condition) => c.state.lastChange == k
  }

  /** The entries whose last change is exactly `k`, in list order. */
  function WithLastChange(s: seq<Condition>, k: int): seq<Condition>
  {
    Filter(s, ChangedAt(k))
  }

  lemma WithLastChangeAppend(a: seq<Condition>, b: seq<Condition>, k: int)
    ensures WithLastChange(a + b, k) == WithLastChange(a, k) + WithLastChange(b, k)
  {
    FilterAppend(a, b, ChangedAt(k));
  }

  lemma WithLastChangeSingle(x: Condition, k: int)
    ensures WithLastChange([x], k) == if x.state.lastChange == k then [x] else []
  {
    assert [x][..0] == [];
    assert Filter([x], ChangedAt(k)) == Filter([], ChangedAt(k)) + (if ChangedAt(k)(x) then [x] else []);
  }

  lemma {:induction false} WithLastChangeNone(s: seq<Condition>, k: int)
    requires forall c :: c in s ==> c.state.lastChange != k
    ensures WithLastChange(s, k) == []
    decreases |s|
  {
    if s != [] {
      assert s == s[..|s| - 1] + [s[|s| - 1]];
      WithLastChangeNone(s[..|s| - 1], k);
    }
  }

  /** An entry that goes in front of a sorted list is older than all of it,
      so no entry of the list shares its last-change value. */
  lemma InsertInFrontIsStable(x: Condition, s: seq<Condition>, k: int)
    requires Sorted(s) && s != [] && Compare(x, s[0]) < 0
    ensures WithLastChange([x] + s, k)
         == WithLastChange(s, k) + (if x.state.lastChange == k then [x] else [])
  {
    WithLastChangeAppend([x], s, k);
    WithLastChangeSingle(x, k);
    if x.state.lastChange == k {
      forall c | c in s ensures c.state.lastChange != k {
        var j :| 0 <= j < |s| && s[j] == c;
        assert j == 0 || Compare(s[0], s[j]) <= 0;
      }
      WithLastChangeNone(s, k);
    }
  }

  lemma {:induction false} InsertIsStable(x: Condition, s: seq<Condition>, k: int)
    requires Sorted(s)
    ensures WithLastChange(Insert(x, s), k)
         == WithLastChange(s, k) + (if x.state.lastChange == k then [x] else [])
    decreases |s|
  {
    var tail := if x.state.lastChange == k then [x] else [];
    if s == [] {
      WithLastChangeSingle(x, k);
    } else if Compare(x, s[0]) < 0 {
      InsertInFrontIsStable(x, s, k);
    } else {
      var rest := s[1..];
      assert s == [s[0]] + rest;
      SortedTail(s);
      InsertIsStable(x, rest, k);
      WithLastChangeAppend([s[0]], Insert(x, rest), k);
      WithLastChangeAppend([s[0]], rest, k);
      calc {
        WithLastChange(Insert(x, s), k);
        WithLastChange([s[0]] + Insert(x, rest), k);
        WithLastChange([s[0]], k) + (WithLastChange(rest, k) + tail);
        (WithLastChange([s[0]], k) + WithLastChange(rest, k)) + tail;
        WithLastChange(s, k) + tail;
      }
    }
  }

  /** Stability: the entries sharing a last-change value keep their relative order. */
  lemma {:induction false} SortIsStable(s: seq<Condition>, k: int)
    ensures WithLastChange(SortByLastChange(s), k) == WithLastChange(s, k)
    decreases |s|
  {
    if s != [] {
      var init, last := s[..|s| - 1], s[|s| - 1];
      assert s == init + [last];
      assert [last] == [] + [last];
      assert SortByLastChange(s) == Insert(last, SortByLastChange(init));
      SortIsStable(init, k);
      SortIsSortedPermutation(init);
      InsertIsStable(last, SortByLastChange(init), k);
      WithLastChangeAppend(init, [last], k);
    }
  }

  lemma {:induction false} InsertAfterAll(x: Condition, s: seq<Condition>)
    requires forall c :: c in s ==> Compare(x, c) >= 0
    ensures Insert(x, s) == s + [x]
    decreases |s|
  {
    if s != [] {
      assert s[0] in s;
      assert s == [s[0]] + s[1..];
      InsertAfterAll(x, s[1..]);
    }
  }

  /** Sorting a list that is already in order leaves it as it is. */
  lemma {:induction false} SortOfSortedIsIdentity(s: seq<Condition>)
    requires Sorted(s)
    ensures SortByLastChange(s) == s
    decreases |s|
  {
    if s != [] {
      var init, last := s[..|s| - 1], s[|s| - 1];
      assert s == init + [last];
      assert Sorted(init) by {
        forall i, j | 0 <= i < j < |init| ensures Compare(init[i], init[j]) <= 0 {
          assert init[i] == s[i] && init[j] == s[j];
        }
      }
      SortOfSortedIsIdentity(init);
      assert forall c :: c in init ==> Compare(last, c) >= 0 by {
        forall c | c in init ensures Compare(last, c) >= 0 {
          var j :| 0 <= j < |init| && init[j] == c;
          assert Compare(s[j], s[|s| - 1]) <= 0;
        }
      }
      InsertAfterAll(last, init);
    }
  }

  lemma {:induction false} InsertKeepsDistinct(x: Condition, s: seq<Condition>)
    requires DistinctKinds(s) && !HasKind(s, x.kind)
    ensures DistinctKinds(Insert(x, s))
  {
    if s == [] {
    } else if Compare(x, s[0]) < 0 {
      DistinctCons(x, s);
    } else {
      var tail := s[1..];
      assert s == [s[0]] + tail;
      DistinctCons(s[0], tail);
      HasKindAppend([s[0]], tail, x.kind);
      InsertKeepsDistinct(x, tail);
      InsertPermutes(x, tail);
      assert s[0] in s;
      forall c | c in Insert(x, tail) ensures c.kind != s[0].kind {
        assert c in multiset(Insert(x, tail));
      }
      DistinctCons(s[0], Insert(x, tail));
    }
  }

  /** Sorting never makes two entries share a type. */
  lemma {:induction false} SortKeepsDistinct(s: seq<Condition>)
    requires DistinctKinds(s)
    ensures DistinctKinds(SortByLastChange(s))
    decreases |s|
  {
    if s != [] {
      var init, last := s[..|s| - 1], s[|s| - 1];
      assert s == init + [last];
      DistinctSnoc(init, last);
      SortKeepsDistinct(init);
      SortIsSortedPermutation(init);
      HasKindPermutation(SortByLastChange(init), init);
      InsertKeepsDistinct(last, SortByLastChange(init));
    }
  }
}
