/** `Array.prototype.sort` with a comparator. ECMAScript requires the sort to be
    stable, and for a consistent comparator a stable sort has exactly one possible
    result; an insertion sort computes it. */
module Sorting {

  /** A consistent comparator (the ECMAScript notion): the sign of `cmp(x, y)` is the
      opposite of the sign of `cmp(y, x)`, and "not after" is transitive. */
  ghost predicate IsComparator<T(!new)>(cmp: (T, T) -> int) {
    && (forall x, y :: cmp(x, y) > 0 <==> cmp(y, x) < 0)
    && (forall x, y, z :: cmp(x, y) <= 0 && cmp(y, z) <= 0 ==> cmp(x, z) <= 0)
  }

  ghost predicate Sorted<T>(s: seq<T>, cmp: (T, T) -> int) {
    forall i, j :: 0 <= i < j < |s| ==> cmp(s[i], s[j]) <= 0
  }

  /** The elements of `s` that the comparator ties with `e`, in their order in `s`. */
  function Tied<T>(s: seq<T>, cmp: (T, T) -> int, e: T): seq<T>
  {
    if s == [] then []
    else Tied(s[..|s| - 1], cmp, e) + (if cmp(s[|s| - 1], e) == 0 then [s[|s| - 1]] else [])
  }

  /** Puts `x` after every element at the end of `s` that does not compare above it. */
  function Insert<T>(s: seq<T>, x: T, cmp: (T, T) -> int): seq<T>
  {
    if s == [] then [x]
    else if cmp(s[|s| - 1], x) > 0 then Insert(s[..|s| - 1], x, cmp) + [s[|s| - 1]]
    else s + [x]
  }

  /** The stable sort of `s` under `cmp`. */
  function Sort<T>(s: seq<T>, cmp: (T, T) -> int): seq<T>
  {
    if s == [] then []
    else Insert(Sort(s[..|s| - 1], cmp), s[|s| - 1], cmp)
  }

  lemma {:induction false} InsertPermutes<T>(s: seq<T>, x: T, cmp: (T, T) -> int)
    ensures multiset(Insert(s, x, cmp)) == multiset(s) + multiset{x}
    decreases |s|
  {
    if s != [] && cmp(s[|s| - 1], x) > 0 {
      InsertPermutes(s[..|s| - 1], x, cmp);
      assert s == s[..|s| - 1] + [s[|s| - 1]];
    }
  }

  /** The result of `Sort` is a permutation of its input. */
  lemma {:induction false} SortPermutes<T>(s: seq<T>, cmp: (T, T) -> int)
    ensures multiset(Sort(s, cmp)) == multiset(s)
    decreases |s|
  {
    if s != [] {
      SortPermutes(s[..|s| - 1], cmp);
      InsertPermutes(Sort(s[..|s| - 1], cmp), s[|s| - 1], cmp);
      assert s == s[..|s| - 1] + [s[|s| - 1]];
    }
  }

  lemma {:induction false} TiedAppend<T>(s: seq<T>, t: seq<T>, cmp: (T, T) -> int, e: T)
    ensures Tied(s + t, cmp, e) == Tied(s, cmp, e) + Tied(t, cmp, e)
    decreases |t|
  {
    if t == [] {
      assert s + t == s;
    } else {
      assert (s + t)[..|s + t| - 1] == s + t[..|t| - 1];
      TiedAppend(s, t[..|t| - 1], cmp, e);
    }
  }

  lemma Transitive<T(!new)>(cmp: (T, T) -> int, x: T, y: T, z: T)
    requires IsComparator(cmp)
    requires cmp(x, y) <= 0 && cmp(y, z) <= 0
    ensures cmp(x, z) <= 0
  {
  }

  lemma {:induction false} InsertSorted<T(!new)>(s: seq<T>, x: T, cmp: (T, T) -> int)
    requires IsComparator(cmp)
    requires Sorted(s, cmp)
    ensures Sorted(Insert(s, x, cmp), cmp)
    decreases |s|
  {
    if s == [] {
    } else if cmp(s[|s| - 1], x) > 0 {
      var init, last := s[..|s| - 1], s[|s| - 1];
      assert Sorted(init, cmp);
      InsertSorted(init, x, cmp);
      InsertPermutes(init, x, cmp);
      var r := Insert(init, x, cmp);
      assert cmp(x, last) < 0;
      forall y | y in r ensures cmp(y, last) <= 0 {
        assert y in multiset(r);
        if y != x {
          assert y in multiset(init);
          var k :| 0 <= k < |init| && init[k] == y;
          assert cmp(s[k], s[|s| - 1]) <= 0;
        }
      }
      assert Insert(s, x, cmp) == r + [last];
      SortedSnocBelow(r, last, cmp);
    } else {
      assert Insert(s, x, cmp) == s + [x];
      SortedSnoc(s, x, cmp);
    }
  }

  /** A sorted list stays sorted when an element that no element compares above is
      appended. */
  lemma SortedSnocBelow<T>(r: seq<T>, last: T, cmp: (T, T) -> int)
    requires Sorted(r, cmp)
    requires forall y :: y in r ==> cmp(y, last) <= 0
    ensures Sorted(r + [last], cmp)
  {
    var t := r + [last];
    forall i, j | 0 <= i < j < |t| ensures cmp(t[i], t[j]) <= 0 {
      if j == |r| {
        assert t[i] == r[i] && r[i] in r;
      } else {
        assert t[i] == r[i] && t[j] == r[j];
      }
    }
  }

  /** A sorted list stays sorted when an element its last element does not compare
      above is appended. */
  lemma SortedSnoc<T(!new)>(s: seq<T>, x: T, cmp: (T, T) -> int)
    requires IsComparator(cmp)
    requires Sorted(s, cmp)
    requires s != [] && cmp(s[|s| - 1], x) <= 0
    ensures Sorted(s + [x], cmp)
  {
    forall y | y in s ensures cmp(y, x) <= 0 {
      var k :| 0 <= k < |s| && s[k] == y;
      if k < |s| - 1 {
        assert cmp(s[k], s[|s| - 1]) <= 0;
        Transitive(cmp, s[k], s[|s| - 1], x);
      }
    }
    SortedSnocBelow(s, x, cmp);
  }

  /** The result of `Sort` is in non-decreasing order under a consistent comparator. */
  lemma {:induction false} SortSorted<T(!new)>(s: seq<T>, cmp: (T, T) -> int)
    requires IsComparator(cmp)
    ensures Sorted(Sort(s, cmp), cmp)
    decreases |s|
  {
    if s != [] {
      SortSorted(s[..|s| - 1], cmp);
      InsertSorted(Sort(s[..|s| - 1], cmp), s[|s| - 1], cmp);
    }
  }

  lemma TiedSingle<T>(x: T, cmp: (T, T) -> int, e: T)
    ensures Tied([x], cmp, e) == if cmp(x, e) == 0 then [x] else []
  {
    assert [x][..0] == [];
  }

  /** Two elements that both tie with `e` tie with each other. */
  lemma TiedTogether<T(!new)>(x: T, y: T, cmp: (T, T) -> int, e: T)
    requires IsComparator(cmp)
    requires cmp(x, e) == 0 && cmp(y, e) == 0
    ensures cmp(y, x) <= 0
  {
    assert cmp(e, x) <= 0;
    Transitive(cmp, y, e, x);
  }

  /** Inserting `x` behind an element that compares above it, where at most one of the
      two ties with `e`. */
  lemma InsertStableStep<T>(init: seq<T>, last: T, x: T, cmp: (T, T) -> int, e: T)
    requires cmp(last, x) > 0
    requires Tied(Insert(init, x, cmp), cmp, e) == Tied(init, cmp, e) + Tied([x], cmp, e)
    requires cmp(x, e) != 0 || cmp(last, e) != 0
    ensures Tied(Insert(init + [last], x, cmp), cmp, e) == Tied(init + [last], cmp, e) + Tied([x], cmp, e)
  {
    var s := init + [last];
    var a, b := Insert(init, x, cmp), Tied(init, cmp, e);
    assert s[..|s| - 1] == init && s[|s| - 1] == last;
    assert Insert(s, x, cmp) == a + [last];
    TiedAppend(a, [last], cmp, e);
    TiedAppend(init, [last], cmp, e);
    TiedSingle(x, cmp, e);
    TiedSingle(last, cmp, e);
    if cmp(x, e) != 0 {
      assert Tied([x], cmp, e) == [];
      assert Tied(a, cmp, e) == b;
      assert b + [] == b;
    } else {
      assert Tied([last], cmp, e) == [];
      assert Tied(s, cmp, e) == b + [];
      assert b + [] == b;
    }
  }

  lemma {:induction false} InsertStable<T(!new)>(s: seq<T>, x: T, cmp: (T, T) -> int, e: T)
    requires IsComparator(cmp)
    ensures Tied(Insert(s, x, cmp), cmp, e) == Tied(s, cmp, e) + Tied([x], cmp, e)
    decreases |s|
  {
    if s == [] {
      assert Tied([x], cmp, e) == Tied([], cmp, e) + Tied([x], cmp, e);
    } else if cmp(s[|s| - 1], x) > 0 {
      var init, last := s[..|s| - 1], s[|s| - 1];
      assert init + [last] == s;
      InsertStable(init, x, cmp, e);
      if cmp(x, e) == 0 && cmp(last, e) == 0 {
        TiedTogether(x, last, cmp, e);
      }
      InsertStableStep(init, last, x, cmp, e);
    } else {
      assert Insert(s, x, cmp) == s + [x];
      TiedAppend(s, [x], cmp, e);
    }
  }

  /** Stability: for each element `e`, the elements tied with `e` keep their input order. */
  lemma {:induction false} SortStable<T(!new)>(s: seq<T>, cmp: (T, T) -> int, e: T)
    requires IsComparator(cmp)
    ensures Tied(Sort(s, cmp), cmp, e) == Tied(s, cmp, e)
    decreases |s|
  {
    if s != [] {
      var init, last := s[..|s| - 1], s[|s| - 1];
      assert init + [last] == s;
      assert Sort(s, cmp) == Insert(Sort(init, cmp), last, cmp);
      SortStable(init, cmp, e);
      InsertStable(Sort(init, cmp), last, cmp, e);
      TiedAppend(init, [last], cmp, e);
    }
  }
}
