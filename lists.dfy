/** A loop that appends, for each element of a list, the zero or more items it gives,
    and the positions of the elements that gave something. */
module Lists {

  /** The items `f` gives for the elements of `s`, in order. */
  function Collect<T, U>(s: seq<T>, f: T -> seq<U>): seq<U> {
    if s == [] then [] else Collect(s[..|s| - 1], f) + f(s[|s| - 1])
  }

  /** The indices of the elements of `s` for which `f` gives something. */
  function Kept<T, U>(s: seq<T>, f: T -> seq<U>): seq<nat> {
    if s == [] then []
    else Kept(s[..|s| - 1], f) + (if f(s[|s| - 1]) != [] then [|s| - 1] else [])
  }

  ghost predicate Increasing(idx: seq<nat>) {
    forall k, l :: 0 <= k < l < |idx| ==> idx[k] < idx[l]
  }

  /** `f` gives at most one item for each element of `s`. */
  ghost predicate AtMostOne<T, U>(s: seq<T>, f: T -> seq<U>) {
    forall k :: 0 <= k < |s| ==> |f(s[k])| <= 1
  }

  /** The loop one element further. */
  lemma CollectPrefix<T, U>(s: seq<T>, i: nat, f: T -> seq<U>)
    requires i < |s|
    ensures Collect(s[..i + 1], f) == Collect(s[..i], f) + f(s[i])
  {
    assert s[..i + 1][..i] == s[..i];
  }

  /** Elements are handled independently: splitting the list splits the items. */
  lemma {:induction false} CollectAppend<T, U>(a: seq<T>, b: seq<T>, f: T -> seq<U>)
    ensures Collect(a + b, f) == Collect(a, f) + Collect(b, f)
    decreases |b|
  {
    if b == [] {
      assert a + b == a;
    } else {
      var init := b[..|b| - 1];
      assert (a + b)[..|a + b| - 1] == a + init;
      CollectAppend(a, init, f);
      assert Collect(a + b, f) == Collect(a + init, f) + f(b[|b| - 1]);
    }
  }

  /** Every item comes from some element. */
  lemma {:induction false} CollectFrom<T, U>(s: seq<T>, f: T -> seq<U>, u: U)
    requires u in Collect(s, f)
    ensures exists k :: 0 <= k < |s| && u in f(s[k])
    decreases |s|
  {
    var init := s[..|s| - 1];
    if u in Collect(init, f) {
      CollectFrom(init, f, u);
      var k :| 0 <= k < |init| && u in f(init[k]);
      assert s[k] == init[k];
    } else {
      assert u in f(s[|s| - 1]);
    }
  }

  /** The kept indices are increasing and in range. */
  lemma {:induction false} KeptIncreasing<T, U>(s: seq<T>, f: T -> seq<U>)
    ensures Increasing(Kept(s, f))
    ensures forall k :: 0 <= k < |Kept(s, f)| ==> Kept(s, f)[k] < |s|
    decreases |s|
  {
    if s != [] {
      var init := s[..|s| - 1];
      KeptIncreasing(init, f);
      var idx0 := Kept(init, f);
      if f(s[|s| - 1]) != [] {
        var idx := idx0 + [|s| - 1];
        assert Kept(s, f) == idx;
        assert forall k :: 0 <= k < |idx0| ==> idx[k] == idx0[k] < |init|;
      } else {
        assert Kept(s, f) == idx0 + [] == idx0;
      }
    }
  }

  /** When each element gives at most one item, there is one kept index per item and
      the item at position `k` is the one its element at `Kept(s, f)[k]` gives. */
  lemma {:induction false} KeptGives<T, U>(s: seq<T>, f: T -> seq<U>)
    requires AtMostOne(s, f)
    ensures |Kept(s, f)| == |Collect(s, f)|
    ensures forall k :: 0 <= k < |Kept(s, f)| ==>
      Kept(s, f)[k] < |s| && f(s[Kept(s, f)[k]]) == [Collect(s, f)[k]]
    decreases |s|
  {
    if s != [] {
      var init, last := s[..|s| - 1], s[|s| - 1];
      assert AtMostOne(init, f) by {
        forall k | 0 <= k < |init| ensures |f(init[k])| <= 1 {
          assert init[k] == s[k];
        }
      }
      KeptGives(init, f);
      assert |f(s[|s| - 1])| <= 1;
      var idx0, r0 := Kept(init, f), Collect(init, f);
      var idx, r := Kept(s, f), Collect(s, f);
      assert r == r0 + f(last);
      assert idx == idx0 + (if f(last) != [] then [|s| - 1] else []);
      forall k | 0 <= k < |idx| ensures idx[k] < |s| && f(s[idx[k]]) == [r[k]] {
        if k < |idx0| {
          assert idx[k] == idx0[k] && r[k] == r0[k];
          assert s[idx[k]] == init[idx0[k]];
        } else {
          assert idx[k] == |s| - 1 && r[k] == f(last)[0];
        }
      }
    }
  }

  /** The elements whose index is not kept give nothing. */
  lemma {:induction false} KeptOthers<T, U>(s: seq<T>, f: T -> seq<U>)
    ensures forall i :: 0 <= i < |s| && i !in Kept(s, f) ==> f(s[i]) == []
    decreases |s|
  {
    if s != [] {
      var init := s[..|s| - 1];
      KeptOthers(init, f);
      forall i | 0 <= i < |s| && i !in Kept(s, f) ensures f(s[i]) == [] {
        if i < |s| - 1 {
          assert i !in Kept(init, f);
          assert s[i] == init[i];
        }
      }
    }
  }
}
