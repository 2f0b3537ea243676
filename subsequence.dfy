/** The longest-common-subsequence matcher behind `lcs` in src/lib/diff.ts, generic in
    the element type and in the key through which elements are compared. */
module Subsequence {

  /** The key of every element, in order. */
  function Keys<T, K>(s: seq<T>, key: T -> K): (r: seq<K>)
    ensures |r| == |s|
    ensures forall i :: 0 <= i < |s| ==> r[i] == key(s[i])
  {
    seq(|s|, i requires 0 <= i < |s| => key(s[i]))
  }

  function Max(x: nat, y: nat): nat {
    if x >= y then x else y
  }

  /** `dp[i][j]`: the length of a longest common subsequence of `a[..i]` and `b[..j]`. */
  function Table<T(==)>(a: seq<T>, b: seq<T>, i: nat, j: nat): (r: nat)
    requires i <= |a| && j <= |b|
    ensures r <= i && r <= j
    decreases i + j
  {
    if i == 0 || j == 0 then 0
    else if a[i - 1] == b[j - 1] then Table(a, b, i - 1, j - 1) + 1
    else Max(Table(a, b, i - 1, j), Table(a, b, i, j - 1))
  }

  /** The pairs the backtrack of `lcs` collects when it starts at `(i, j)`: a match is
      always taken, otherwise it steps along `a` only when `dp[i-1][j] > dp[i][j-1]`,
      and along `b` on a tie. */
  function Backtrack<T(==)>(a: seq<T>, b: seq<T>, i: nat, j: nat): seq<(nat, nat)>
    requires i <= |a| && j <= |b|
    decreases i + j
  {
    if i == 0 || j == 0 then []
    else if a[i - 1] == b[j - 1] then Backtrack(a, b, i - 1, j - 1) + [(i - 1, j - 1)]
    else if Table(a, b, i - 1, j) > Table(a, b, i, j - 1) then Backtrack(a, b, i - 1, j)
    else Backtrack(a, b, i, j - 1)
  }

  /** `ps` pairs `a[..i]` with `b[..j]`: indices in range, strictly increasing in
      both components, and every pair equal. */
  ghost predicate CommonWithin<T>(a: seq<T>, b: seq<T>, ps: seq<(nat, nat)>, i: nat, j: nat) {
    && (forall k :: 0 <= k < |ps| ==> ps[k].0 < i && ps[k].1 < j)
    && (forall k :: 0 <= k < |ps| ==> ps[k].0 < |a| && ps[k].1 < |b| && a[ps[k].0] == b[ps[k].1])
    && (forall k, l :: 0 <= k < l < |ps| ==> ps[k].0 < ps[l].0 && ps[k].1 < ps[l].1)
  }

  ghost predicate IsCommon<T>(a: seq<T>, b: seq<T>, ps: seq<(nat, nat)>) {
    CommonWithin(a, b, ps, |a|, |b|)
  }

  /** A common subsequence within a smaller prefix pair is one within a larger one. */
  lemma CommonWiden<T>(a: seq<T>, b: seq<T>, ps: seq<(nat, nat)>, i: nat, j: nat, i2: nat, j2: nat)
    requires CommonWithin(a, b, ps, i, j) && i <= i2 && j <= j2
    ensures CommonWithin(a, b, ps, i2, j2)
  {
  }

  /** A common subsequence within `(i-1, j-1)` extends by the matching pair `(i-1, j-1)`. */
  lemma CommonSnoc<T>(a: seq<T>, b: seq<T>, ps: seq<(nat, nat)>, i: nat, j: nat)
    requires 0 < i <= |a| && 0 < j <= |b| && a[i - 1] == b[j - 1]
    requires CommonWithin(a, b, ps, i - 1, j - 1)
    ensures CommonWithin(a, b, ps + [(i - 1, j - 1)], i, j)
  {
    var qs := ps + [(i - 1, j - 1)];
    forall k, l | 0 <= k < l < |qs| ensures qs[k].0 < qs[l].0 && qs[k].1 < qs[l].1 {
      assert qs[k] == ps[k];
    }
  }

  /** The backtrack yields a common subsequence of length `dp[i][j]`. */
  lemma {:induction false} BacktrackCommon<T>(a: seq<T>, b: seq<T>, i: nat, j: nat)
    requires i <= |a| && j <= |b|
    ensures CommonWithin(a, b, Backtrack(a, b, i, j), i, j)
    ensures |Backtrack(a, b, i, j)| == Table(a, b, i, j)
    decreases i + j
  {
    if i == 0 || j == 0 {
    } else if a[i - 1] == b[j - 1] {
      BacktrackCommon(a, b, i - 1, j - 1);
      CommonSnoc(a, b, Backtrack(a, b, i - 1, j - 1), i, j);
      assert Backtrack(a, b, i, j) == Backtrack(a, b, i - 1, j - 1) + [(i - 1, j - 1)];
    } else if Table(a, b, i - 1, j) > Table(a, b, i, j - 1) {
      BacktrackCommon(a, b, i - 1, j);
      CommonWiden(a, b, Backtrack(a, b, i - 1, j), i - 1, j, i, j);
      assert Backtrack(a, b, i, j) == Backtrack(a, b, i - 1, j);
      assert Table(a, b, i, j) == Table(a, b, i - 1, j);
    } else {
      BacktrackCommon(a, b, i, j - 1);
      CommonWiden(a, b, Backtrack(a, b, i, j - 1), i, j - 1, i, j);
      assert Backtrack(a, b, i, j) == Backtrack(a, b, i, j - 1);
      assert Table(a, b, i, j) == Table(a, b, i, j - 1);
    }
  }

  /** The pairs of the full backtrack index into `a` and `b` and increase strictly in
      both components. */
  lemma BacktrackIndices<T>(a: seq<T>, b: seq<T>)
    ensures var ps := Backtrack(a, b, |a|, |b|);
      && (forall k :: 0 <= k < |ps| ==> ps[k].0 < |a| && ps[k].1 < |b|)
      && (forall k, l :: 0 <= k < l < |ps| ==> ps[k].0 < ps[l].0 && ps[k].1 < ps[l].1)
  {
    BacktrackCommon(a, b, |a|, |b|);
  }

  /** No common subsequence of `a[..i]` and `b[..j]` is longer than `dp[i][j]`. */
  lemma {:induction false} TableIsMaximal<T>(a: seq<T>, b: seq<T>, i: nat, j: nat, ps: seq<(nat, nat)>)
    requires i <= |a| && j <= |b|
    requires CommonWithin(a, b, ps, i, j)
    ensures |ps| <= Table(a, b, i, j)
    decreases i + j
  {
    if ps != [] {
      assert ps[0].0 < i && ps[0].1 < j;
    }
    if i == 0 || j == 0 || ps == [] {
    } else {
      var last := ps[|ps| - 1];
      var init := ps[..|ps| - 1];
      if a[i - 1] == b[j - 1] {
        if last.0 == i - 1 || last.1 == j - 1 {
          // Drop the last pair: what remains fits in (i-1, j-1).
          CommonDropLast(a, b, ps, i, j);
          TableIsMaximal(a, b, i - 1, j - 1, init);
        } else {
          CommonShrink(a, b, ps, i, j, i - 1, j - 1);
          TableIsMaximal(a, b, i - 1, j - 1, ps);
        }
        assert Table(a, b, i, j) == Table(a, b, i - 1, j - 1) + 1;
      } else if last.0 < i - 1 {
        CommonShrink(a, b, ps, i, j, i - 1, j);
        TableIsMaximal(a, b, i - 1, j, ps);
        assert Table(a, b, i, j) >= Table(a, b, i - 1, j);
      } else {
        assert last.1 < j - 1;
        CommonShrink(a, b, ps, i, j, i, j - 1);
        TableIsMaximal(a, b, i, j - 1, ps);
        assert Table(a, b, i, j) >= Table(a, b, i, j - 1);
      }
    }
  }

  /** A common subsequence whose last pair lies within a smaller prefix pair lies
      within it entirely. */
  lemma CommonShrink<T>(a: seq<T>, b: seq<T>, ps: seq<(nat, nat)>, i: nat, j: nat, i2: nat, j2: nat)
    requires CommonWithin(a, b, ps, i, j)
    requires ps != [] && ps[|ps| - 1].0 < i2 && ps[|ps| - 1].1 < j2
    ensures CommonWithin(a, b, ps, i2, j2)
  {
    forall k | 0 <= k < |ps| ensures ps[k].0 < i2 && ps[k].1 < j2 {
      if k < |ps| - 1 {
        assert ps[k].0 < ps[|ps| - 1].0 && ps[k].1 < ps[|ps| - 1].1;
      }
    }
  }

  /** Dropping the last pair of a common subsequence within `(i, j)` leaves one within
      `(i-1, j-1)`. */
  lemma CommonDropLast<T>(a: seq<T>, b: seq<T>, ps: seq<(nat, nat)>, i: nat, j: nat)
    requires 0 < i && 0 < j && ps != []
    requires CommonWithin(a, b, ps, i, j)
    ensures CommonWithin(a, b, ps[..|ps| - 1], i - 1, j - 1)
  {
    var init := ps[..|ps| - 1];
    forall k | 0 <= k < |init| ensures init[k].0 < i - 1 && init[k].1 < j - 1 {
      assert init[k] == ps[k];
      assert ps[k].0 < ps[|ps| - 1].0 && ps[k].1 < ps[|ps| - 1].1;
    }
    forall k, l | 0 <= k < l < |init| ensures init[k].0 < init[l].0 && init[k].1 < init[l].1 {
      assert init[k] == ps[k] && init[l] == ps[l];
    }
  }

  /** The pairs `(0, 0), (1, 1), …, (n-1, n-1)`. */
  function Diagonal(n: nat): (r: seq<(nat, nat)>)
    ensures |r| == n
    ensures forall k :: 0 <= k < n ==> r[k] == (k, k)
  {
    if n == 0 then [] else Diagonal(n - 1) + [(n - 1, n - 1)]
  }

  lemma {:induction false} BacktrackOfSelf<T>(a: seq<T>, i: nat)
    requires i <= |a|
    ensures Backtrack(a, a, i, i) == Diagonal(i)
    decreases i
  {
    if i > 0 {
      BacktrackOfSelf(a, i - 1);
    }
  }

  /** The first half of `lcs`: fills the `(m+1)×(n+1)` table row by row, comparing
      elements only through their keys. */
  method LcsTable<T, K(==)>(a: seq<T>, b: seq<T>, key: T -> K) returns (dp: array2<nat>)
    ensures fresh(dp)
    ensures dp.Length0 == |a| + 1 && dp.Length1 == |b| + 1
    ensures forall i', j' {:trigger dp[i', j']} :: 0 <= i' <= |a| && 0 <= j' <= |b| ==> dp[i', j'] == Table(Keys(a, key), Keys(b, key), i', j')
  {
    ghost var ka, kb := Keys(a, key), Keys(b, key);
    var m, n := |a|, |b|;
    dp := new nat[m + 1, n + 1]((_, _) => 0);
    for i := 1 to m + 1
      invariant forall i', j' {:trigger dp[i', j']} :: 0 <= i' < i && 0 <= j' <= n ==> dp[i', j'] == Table(ka, kb, i', j')
      invariant forall i' :: i <= i' <= m ==> dp[i', 0] == 0
    {
      FillRow(dp, a, b, key, i);
    }
  }

  /** One pass of the inner loop of `lcs`: row `i` of the table from row `i - 1`. */
  method FillRow<T, K(==)>(dp: array2<nat>, a: seq<T>, b: seq<T>, key: T -> K, i: nat)
    requires dp.Length0 == |a| + 1 && dp.Length1 == |b| + 1 && 1 <= i <= |a|
    requires forall i', j' {:trigger dp[i', j']} :: 0 <= i' < i && 0 <= j' <= |b| ==> dp[i', j'] == Table(Keys(a, key), Keys(b, key), i', j')
    requires dp[i, 0] == 0
    modifies dp
    ensures forall j' {:trigger dp[i, j']} :: 0 <= j' <= |b| ==> dp[i, j'] == Table(Keys(a, key), Keys(b, key), i, j')
    ensures forall i', j' :: 0 <= i' <= |a| && 0 <= j' <= |b| && i' != i ==> dp[i', j'] == old(dp[i', j'])
  {
    ghost var ka, kb := Keys(a, key), Keys(b, key);
    for j := 1 to |b| + 1
      invariant forall j' {:trigger dp[i, j']} :: 0 <= j' < j ==> dp[i, j'] == Table(ka, kb, i, j')
      invariant forall i', j' :: 0 <= i' <= |a| && 0 <= j' <= |b| && i' != i ==> dp[i', j'] == old(dp[i', j'])
    {
      assert ka[i - 1] == key(a[i - 1]) && kb[j - 1] == key(b[j - 1]);
      assert dp[i - 1, j - 1] == Table(ka, kb, i - 1, j - 1) && dp[i - 1, j] == Table(ka, kb, i - 1, j);
      var v;
      if key(a[i - 1]) == key(b[j - 1]) {
        v := dp[i - 1, j - 1] + 1;
      } else {
        v := Max(dp[i - 1, j], dp[i, j - 1]);
      }
      assert v == Table(ka, kb, i, j);
      dp[i, j] := v;
    }
  }

  /** `lcs`: fills the table, then walks back from `(m, n)`, putting each match at the
      front of the list. */
  method Lcs<T, K(==)>(a: seq<T>, b: seq<T>, key: T -> K) returns (matches: seq<(nat, nat)>)
    ensures matches == Backtrack(Keys(a, key), Keys(b, key), |a|, |b|)
  {
    ghost var ka, kb := Keys(a, key), Keys(b, key);
    var dp := LcsTable(a, b, key);
    var m, n := |a|, |b|;
    matches := [];
    var i: nat, j: nat := m, n;
    ghost var all := Backtrack(ka, kb, m, n);
    while i > 0 && j > 0
      invariant i <= m && j <= n
      invariant all == Backtrack(ka, kb, i, j) + matches
      decreases i + j
    {
      assert ka[i - 1] == key(a[i - 1]) && kb[j - 1] == key(b[j - 1]);
      if key(a[i - 1]) == key(b[j - 1]) {
        var pair: (nat, nat) := (i - 1, j - 1);
        ghost var rest := Backtrack(ka, kb, i - 1, j - 1);
        assert Backtrack(ka, kb, i, j) == rest + [pair];
        assert rest + [pair] + matches == rest + ([pair] + matches);
        matches := [pair] + matches;
        i, j := i - 1, j - 1;
      } else if dp[i - 1, j] > dp[i, j - 1] {
        assert dp[i - 1, j] == Table(ka, kb, i - 1, j) && dp[i, j - 1] == Table(ka, kb, i, j - 1);
        assert Backtrack(ka, kb, i, j) == Backtrack(ka, kb, i - 1, j);
        i := i - 1;
      } else {
        assert dp[i - 1, j] == Table(ka, kb, i - 1, j) && dp[i, j - 1] == Table(ka, kb, i, j - 1);
        assert Backtrack(ka, kb, i, j) == Backtrack(ka, kb, i, j - 1);
        j := j - 1;
      }
    }
    assert Backtrack(ka, kb, i, j) == [];
  }
}
