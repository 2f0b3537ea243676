/** String helpers shared by the diff engine, the preprocessor and the list state:
    JavaScript's white space (the class `\s` and what `String.prototype.trim` removes),
    ASCII lower-casing, substring search and joining. */
module Text {

  /** ECMAScript WhiteSpace and LineTerminator code points: exactly what `\s` matches
      and what `trim` strips. */
  predicate IsSpace(c: char) {
    var n := c as int;
    n == 0x09 || n == 0x0A || n == 0x0B || n == 0x0C || n == 0x0D || n == 0x20
    || n == 0xA0 || n == 0x1680 || (0x2000 <= n <= 0x200A) || n == 0x2028 || n == 0x2029
    || n == 0x202F || n == 0x205F || n == 0x3000 || n == 0xFEFF
  }

  predicate IsDigit(c: char) {
    '0' <= c <= '9'
  }

  predicate IsUpper(c: char) {
    'A' <= c <= 'Z'
  }

  predicate NoSpace(s: string) {
    forall i :: 0 <= i < |s| ==> !IsSpace(s[i])
  }

  predicate AllSpace(s: string) {
    forall i :: 0 <= i < |s| ==> IsSpace(s[i])
  }

  /** Drops leading white space. */
  function TrimStart(s: string): (r: string)
    ensures |r| <= |s| && r == s[|s| - |r|..]
    ensures r == [] || !IsSpace(r[0])
    ensures AllSpace(s[..|s| - |r|])
  {
    if s != [] && IsSpace(s[0]) then
      var r := TrimStart(s[1..]);
      assert s[..|s| - |r|] == [s[0]] + s[1..][..|s| - 1 - |r|];
      assert s[|s| - |r|..] == s[1..][|s| - 1 - |r|..];
      r
    else
      assert s[..0] == [];
      s
  }

  /** Drops trailing white space. */
  function TrimEnd(s: string): (r: string)
    ensures |r| <= |s| && r == s[..|r|]
    ensures r == [] || !IsSpace(r[|r| - 1])
    ensures AllSpace(s[|r|..])
  {
    if s != [] && IsSpace(s[|s| - 1]) then
      var r := TrimEnd(s[..|s| - 1]);
      assert s[|r|..] == s[..|s| - 1][|r|..] + [s[|s| - 1]];
      assert s[..|r|] == s[..|s| - 1][..|r|];
      r
    else
      assert s[|s|..] == [];
      s
  }

  /** `String.prototype.trim`. */
  function Trim(s: string): (r: string)
  {
    TrimEnd(TrimStart(s))
  }

  /** A string is blank (its trim is empty, so it is falsy after trimming) exactly
      when it is made of white space only; a string without white space trims to itself. */
  lemma TrimBlank(s: string)
    ensures Trim(s) == [] <==> AllSpace(s)
    ensures NoSpace(s) ==> Trim(s) == s
    ensures Trim(s) == [] || (!IsSpace(Trim(s)[0]) && !IsSpace(Trim(s)[|Trim(s)| - 1]))
  {
    TrimStartBlank(s);
    var t := TrimStart(s);
    TrimEndBlank(t);
    if Trim(s) != [] {
      assert Trim(s)[0] == t[0];
    }
  }

  lemma {:induction false} TrimStartBlank(s: string)
    ensures TrimStart(s) == [] <==> AllSpace(s)
    ensures NoSpace(s) ==> TrimStart(s) == s
    decreases |s|
  {
    if s != [] && IsSpace(s[0]) {
      TrimStartBlank(s[1..]);
      assert AllSpace(s) <==> AllSpace(s[1..]);
    }
  }

  lemma {:induction false} TrimEndBlank(s: string)
    ensures TrimEnd(s) == [] <==> AllSpace(s)
    ensures NoSpace(s) ==> TrimEnd(s) == s
    decreases |s|
  {
    if s != [] && IsSpace(s[|s| - 1]) {
      TrimEndBlank(s[..|s| - 1]);
      assert AllSpace(s) <==> AllSpace(s[..|s| - 1]);
    }
  }

  function LowerChar(c: char): (r: char)
    ensures IsUpper(c) ==> r as int == c as int + 32
    ensures !IsUpper(r)
    ensures !IsUpper(c) ==> r == c
    ensures IsSpace(r) <==> IsSpace(c)
  {
    if IsUpper(c) then (c as int + 32) as char else c
  }

  /** `String.prototype.toLowerCase`, restricted to the ASCII letters. */
  function ToLower(s: string): (r: string)
    ensures |r| == |s|
    ensures forall i :: 0 <= i < |r| ==> !IsUpper(r[i])
    ensures forall i :: 0 <= i < |r| ==> (IsSpace(r[i]) <==> IsSpace(s[i]))
    ensures forall i :: 0 <= i < |r| ==> (!IsUpper(s[i]) ==> r[i] == s[i])
    ensures forall i :: 0 <= i < |r| ==> (IsUpper(s[i]) ==> r[i] as int == s[i] as int + 32)
  {
    seq(|s|, i requires 0 <= i < |s| => LowerChar(s[i]))
  }

  /** Lower-casing is idempotent. */
  lemma ToLowerIdempotent(s: string)
    ensures ToLower(ToLower(s)) == ToLower(s)
  {
  }

  /** `s.includes(q)`: `q` occurs in `s` at some offset. */
  predicate Contains(s: string, q: string)
    decreases |s|
  {
    q <= s || (s != [] && Contains(s[1..], q))
  }

  predicate OccursAt(s: string, q: string, k: nat) {
    k + |q| <= |s| && s[k..k + |q|] == q
  }

  /** `Contains` holds exactly when `q` occurs in `s` at some offset. */
  lemma {:induction false} ContainsAt(s: string, q: string)
    ensures Contains(s, q) <==> exists k: nat :: OccursAt(s, q, k)
    decreases |s|
  {
    if q <= s {
      assert OccursAt(s, q, 0);
    } else if s == [] {
    } else {
      ContainsAt(s[1..], q);
      if Contains(s[1..], q) {
        var k: nat :| OccursAt(s[1..], q, k);
        assert OccursAt(s, q, k + 1);
      } else if exists k: nat :: OccursAt(s, q, k) {
        var k: nat :| OccursAt(s, q, k);
        assert k != 0;
        assert OccursAt(s[1..], q, k - 1);
      }
    }
  }

  /** `xs.join(sep)`. */
  function Join(xs: seq<string>, sep: string): string
  {
    if |xs| == 0 then ""
    else if |xs| == 1 then xs[0]
    else Join(xs[..|xs| - 1], sep) + sep + xs[|xs| - 1]
  }

  /** `s.split(sep)` for a one-character separator. */
  function SplitAt(s: string, sep: char): (r: seq<string>)
    ensures |r| >= 1
    ensures forall k :: 0 <= k < |r| ==> sep !in r[k]
    decreases |s|
  {
    if s == [] then [""]
    else
      var rest := SplitAt(s[1..], sep);
      if s[0] == sep then [""] + rest
      else [[s[0]] + rest[0]] + rest[1..]
  }

  /** Joining the pieces of a split with the separator gives back the string. */
  lemma {:induction false} SplitAtJoin(s: string, sep: char)
    ensures Join(SplitAt(s, sep), [sep]) == s
    decreases |s|
  {
    if s != [] {
      var rest := SplitAt(s[1..], sep);
      SplitAtJoin(s[1..], sep);
      if s[0] == sep {
        JoinCons("", rest, [sep]);
      } else {
        JoinHead(s[0], rest, [sep]);
        assert [[s[0]] + rest[0]] + rest[1..] == SplitAt(s, sep);
      }
    }
  }

  /** Joining a list with one more element in front. */
  lemma {:induction false} JoinCons(x: string, xs: seq<string>, sep: string)
    requires |xs| >= 1
    ensures Join([x] + xs, sep) == x + sep + Join(xs, sep)
    decreases |xs|
  {
    if |xs| == 1 {
      assert ([x] + xs)[..1] == [x];
    } else {
      assert ([x] + xs)[..|[x] + xs| - 1] == [x] + xs[..|xs| - 1];
      JoinCons(x, xs[..|xs| - 1], sep);
    }
  }

  /** Joining a list whose first element gets one more character in front. */
  lemma {:induction false} JoinHead(c: char, xs: seq<string>, sep: string)
    requires |xs| >= 1
    ensures Join([[c] + xs[0]] + xs[1..], sep) == [c] + Join(xs, sep)
    decreases |xs|
  {
    if |xs| == 1 {
    } else {
      var ys := [[c] + xs[0]] + xs[1..];
      assert ys[..|ys| - 1] == [[c] + xs[..|xs| - 1][0]] + xs[..|xs| - 1][1..];
      JoinHead(c, xs[..|xs| - 1], sep);
    }
  }

  /** Joining a list with one more element at the end. */
  lemma JoinSnoc(xs: seq<string>, x: string, sep: string)
    ensures Join(xs + [x], sep) == if xs == [] then x else Join(xs, sep) + sep + x
  {
    assert (xs + [x])[..|xs|] == xs;
  }

  /** Joining a list whose last element gets `sep + t` appended. */
  lemma JoinExtendLast(xs: seq<string>, t: string, sep: string)
    requires xs != []
    ensures Join(xs[..|xs| - 1] + [xs[|xs| - 1] + sep + t], sep) == Join(xs, sep) + sep + t
  {
    var init := xs[..|xs| - 1];
    JoinSnoc(init, xs[|xs| - 1] + sep + t, sep);
    JoinSnoc(init, xs[|xs| - 1], sep);
    assert init + [xs[|xs| - 1]] == xs;
  }

  /** Joining strings that each end in `c` with `sep` is joining them without that `c`
      with `c` before `sep`, then `c`. */
  lemma {:induction false} JoinSuffixed(xs: seq<string>, ys: seq<string>, c: char, sep: string)
    requires |xs| == |ys| >= 1
    requires forall k :: 0 <= k < |xs| ==> ys[k] == xs[k] + [c]
    ensures Join(ys, sep) == Join(xs, [c] + sep) + [c]
    decreases |xs|
  {
    var n := |xs|;
    if n > 1 {
      JoinSuffixed(xs[..n - 1], ys[..n - 1], c, sep);
      assert Join(ys, sep) == Join(xs[..n - 1], [c] + sep) + [c] + sep + (xs[n - 1] + [c]);
    }
  }

  /** The same with the last string left as it is. */
  lemma JoinSuffixedButLast(xs: seq<string>, ys: seq<string>, c: char, sep: string)
    requires |xs| == |ys| >= 1
    requires forall k :: 0 <= k < |xs| - 1 ==> ys[k] == xs[k] + [c]
    requires ys[|ys| - 1] == xs[|xs| - 1]
    ensures Join(ys, sep) == Join(xs, [c] + sep)
  {
    var n := |xs|;
    if n > 1 {
      var xinit, yinit, last := xs[..n - 1], ys[..n - 1], xs[n - 1];
      JoinSuffixed(xinit, yinit, c, sep);
      assert Join(xs, [c] + sep) == Join(xinit, [c] + sep) + ([c] + sep) + last;
      assert Join(ys, sep) == Join(yinit, sep) + sep + last;
      Regroup(Join(xinit, [c] + sep), [c], sep, last);
    }
  }

  /** Regrouping a concatenation of four sequences. */
  lemma Regroup<T>(w: seq<T>, x: seq<T>, y: seq<T>, z: seq<T>)
    ensures w + (x + y + z) == w + x + y + z
    ensures w + x + y + z == w + (x + y) + z
  {
  }
}
