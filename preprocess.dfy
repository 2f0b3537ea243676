/** The alignment preprocessor of scripts/preprocess.mjs: reading text files as
    lines, parsing alignment lines `[src]:[tgt]:score`, classifying and ordering the
    records, and the per-pair statistics. File contents are parameters (`None` when
    the file cannot be read). */
module Preprocess {
  import opened Text
  import opened Types
  import opened Sorting
  import opened Lists

  // ---------------------------------------------------------------------------
  // Lines

  predicate EndsWithCarriageReturn(s: string) {
    s != [] && s[|s| - 1] == '\r'
  }

  /** Drops one `'\r'` at the end of `s`. */
  function DropCarriageReturn(s: string): string {
    if EndsWithCarriageReturn(s) then s[..|s| - 1] else s
  }

  /** `content.split(/\r?\n/)`: split at every line feed; a carriage return just before
      a line feed belongs to the separator. */
  function SplitLines(content: string): (r: seq<string>)
    ensures |r| == |SplitAt(content, '\n')|
    ensures forall k :: 0 <= k < |r| ==> '\n' !in r[k]
  {
    var pieces := SplitAt(content, '\n');
    seq(|pieces|, k requires 0 <= k < |pieces| =>
      if k < |pieces| - 1 then DropCarriageReturn(pieces[k]) else pieces[k])
  }

  /** Number of occurrences of `c` in `s`. */
  function Occurrences(s: string, c: char): nat {
    if s == [] then 0 else (if s[0] == c then 1 else 0) + Occurrences(s[1..], c)
  }

  /** A split yields one piece more than there are separators. */
  lemma {:induction false} SplitAtCount(s: string, sep: char)
    ensures |SplitAt(s, sep)| == Occurrences(s, sep) + 1
    decreases |s|
  {
    if s != [] {
      SplitAtCount(s[1..], sep);
    }
  }

  /** A text has one line more than it has line feeds. */
  lemma LineCount(content: string)
    ensures |SplitLines(content)| == Occurrences(content, '\n') + 1
  {
    SplitAtCount(content, '\n');
  }

  /** The pieces of a split hold only characters of the string. */
  lemma {:induction false} SplitAtChars(s: string, sep: char, c: char)
    requires c !in s
    ensures forall k :: 0 <= k < |SplitAt(s, sep)| ==> c !in SplitAt(s, sep)[k]
    decreases |s|
  {
    if s != [] {
      SplitAtChars(s[1..], sep, c);
    }
  }

  /** Without carriage returns, the lines joined with line feeds give back the text. */
  lemma LinesJoin(content: string)
    requires '\r' !in content
    ensures Join(SplitLines(content), "\n") == content
  {
    var pieces := SplitAt(content, '\n');
    SplitAtChars(content, '\n', '\r');
    assert SplitLines(content) == pieces by {
      forall k | 0 <= k < |pieces| ensures SplitLines(content)[k] == pieces[k] {
        assert pieces[k] == [] || pieces[k][|pieces[k]| - 1] != '\r';
      }
    }
    SplitAtJoin(content, '\n');
  }

  /** Each line is the piece between two line feeds, less the carriage return that ends
      it if there is one; the last piece, which no line feed follows, is kept whole. */
  lemma LinePieces(content: string)
    ensures var pieces, lines := SplitAt(content, '\n'), SplitLines(content);
      (forall k :: 0 <= k < |lines| - 1 ==>
        pieces[k] == if EndsWithCarriageReturn(pieces[k]) then lines[k] + "\r" else lines[k])
      && lines[|lines| - 1] == pieces[|pieces| - 1]
  {
    var pieces, lines := SplitAt(content, '\n'), SplitLines(content);
    forall k | 0 <= k < |lines| - 1
      ensures pieces[k] == if EndsWithCarriageReturn(pieces[k]) then lines[k] + "\r" else lines[k]
    {
      if EndsWithCarriageReturn(pieces[k]) {
        assert pieces[k] == pieces[k][..|pieces[k]| - 1] + "\r";
      }
    }
  }

  /** A text whose every line break is CR LF: the lines joined with CR LF give back the
      text. */
  lemma LinesJoinCrlf(content: string)
    requires forall k :: 0 <= k < |SplitAt(content, '\n')| - 1 ==>
      EndsWithCarriageReturn(SplitAt(content, '\n')[k])
    ensures Join(SplitLines(content), "\r\n") == content
  {
    var pieces, lines := SplitAt(content, '\n'), SplitLines(content);
    LinePieces(content);
    SplitAtJoin(content, '\n');
    assert forall k :: 0 <= k < |lines| - 1 ==> pieces[k] == lines[k] + ['\r'];
    JoinSuffixedButLast(lines, pieces, '\r', "\n");
    assert ['\r'] + "\n" == "\r\n";
  }

  /** `loadTextFile`: the lines of the file, without the last one when it is blank;
      no lines when the file cannot be read. */
  function LoadTextFile(file: Option<string>): (r: seq<string>)
    ensures file.None? ==> r == []
    ensures file.Some? ==> DropsBlankLast(SplitLines(file.value), r)
  {
    match file
    case None => []
    case Some(content) => WithoutBlankLast(SplitLines(content))
  }

  /** `r` is `lines` with its last line removed exactly when that line is blank. */
  ghost predicate DropsBlankLast(lines: seq<string>, r: seq<string>) {
    && lines != []
    && |lines| - 1 <= |r| <= |lines|
    && r == lines[..|r|]
    && (|r| < |lines| <==> AllSpace(lines[|lines| - 1]))
  }

  function WithoutBlankLast(lines: seq<string>): (r: seq<string>)
    requires lines != []
    ensures DropsBlankLast(lines, r)
  {
    var last := lines[|lines| - 1];
    TrimBlank(last);
    if Trim(last) == [] then
      var init := lines[..|lines| - 1];
      assert |init| == |lines| - 1 && init[..|init|] == init;
      init
    else
      assert lines[..|lines|] == lines;
      lines
  }

  // ---------------------------------------------------------------------------
  // The alignment-line grammar `^\[([\d,]*)\]:\[([\d,]*)\]:([\d.]+)$`

  predicate IsListChar(c: char) {
    IsDigit(c) || c == ','
  }

  predicate IsScoreChar(c: char) {
    IsDigit(c) || c == '.'
  }

  predicate AllListChars(s: string) {
    forall i :: 0 <= i < |s| ==> IsListChar(s[i])
  }

  predicate AllScoreChars(s: string) {
    forall i :: 0 <= i < |s| ==> IsScoreChar(s[i])
  }

  predicate AllDigits(s: string) {
    forall i :: 0 <= i < |s| ==> IsDigit(s[i])
  }

  /** Length of the run of `[\d,]` at the start of `s`. */
  function ListRun(s: string): (n: nat)
    ensures n <= |s|
    ensures AllListChars(s[..n])
    ensures n == |s| || !IsListChar(s[n])
  {
    if s != [] && IsListChar(s[0]) then 1 + ListRun(s[1..]) else 0
  }

  /** Length of the run of digits at the start of `s`. */
  function DigitRun(s: string): (n: nat)
    ensures n <= |s|
    ensures AllDigits(s[..n])
    ensures n == |s| || !IsDigit(s[n])
  {
    if s != [] && IsDigit(s[0]) then 1 + DigitRun(s[1..]) else 0
  }

  /** The three capture groups of a match. */
  datatype Groups = Groups(src: string, tgt: string, score: string)

  /** The end of the pattern, `]:([\d.]+)$`: the score group. */
  function MatchScore(s: string): Option<string> {
    if |s| >= 3 && s[0] == ']' && s[1] == ':' && AllScoreChars(s[2..]) then Some(s[2..]) else None
  }

  /** The middle of the pattern, `]:\[([\d,]*)` followed by the end: the target and
      score groups. */
  function MatchTarget(s: string): Option<(string, string)> {
    if |s| < 3 || s[0] != ']' || s[1] != ':' || s[2] != '[' then None
    else
      var n := ListRun(s[3..]);
      match MatchScore(s[3 + n..])
      case None => None
      case Some(score) => Some((s[3..3 + n], score))
  }

  /** `line.match(...)`: the three groups, or `None` when the line does not match. */
  function MatchLine(line: string): Option<Groups> {
    if line == [] || line[0] != '[' then None
    else
      var n := ListRun(line[1..]);
      match MatchTarget(line[1 + n..])
      case None => None
      case Some(rest) => Some(Groups(line[1..1 + n], rest.0, rest.1))
  }

  /** The language of the pattern: `line` is `[g.src]:[g.tgt]:g.score` with the groups
      drawn from the pattern's character classes. */
  ghost predicate Spells(line: string, g: Groups) {
    && AllListChars(g.src)
    && AllListChars(g.tgt)
    && g.score != []
    && AllScoreChars(g.score)
    && line == "[" + (g.src + ("]:[" + (g.tgt + ("]:" + g.score))))
  }

  lemma MatchScoreSound(s: string, score: string)
    requires MatchScore(s) == Some(score)
    ensures score != [] && AllScoreChars(score) && s == "]:" + score
  {
    assert s == [s[0], s[1]] + s[2..];
  }

  lemma MatchScoreComplete(score: string)
    requires score != [] && AllScoreChars(score)
    ensures MatchScore("]:" + score) == Some(score)
  {
    var s := "]:" + score;
    assert s[2..] == score;
  }

  /** A run of list characters stops exactly at the first other character. */
  lemma {:induction false} ListRunStops(a: string, b: string)
    requires AllListChars(a)
    requires b != [] && !IsListChar(b[0])
    ensures ListRun(a + b) == |a|
    decreases |a|
  {
    if a != [] {
      assert (a + b)[0] == a[0] && IsListChar(a[0]);
      assert (a + b)[1..] == a[1..] + b;
      assert AllListChars(a[1..]) by {
        forall i | 0 <= i < |a| - 1 ensures IsListChar(a[1..][i]) {
          assert a[1..][i] == a[i + 1];
        }
      }
      ListRunStops(a[1..], b);
      assert ListRun(a + b) == 1 + ListRun(a[1..] + b);
    } else {
      assert a + b == b;
    }
  }

  lemma MatchTargetSound(s: string, tgt: string, score: string)
    requires MatchTarget(s) == Some((tgt, score))
    ensures AllListChars(tgt) && score != [] && AllScoreChars(score)
    ensures s == "]:[" + (tgt + ("]:" + score))
  {
    var n := ListRun(s[3..]);
    assert tgt == s[3..3 + n] == s[3..][..n];
    MatchScoreSound(s[3 + n..], score);
    assert s == [s[0], s[1], s[2]] + (s[3..3 + n] + s[3 + n..]);
  }

  lemma MatchTargetComplete(tgt: string, score: string)
    requires AllListChars(tgt) && score != [] && AllScoreChars(score)
    ensures MatchTarget("]:[" + (tgt + ("]:" + score))) == Some((tgt, score))
  {
    var rest := "]:" + score;
    var s := "]:[" + (tgt + rest);
    assert s[0] == ']' && s[1] == ':' && s[2] == '[';
    assert s[3..] == tgt + rest;
    ListRunStops(tgt, rest);
    assert ListRun(s[3..]) == |tgt|;
    assert s[3 + |tgt|..] == rest && s[3..3 + |tgt|] == tgt;
    MatchScoreComplete(score);
  }

  /** Every line `MatchLine` accepts is spelled by the pattern with the groups it
      returns. */
  lemma MatchLineSound(line: string, g: Groups)
    requires MatchLine(line) == Some(g)
    ensures Spells(line, g)
  {
    var n := ListRun(line[1..]);
    var t := MatchTarget(line[1 + n..]).value;
    assert g == Groups(line[1..1 + n], t.0, t.1);
    assert line[1..1 + n] == line[1..][..n];
    MatchTargetSound(line[1 + n..], t.0, t.1);
    Rejoin(line, n);
  }

  /** A line starting with `[` is the bracket, a first part of `n` characters and the rest. */
  lemma Rejoin(line: string, n: nat)
    requires 1 + n <= |line| && line[0] == '['
    ensures line == "[" + (line[1..1 + n] + line[1 + n..])
  {
    assert line == [line[0]] + line[1..];
    assert line[1..] == line[1..1 + n] + line[1 + n..];
  }

  /** Every line the pattern spells is accepted by `MatchLine`, with its groups. */
  lemma MatchLineComplete(line: string, g: Groups)
    requires Spells(line, g)
    ensures MatchLine(line) == Some(g)
  {
    var rest := "]:[" + (g.tgt + ("]:" + g.score));
    assert line[0] == '[';
    assert line[1..] == g.src + rest;
    ListRunStops(g.src, rest);
    assert ListRun(line[1..]) == |g.src|;
    assert line[1 + |g.src|..] == rest && line[1..1 + |g.src|] == g.src;
    MatchTargetComplete(g.tgt, g.score);
  }

  // ---------------------------------------------------------------------------
  // Numbers: `Number` on the pieces of a line list, `parseFloat` on the score

  function DigitValue(c: char): nat
    requires IsDigit(c)
  {
    c as int - '0' as int
  }

  /** `Number(ds)` for a string of decimal digits; `Number("")` is 0. */
  function DecimalValue(ds: string): nat
    requires AllDigits(ds)
  {
    if ds == [] then 0 else 10 * DecimalValue(ds[..|ds| - 1]) + DigitValue(ds[|ds| - 1])
  }

  /** The value of the digits after a decimal point: `0.d1d2...`. */
  function Fraction(ds: string): real
    requires AllDigits(ds)
  {
    if ds == [] then 0.0 else (DigitValue(ds[0]) as real + Fraction(ds[1..])) / 10.0
  }

  lemma {:induction false} FractionRange(ds: string)
    requires AllDigits(ds)
    ensures 0.0 <= Fraction(ds) < 1.0
    decreases |ds|
  {
    if ds != [] {
      FractionRange(ds[1..]);
    }
  }

  /** The pieces of a list group split at commas are digit strings. */
  lemma {:induction false} ListPiecesAreDigits(g: string)
    requires AllListChars(g)
    ensures forall k :: 0 <= k < |SplitAt(g, ',')| ==> AllDigits(SplitAt(g, ',')[k])
    decreases |g|
  {
    if g != [] {
      ListPiecesAreDigits(g[1..]);
      var rest := SplitAt(g[1..], ',');
      if g[0] != ',' {
        assert AllDigits([g[0]] + rest[0]);
      }
    }
  }

  /** `g ? g.split(',').map(Number) : []`: the line numbers of a list group, where an
      empty piece counts as line 0. */
  function NumberList(g: string): (r: seq<nat>)
    requires AllListChars(g)
    ensures g == [] ==> r == []
    ensures g != [] ==> |r| == |SplitAt(g, ',')| == Occurrences(g, ',') + 1
    ensures g != [] ==> forall k :: 0 <= k < |r| ==>
      AllDigits(SplitAt(g, ',')[k]) && r[k] == DecimalValue(SplitAt(g, ',')[k])
  {
    if g == [] then []
    else
      var pieces := SplitAt(g, ',');
      ListPiecesAreDigits(g);
      SplitAtCount(g, ',');
      seq(|pieces|, k requires 0 <= k < |pieces| => DecimalValue(pieces[k]))
  }

  /** `parseFloat` on a string of digits and points: the longest prefix that reads as
      a decimal number (digits, then optionally a point and more digits), or NaN when
      there is none. */
  function ParseFloat(s: string): Score {
    var n := DigitRun(s);
    var whole := s[..n];
    if n < |s| && s[n] == '.' then
      var m := DigitRun(s[n + 1..]);
      var frac := s[n + 1..][..m];
      if n == 0 && m == 0 then NaN
      else Finite(DecimalValue(whole) as real + Fraction(frac))
    else if n == 0 then NaN
    else Finite(DecimalValue(whole) as real)
  }

  /** A run of digits stops exactly at the first other character. */
  lemma {:induction false} DigitRunStops(a: string, b: string)
    requires AllDigits(a)
    requires b == [] || !IsDigit(b[0])
    ensures DigitRun(a + b) == |a|
    decreases |a|
  {
    if a != [] {
      assert (a + b)[0] == a[0] && IsDigit(a[0]);
      assert (a + b)[1..] == a[1..] + b;
      assert AllDigits(a[1..]) by {
        forall i | 0 <= i < |a| - 1 ensures IsDigit(a[1..][i]) {
          assert a[1..][i] == a[i + 1];
        }
      }
      DigitRunStops(a[1..], b);
      assert DigitRun(a + b) == 1 + DigitRun(a[1..] + b);
    } else {
      assert a + b == b;
    }
  }

  /** A whole number reads as itself. */
  lemma ParseFloatWhole(ds: string)
    requires ds != [] && AllDigits(ds)
    ensures ParseFloat(ds) == Finite(DecimalValue(ds) as real)
  {
    DigitRunStops(ds, []);
    assert ds + [] == ds && ds[..|ds|] == ds;
  }

  /** `w.f` followed by anything that does not continue the number (nothing, or another
      point) reads as `w + 0.f`; one of `w` and `f` may be empty. */
  lemma ParseFloatDecimal(w: string, f: string, rest: string)
    requires AllDigits(w) && AllDigits(f) && (w != [] || f != [])
    requires rest == [] || rest[0] == '.'
    ensures ParseFloat(w + ("." + (f + rest))) == Finite(DecimalValue(w) as real + Fraction(f))
  {
    var tail := f + rest;
    var s := w + ("." + tail);
    DigitRunStops(w, "." + tail);
    assert s[..|w|] == w && s[|w|] == '.';
    assert s[|w| + 1..] == tail;
    DigitRunStops(f, rest);
    assert tail[..|f|] == f;
    ParseFloatAt(s, w, f);
  }

  /** `parseFloat` on digits, a point and digits, given where the two runs stop. */
  lemma ParseFloatAt(s: string, w: string, f: string)
    requires AllDigits(w) && AllDigits(f) && (w != [] || f != [])
    requires |w| < |s| && DigitRun(s) == |w| && s[..|w|] == w && s[|w|] == '.'
    requires DigitRun(s[|w| + 1..]) == |f| && s[|w| + 1..][..|f|] == f
    ensures ParseFloat(s) == Finite(DecimalValue(w) as real + Fraction(f))
  {
  }

  /** On a score group, `parseFloat` gives NaN exactly when the group starts with a
      point that no digit follows. */
  lemma ParseFloatNaN(s: string)
    requires s != [] && AllScoreChars(s)
    ensures ParseFloat(s) == NaN <==> (s != [] && s[0] == '.' && (|s| == 1 || !IsDigit(s[1])))
  {
    var n := DigitRun(s);
    if n == 0 && s != [] && s[0] == '.' {
      assert s[1..] == [] || s[1..][0] == s[1];
    }
  }

  /** Every number `parseFloat` reads here is non-negative. */
  lemma ParseFloatNonNegative(s: string)
    ensures ParseFloat(s).Finite? ==> ParseFloat(s).value >= 0.0
  {
    var n := DigitRun(s);
    if n < |s| && s[n] == '.' {
      var m := DigitRun(s[n + 1..]);
      FractionRange(s[n + 1..][..m]);
    }
  }

  // ---------------------------------------------------------------------------
  // Classification and sort key

  /** The alignment type from the number of lines on each side. */
  function Classify(src: seq<nat>, tgt: seq<nat>): (k: AlignmentType)
    ensures k == Unmatched <==> (src == [] || tgt == [])
    ensures k == OneToOne <==> (|src| == 1 && |tgt| == 1)
    ensures k == OneToMany <==> (|src| == 1 && |tgt| > 1)
    ensures k == ManyToOne <==> (|src| > 1 && |tgt| == 1)
    ensures k == ManyToMany <==> (|src| > 1 && |tgt| > 1)
  {
    if |src| == 0 || |tgt| == 0 then Unmatched
    else if |src| == 1 && |tgt| == 1 then OneToOne
    else if |src| == 1 then OneToMany
    else if |tgt| == 1 then ManyToOne
    else ManyToMany
  }

  /** A sort key: a line number, or `Infinity` for a record without lines. */
  datatype SortKey = Key(line: nat) | Infinity

  ghost predicate IsMin(m: nat, s: seq<nat>) {
    m in s && forall x :: x in s ==> m <= x
  }

  /** `Math.min(...s)` on a non-empty list. */
  function MinOf(s: seq<nat>): (m: nat)
    requires s != []
    ensures IsMin(m, s)
  {
    if |s| == 1 then s[0]
    else
      var m := MinOf(s[1..]);
      assert forall x :: x in s ==> x == s[0] || x in s[1..];
      if s[0] <= m then s[0] else m
  }

  /** The sort key: the smallest source line, else the smallest target line, else
      `Infinity`. */
  function SortKeyOf(src: seq<nat>, tgt: seq<nat>): (k: SortKey)
    ensures k == Infinity <==> (src == [] && tgt == [])
    ensures src != [] ==> k.Key? && IsMin(k.line, src)
    ensures src == [] && tgt != [] ==> k.Key? && IsMin(k.line, tgt)
  {
    if src != [] then Key(MinOf(src))
    else if tgt != [] then Key(MinOf(tgt))
    else Infinity
  }

  // ---------------------------------------------------------------------------
  // `parseAlignmentLine`

  /** The record `parseAlignmentLine` returns, with its internal sort key. */
  datatype ParsedLine = ParsedLine(
    srcLines: seq<nat>,
    tgtLines: seq<nat>,
    score: Score,
    kind: AlignmentType,
    sortKey: SortKey)

  /** The record built from the three groups of a match. */
  function RecordOf(g: Groups): (p: ParsedLine)
    requires AllListChars(g.src) && AllListChars(g.tgt)
    ensures p.srcLines == NumberList(g.src) && p.tgtLines == NumberList(g.tgt)
    ensures p.score == ParseFloat(g.score)
    ensures p.kind == Classify(p.srcLines, p.tgtLines)
    ensures p.sortKey == SortKeyOf(p.srcLines, p.tgtLines)
  {
    var src := NumberList(g.src);
    var tgt := NumberList(g.tgt);
    ParsedLine(src, tgt, ParseFloat(g.score), Classify(src, tgt), SortKeyOf(src, tgt))
  }

  /** `parseAlignmentLine`: the record of a line of the form `[src]:[tgt]:score`, or
      `None` (the source's `null`) for any other line. */
  function ParseAlignmentLine(line: string): Option<ParsedLine> {
    match MatchLine(line)
    case None => None
    case Some(g) =>
      MatchLineSound(line, g);
      Some(RecordOf(g))
  }

  /** A line parses exactly when the pattern spells it. */
  lemma ParseAlignmentLineAccepts(line: string)
    ensures ParseAlignmentLine(line).Some? <==> exists g :: Spells(line, g)
  {
    if exists g :: Spells(line, g) {
      var g :| Spells(line, g);
      MatchLineComplete(line, g);
    }
    if MatchLine(line).Some? {
      MatchLineSound(line, MatchLine(line).value);
    }
  }

  /** A line the pattern spells parses to the record of its groups. */
  lemma ParseAlignmentLineFields(line: string, g: Groups)
    requires Spells(line, g)
    ensures ParseAlignmentLine(line) == Some(RecordOf(g))
  {
    MatchLineComplete(line, g);
  }

  lemma NumberListExample()
    ensures NumberList("1,,2") == [1, 0, 2]
  {
    assert "2"[1..] == [] && ['2'] + "" == "2";
    assert SplitAt("2", ',') == ["2"];
    assert ",2"[1..] == "2";
    assert SplitAt(",2", ',') == ["", "2"];
    assert ",,2"[1..] == ",2";
    assert SplitAt(",,2", ',') == ["", "", "2"];
    assert "1,,2"[1..] == ",,2" && ['1'] + "" == "1";
    assert SplitAt("1,,2", ',') == ["1", "", "2"];
    assert "1"[..0] == [] && "2"[..0] == [];
    assert DecimalValue("1") == 1 && DecimalValue("2") == 2 && DecimalValue("") == 0;
  }

  lemma SpellsExample()
    ensures Spells("[1,,2]:[3]:0.5", Groups("1,,2", "3", "0.5"))
  {
  }

  /** `"[1,,2]:[3]:0.5"`: an empty piece is line 0. */
  lemma ParseExampleEmptyPiece()
    ensures ParseAlignmentLine("[1,,2]:[3]:0.5")
      == Some(ParsedLine([1, 0, 2], [3], Finite(0.5), ManyToOne, Key(0)))
  {
    SpellsExample();
    ParsePieceGroups("[1,,2]:[3]:0.5");
  }

  lemma ParsePieceGroups(line: string)
    requires Spells(line, Groups("1,,2", "3", "0.5"))
    ensures ParseAlignmentLine(line) == Some(ParsedLine([1, 0, 2], [3], Finite(0.5), ManyToOne, Key(0)))
  {
    ParseAlignmentLineFields(line, Groups("1,,2", "3", "0.5"));
    NumberListExample();
    NumberListSingle();
    ScoreExample();
    assert MinOf([1, 0, 2]) == 0;
    var r := RecordOf(Groups("1,,2", "3", "0.5"));
    assert r.srcLines == [1, 0, 2] && r.tgtLines == [3];
    assert r.score == Finite(0.5);
    assert r.kind == ManyToOne && r.sortKey == Key(0);
  }

  lemma NumberListSingle()
    ensures NumberList("3") == [3]
  {
    assert "3"[1..] == [] && ['3'] + "" == "3";
    assert SplitAt("3", ',') == ["3"];
    assert "3"[..0] == [];
  }

  lemma ScoreExample()
    ensures ParseFloat("0.5") == Finite(0.5)
  {
    ParseFloatDecimal("0", "5", []);
    assert "0" + ("." + ("5" + [])) == "0.5";
    assert "0"[..0] == [] && "5"[1..] == [];
  }

  /** `"[]:[]:0"` is accepted: an unmatched record whose sort key is `Infinity`. */
  lemma ParseExampleEmpty()
    ensures ParseAlignmentLine("[]:[]:0") == Some(ParsedLine([], [], Finite(0.0), Unmatched, Infinity))
  {
    SpellsEmptyExample();
    ParseEmptyGroups("[]:[]:0");
  }

  lemma ParseEmptyGroups(line: string)
    requires Spells(line, Groups("", "", "0"))
    ensures ParseAlignmentLine(line) == Some(ParsedLine([], [], Finite(0.0), Unmatched, Infinity))
  {
    ParseAlignmentLineFields(line, Groups("", "", "0"));
    ParseFloatWhole("0");
    assert "0"[..0] == [];
    assert DecimalValue("0") == 0;
    var r := RecordOf(Groups("", "", "0"));
    assert r.srcLines == [] && r.tgtLines == [];
    assert r.score == Finite(0.0);
    assert r.kind == Unmatched && r.sortKey == Infinity;
  }

  lemma SpellsEmptyExample()
    ensures Spells("[]:[]:0", Groups("", "", "0"))
  {
    assert "]:" + "0" == "]:0";
    assert "]:[" + ("" + "]:0") == "]:[]:0";
    assert "[" + ("" + "]:[]:0") == "[]:[]:0";
  }

  // ---------------------------------------------------------------------------
  // Ordering and stripping

  /** The sign of `a.sortKey - b.sortKey`. `Infinity - Infinity` is NaN, which the sort
      treats as 0; only the sign of a comparator's result matters to the sort. */
  function KeyCompare(a: SortKey, b: SortKey): int {
    match (a, b)
    case (Key(x), Key(y)) => x - y
    case (Infinity, Infinity) => 0
    case (Infinity, Key(_)) => 1
    case (Key(_), Infinity) => -1
  }

  function CompareParsed(a: ParsedLine, b: ParsedLine): int {
    KeyCompare(a.sortKey, b.sortKey)
  }

  /** `a` comes no later than `b`: line numbers in order, `Infinity` last. */
  predicate KeyLe(a: SortKey, b: SortKey) {
    b.Infinity? || (a.Key? && a.line <= b.line)
  }

  lemma KeyCompareOrder(a: SortKey, b: SortKey)
    ensures KeyCompare(a, b) <= 0 <==> KeyLe(a, b)
    ensures KeyCompare(a, b) > 0 <==> KeyCompare(b, a) < 0
  {
  }

  /** Comparing sort keys is a consistent comparator, so the sort's result is
      determined. */
  lemma CompareParsedConsistent()
    ensures IsComparator(CompareParsed)
  {
    forall x, y, z | CompareParsed(x, y) <= 0 && CompareParsed(y, z) <= 0
      ensures CompareParsed(x, z) <= 0
    {
      KeyCompareOrder(x.sortKey, y.sortKey);
      KeyCompareOrder(y.sortKey, z.sortKey);
      KeyCompareOrder(x.sortKey, z.sortKey);
    }
    forall x, y ensures CompareParsed(x, y) > 0 <==> CompareParsed(y, x) < 0 {
      KeyCompareOrder(x.sortKey, y.sortKey);
    }
  }

  /** `({ sortKey, ...rest }) => rest` */
  function Strip(p: ParsedLine): Alignment {
    Alignment(p.srcLines, p.tgtLines, p.score, p.kind)
  }

  /** Stripping every record keeps the order and every field but the sort key. */
  function StripAll(ps: seq<ParsedLine>): (r: seq<Alignment>)
    ensures |r| == |ps|
    ensures forall k :: 0 <= k < |r| ==>
      && r[k].srcLines == ps[k].srcLines
      && r[k].tgtLines == ps[k].tgtLines
      && r[k].score == ps[k].score
      && r[k].kind == ps[k].kind
  {
    seq(|ps|, k requires 0 <= k < |ps| => Strip(ps[k]))
  }

  // ---------------------------------------------------------------------------
  // The per-pair loop over an alignment file

  /** One line of an alignment file: trimmed; blank and unparseable lines give no
      record. */
  function ParseOne(line: string): seq<ParsedLine> {
    var t := Trim(line);
    if t == [] then []
    else match ParseAlignmentLine(t)
      case None => []
      case Some(p) => [p]
  }

  /** The records of the lines, in line order. */
  function ParseLines(lines: seq<string>): seq<ParsedLine> {
    Collect(lines, ParseOne)
  }

  /** The indices of the lines that give a record. */
  function KeptLines(lines: seq<string>): seq<nat> {
    Kept(lines, ParseOne)
  }

  /** The trimmed line is not blank and parses to `p`. */
  ghost predicate Yields(line: string, p: ParsedLine) {
    Trim(line) != [] && ParseAlignmentLine(Trim(line)) == Some(p)
  }

  /** A line gives its record when it yields one, and nothing when it is blank or does
      not parse. */
  lemma ParseOneCases(line: string)
    ensures |ParseOne(line)| <= 1
    ensures |ParseOne(line)| == 1 ==> Yields(line, ParseOne(line)[0])
    ensures ParseOne(line) == [] ==> Trim(line) == [] || ParseAlignmentLine(Trim(line)).None?
  {
  }

  lemma ParseOneAtMostOne(lines: seq<string>)
    ensures AtMostOne(lines, ParseOne)
  {
    forall k | 0 <= k < |lines| ensures |ParseOne(lines[k])| <= 1 {
      ParseOneCases(lines[k]);
    }
  }

  /** One kept index per record, increasing and in range, and each record is the parse
      of the trimmed line at its kept index. */
  lemma KeptLinesYield(lines: seq<string>)
    ensures |KeptLines(lines)| == |ParseLines(lines)|
    ensures Increasing(KeptLines(lines))
    ensures forall k :: 0 <= k < |KeptLines(lines)| ==>
      KeptLines(lines)[k] < |lines| && Yields(lines[KeptLines(lines)[k]], ParseLines(lines)[k])
  {
    ParseOneAtMostOne(lines);
    KeptGives(lines, ParseOne);
    KeptIncreasing(lines, ParseOne);
    var idx, r := KeptLines(lines), ParseLines(lines);
    forall k | 0 <= k < |idx| ensures idx[k] < |lines| && Yields(lines[idx[k]], r[k]) {
      assert ParseOne(lines[idx[k]]) == [r[k]];
      ParseOneCases(lines[idx[k]]);
    }
  }

  /** Every line whose index is not kept is blank or does not parse. */
  lemma KeptLinesOthers(lines: seq<string>)
    ensures forall i :: 0 <= i < |lines| && i !in KeptLines(lines) ==>
      Trim(lines[i]) == [] || ParseAlignmentLine(Trim(lines[i])).None?
  {
    KeptOthers(lines, ParseOne);
    forall i | 0 <= i < |lines| && i !in KeptLines(lines)
      ensures Trim(lines[i]) == [] || ParseAlignmentLine(Trim(lines[i])).None?
    {
      assert ParseOne(lines[i]) == [];
      ParseOneCases(lines[i]);
    }
  }

  /** Every record carries the type and sort key of its own line lists. */
  ghost predicate Consistent(p: ParsedLine) {
    p.kind == Classify(p.srcLines, p.tgtLines) && p.sortKey == SortKeyOf(p.srcLines, p.tgtLines)
  }

  lemma ParseLinesConsistent(lines: seq<string>)
    ensures forall p :: p in ParseLines(lines) ==> Consistent(p)
  {
    forall p | p in ParseLines(lines) ensures Consistent(p) {
      CollectFrom(lines, ParseOne, p);
      var k :| 0 <= k < |lines| && p in ParseOne(lines[k]);
      ParseOneConsistent(lines[k], p);
    }
  }

  lemma ParseOneConsistent(line: string, p: ParsedLine)
    requires p in ParseOne(line)
    ensures Consistent(p)
  {
    ParseOneCases(line);
    assert ParseOne(line) == [p];
    assert Yields(line, p);
    ParseAlignmentLineConsistent(Trim(line));
  }

  lemma ParseAlignmentLineConsistent(line: string)
    ensures ParseAlignmentLine(line).Some? ==> Consistent(ParseAlignmentLine(line).value)
  {
  }

  /** The alignments of one alignment file, `None` when it cannot be read: parsed, sorted
      by sort key and stripped of it. */
  function AlignmentsOf(content: Option<string>): seq<Alignment> {
    match content
    case None => []
    case Some(c) => StripAll(Sort(ParseLines(SplitLines(c)), CompareParsed))
  }

  /** The body of the loop: the record of a non-blank trimmed line that parses. */
  method ParseLine(line: string) returns (records: seq<ParsedLine>)
    ensures records == ParseOne(line)
  {
    records := [];
    var trimmed := Trim(line);
    if trimmed != [] {
      var record := ParseAlignmentLine(trimmed);
      if record.Some? {
        records := [record.value];
      }
    }
  }

  /** The loop over the lines of an alignment file: each non-blank trimmed line that
      parses appends its record. */
  method ParseRecords(lines: seq<string>) returns (parsed: seq<ParsedLine>)
    ensures parsed == ParseLines(lines)
  {
    parsed := [];
    var i := 0;
    while i < |lines|
      invariant 0 <= i <= |lines|
      invariant parsed == ParseLines(lines[..i])
    {
      var records := ParseLine(lines[i]);
      parsed := parsed + records;
      CollectPrefix(lines, i, ParseOne);
      i := i + 1;
    }
    assert lines[..|lines|] == lines;
  }

  /** The parse, sort and strip block of the per-pair loop. */
  method ParseAlignments(content: Option<string>) returns (alignments: seq<Alignment>)
    ensures alignments == AlignmentsOf(content)
  {
    var parsed: seq<ParsedLine> := [];
    if content.Some? {
      parsed := ParseRecords(SplitLines(content.value));
    }
    parsed := Sort(parsed, CompareParsed);
    alignments := StripAll(parsed);
  }

  /** The sorted records are a permutation of the parsed ones, ordered by sort key, and
      records with equal keys keep their file order. */
  lemma AlignmentsSorted(c: string)
    ensures var parsed := ParseLines(SplitLines(c));
      var sorted := Sort(parsed, CompareParsed);
      && multiset(sorted) == multiset(parsed)
      && (forall i, j :: 0 <= i < j < |sorted| ==> KeyLe(sorted[i].sortKey, sorted[j].sortKey))
      && (forall e :: Tied(sorted, CompareParsed, e) == Tied(parsed, CompareParsed, e))
  {
    var parsed := ParseLines(SplitLines(c));
    var sorted := Sort(parsed, CompareParsed);
    SortPermutes(parsed, CompareParsed);
    CompareParsedConsistent();
    SortSorted(parsed, CompareParsed);
    forall i, j | 0 <= i < j < |sorted| ensures KeyLe(sorted[i].sortKey, sorted[j].sortKey) {
      KeyCompareOrder(sorted[i].sortKey, sorted[j].sortKey);
    }
    forall e ensures Tied(sorted, CompareParsed, e) == Tied(parsed, CompareParsed, e) {
      SortStable(parsed, CompareParsed, e);
    }
  }

  /** The alignments come out ordered by the sort key of their own line lists. */
  lemma AlignmentsOrdered(c: string)
    ensures var out := AlignmentsOf(Some(c));
      forall i, j :: 0 <= i < j < |out| ==>
        KeyLe(SortKeyOf(out[i].srcLines, out[i].tgtLines), SortKeyOf(out[j].srcLines, out[j].tgtLines))
  {
    var parsed := ParseLines(SplitLines(c));
    var sorted := Sort(parsed, CompareParsed);
    AlignmentsSorted(c);
    ParseLinesConsistent(SplitLines(c));
    forall k | 0 <= k < |sorted| ensures Consistent(sorted[k]) {
      assert sorted[k] in multiset(parsed);
    }
  }

  // ---------------------------------------------------------------------------
  // Statistics

  /** `alignments.filter(a => a.type === kind).length` */
  function CountKind(alignments: seq<Alignment>, kind: AlignmentType): nat {
    if alignments == [] then 0
    else
      var last := alignments[|alignments| - 1];
      CountKind(alignments[..|alignments| - 1], kind) + (if last.kind == kind then 1 else 0)
  }

  /** `alignments.filter(a => a.type !== 'unmatched').length` */
  function CountAligned(alignments: seq<Alignment>): nat {
    if alignments == [] then 0
    else
      var last := alignments[|alignments| - 1];
      CountAligned(alignments[..|alignments| - 1]) + (if last.kind != Unmatched then 1 else 0)
  }

  /** `a.score > 0`, which is false for NaN. */
  predicate PositiveScore(a: Alignment) {
    a.score.Finite? && a.score.value > 0.0
  }

  /** The sum of the scores above 0, whatever the alignment's type. */
  function PositiveScoreSum(alignments: seq<Alignment>): real {
    if alignments == [] then 0.0
    else
      var a := alignments[|alignments| - 1];
      PositiveScoreSum(alignments[..|alignments| - 1]) + (if PositiveScore(a) then a.score.value else 0.0)
  }

  /** `avgScore` before rounding: the positive scores summed over the aligned count,
      0 when nothing is aligned. */
  function AvgScore(alignments: seq<Alignment>): real {
    var aligned := CountAligned(alignments);
    if aligned > 0 then PositiveScoreSum(alignments) / aligned as real else 0.0
  }

  /** The `stats` object of a correspondence. */
  function ComputeStats(alignments: seq<Alignment>): (st: CorrespondenceStats)
    ensures st.types.Keys == {OneToOne, OneToMany, ManyToOne, ManyToMany, Unmatched}
    ensures forall k :: k in st.types ==> st.types[k] == CountKind(alignments, k)
  {
    CorrespondenceStats(
      |alignments|,
      CountAligned(alignments),
      AvgScore(alignments),
      map[
        OneToOne := CountKind(alignments, OneToOne),
        OneToMany := CountKind(alignments, OneToMany),
        ManyToOne := CountKind(alignments, ManyToOne),
        ManyToMany := CountKind(alignments, ManyToMany),
        Unmatched := CountKind(alignments, Unmatched)])
  }

  /** The five type counts add up to the number of alignments, and the aligned count is
      that number less the unmatched ones. */
  lemma {:induction false} CountsAddUp(alignments: seq<Alignment>)
    ensures CountKind(alignments, OneToOne) + CountKind(alignments, OneToMany)
      + CountKind(alignments, ManyToOne) + CountKind(alignments, ManyToMany)
      + CountKind(alignments, Unmatched) == |alignments|
    ensures CountAligned(alignments) == |alignments| - CountKind(alignments, Unmatched)
    decreases |alignments|
  {
    if alignments != [] {
      CountsAddUp(alignments[..|alignments| - 1]);
    }
  }

  /** The statistics agree with the alignments: total, the type counts summing to it,
      and the aligned count. */
  lemma StatsConsistent(alignments: seq<Alignment>)
    ensures var st := ComputeStats(alignments);
      && st.totalAlignments == |alignments|
      && st.types[OneToOne] + st.types[OneToMany] + st.types[ManyToOne]
         + st.types[ManyToMany] + st.types[Unmatched] == st.totalAlignments
      && st.alignedCount == st.totalAlignments - st.types[Unmatched]
  {
    CountsAddUp(alignments);
  }

  lemma {:induction false} PositiveScoreSumNonNegative(alignments: seq<Alignment>)
    ensures PositiveScoreSum(alignments) >= 0.0
    decreases |alignments|
  {
    if alignments != [] {
      PositiveScoreSumNonNegative(alignments[..|alignments| - 1]);
    }
  }

  /** The average score is never negative. */
  lemma AvgScoreNonNegative(alignments: seq<Alignment>)
    ensures AvgScore(alignments) >= 0.0
  {
    PositiveScoreSumNonNegative(alignments);
  }

  /** Scores of at most 1 on aligned records and none above 0 on unmatched ones bound
      the positive sum by the aligned count. */
  lemma {:induction false} PositiveScoreSumBound(alignments: seq<Alignment>)
    requires forall a :: a in alignments && a.score.Finite? ==> a.score.value <= 1.0
    requires forall a :: a in alignments && a.kind == Unmatched ==> !PositiveScore(a)
    ensures PositiveScoreSum(alignments) <= CountAligned(alignments) as real
    decreases |alignments|
  {
    if alignments != [] {
      var init := alignments[..|alignments| - 1];
      assert forall a :: a in init ==> a in alignments;
      PositiveScoreSumBound(init);
    }
  }

  /** Under those conditions the average score is at most 1. */
  lemma AvgScoreAtMostOne(alignments: seq<Alignment>)
    requires forall a :: a in alignments && a.score.Finite? ==> a.score.value <= 1.0
    requires forall a :: a in alignments && a.kind == Unmatched ==> !PositiveScore(a)
    ensures AvgScore(alignments) <= 1.0
  {
    PositiveScoreSumBound(alignments);
  }

  /** An unmatched alignment with a positive score adds to the numerator but not to the
      aligned count, so the average can exceed 1. */
  lemma AvgScoreCountsUnmatched()
    ensures AvgScore([
      Alignment([1], [1], Finite(1.0), OneToOne),
      Alignment([2], [], Finite(0.4), Unmatched)]) == 1.4
  {
    var xs := [Alignment([1], [1], Finite(1.0), OneToOne), Alignment([2], [], Finite(0.4), Unmatched)];
    assert xs[..1][..0] == [] && xs[..1] == [xs[0]];
    assert CountAligned(xs) == 1;
    assert PositiveScoreSum(xs) == 1.4;
  }

  // ---------------------------------------------------------------------------
  // The main loop

  /** One entry of the correspondence list, with the contents of its three files
      (`None` when a file cannot be read). */
  datatype PairInput = PairInput(
    sourceCode: string,
    targetCode: string,
    sourceFile: Option<string>,
    targetFile: Option<string>,
    alignFile: Option<string>)

  /** The correspondence built for one pair. */
  function CorrespondenceOf(p: PairInput): Correspondence {
    var alignments := AlignmentsOf(p.alignFile);
    Correspondence(
      p.sourceCode + "_" + p.targetCode,
      p.sourceCode,
      p.targetCode,
      LoadTextFile(p.sourceFile),
      LoadTextFile(p.targetFile),
      alignments,
      ComputeStats(alignments))
  }

  /** The correspondences of the pairs, in list order. */
  function Correspondences(pairs: seq<PairInput>): seq<Correspondence> {
    if pairs == [] then []
    else Correspondences(pairs[..|pairs| - 1]) + [CorrespondenceOf(pairs[|pairs| - 1])]
  }

  /** Every correspondence has id `source_target` and a total that counts its
      alignments. */
  ghost predicate WellFormed(c: Correspondence) {
    c.id == c.sourceCode + "_" + c.targetCode && c.stats.totalAlignments == |c.alignments|
  }

  lemma {:induction false} CorrespondencesWellFormed(pairs: seq<PairInput>)
    ensures |Correspondences(pairs)| == |pairs|
    ensures forall c :: c in Correspondences(pairs) ==> WellFormed(c)
    decreases |pairs|
  {
    if pairs != [] {
      CorrespondencesWellFormed(pairs[..|pairs| - 1]);
    }
  }

  /** The final ordering: `naturalCompare` on the source codes. */
  function BySourceCode(naturalCompare: (string, string) -> int): (Correspondence, Correspondence) -> int {
    (a: Correspondence, b: Correspondence) => naturalCompare(a.sourceCode, b.sourceCode)
  }

  lemma CorrespondencesPrefix(pairs: seq<PairInput>, i: nat)
    requires i < |pairs|
    ensures Correspondences(pairs[..i + 1]) == Correspondences(pairs[..i]) + [CorrespondenceOf(pairs[i])]
  {
    assert pairs[..i + 1][..i] == pairs[..i];
  }

  /** The body of the per-pair loop: load both texts, parse the alignments and compute
      the statistics. */
  method BuildCorrespondence(pair: PairInput) returns (c: Correspondence)
    ensures c == CorrespondenceOf(pair)
  {
    var sourceText := LoadTextFile(pair.sourceFile);
    var targetText := LoadTextFile(pair.targetFile);
    var alignments := ParseAlignments(pair.alignFile);
    var stats := ComputeStats(alignments);
    c := Correspondence(
      pair.sourceCode + "_" + pair.targetCode,
      pair.sourceCode,
      pair.targetCode,
      sourceText,
      targetText,
      alignments,
      stats);
  }

  /** `preprocess`: one correspondence per pair, in the order of the list, then sorted
      by source code. `naturalCompare` stands for `localeCompare` with numeric collation. */
  method Preprocess(pairs: seq<PairInput>, naturalCompare: (string, string) -> int)
    returns (result: seq<Correspondence>)
    ensures result == Sort(Correspondences(pairs), BySourceCode(naturalCompare))
  {
    var built: seq<Correspondence> := [];
    var i := 0;
    while i < |pairs|
      invariant 0 <= i <= |pairs|
      invariant built == Correspondences(pairs[..i])
    {
      var c := BuildCorrespondence(pairs[i]);
      built := built + [c];
      CorrespondencesPrefix(pairs, i);
      i := i + 1;
    }
    assert pairs[..|pairs|] == pairs;
    result := Sort(built, BySourceCode(naturalCompare));
  }

  /** Ordering by source code is consistent when `naturalCompare` is. */
  lemma BySourceCodeConsistent(naturalCompare: (string, string) -> int)
    requires IsComparator(naturalCompare)
    ensures IsComparator(BySourceCode(naturalCompare))
  {
    var cmp := BySourceCode(naturalCompare);
    forall x, y ensures cmp(x, y) > 0 <==> cmp(y, x) < 0 {
      assert cmp(x, y) == naturalCompare(x.sourceCode, y.sourceCode);
      assert cmp(y, x) == naturalCompare(y.sourceCode, x.sourceCode);
    }
    forall x, y, z | cmp(x, y) <= 0 && cmp(y, z) <= 0 ensures cmp(x, z) <= 0 {
      Transitive(naturalCompare, x.sourceCode, y.sourceCode, z.sourceCode);
    }
  }

  /** The output is a permutation of one correspondence per pair, each with id
      `source_target` and a total that counts its alignments. */
  lemma PreprocessOutput(pairs: seq<PairInput>, naturalCompare: (string, string) -> int)
    ensures var out := Sort(Correspondences(pairs), BySourceCode(naturalCompare));
      && |out| == |pairs|
      && multiset(out) == multiset(Correspondences(pairs))
      && forall c :: c in out ==> WellFormed(c)
  {
    var all := Correspondences(pairs);
    var out := Sort(all, BySourceCode(naturalCompare));
    SortPermutes(all, BySourceCode(naturalCompare));
    CorrespondencesWellFormed(pairs);
    assert |out| == |multiset(out)| == |all|;
    forall c | c in out ensures WellFormed(c) {
      assert c in multiset(all);
    }
  }

  /** Under a consistent `naturalCompare` the output is ordered by source code, and
      pairs whose codes compare equal keep their list order. */
  lemma PreprocessOrdered(pairs: seq<PairInput>, naturalCompare: (string, string) -> int)
    requires IsComparator(naturalCompare)
    ensures var cmp := BySourceCode(naturalCompare);
      var out := Sort(Correspondences(pairs), cmp);
      && Sorted(out, cmp)
      && forall e :: Tied(out, cmp, e) == Tied(Correspondences(pairs), cmp, e)
  {
    var cmp := BySourceCode(naturalCompare);
    var all := Correspondences(pairs);
    BySourceCodeConsistent(naturalCompare);
    SortSorted(all, cmp);
    forall e ensures Tied(Sort(all, cmp), cmp, e) == Tied(all, cmp, e) {
      SortStable(all, cmp, e);
    }
  }
}
