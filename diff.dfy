/** The word-level diff engine of src/lib/diff.ts: tokenizer, normalizer, the
    longest-common-subsequence matcher, segment merging and the similarity ratio. */
module Diff {
  import opened Text
  import opened Types
  import opened Subsequence

  // ---------------------------------------------------------------------------
  // Tokenizer

  /** The single-character separators `[.,;:!?()[\]{}"-]`. */
  predicate IsPunct(c: char) {
    c in ".,;:!?()[]{}\"-"
  }

  predicate IsWordChar(c: char) {
    !IsSpace(c) && !IsPunct(c)
  }

  predicate AllWordChars(s: string) {
    forall i :: 0 <= i < |s| ==> IsWordChar(s[i])
  }

  /** What a token is: a single punctuation character, or a non-empty run of
      characters that are neither white space nor punctuation. */
  predicate IsToken(t: string) {
    (|t| == 1 && IsPunct(t[0])) || (t != [] && AllWordChars(t))
  }

  /** A piece of `split` with the capturing separator: a chunk between separators
      (possibly empty), a white-space run, or one punctuation character. */
  predicate IsPiece(p: string) {
    AllWordChars(p) || (|p| == 1 && IsPunct(p[0])) || (p != [] && AllSpace(p))
  }

  /** Length of the white-space run at the start of `text` (what `\s+` matches). */
  function SpaceRun(text: string): (n: nat)
    requires text != [] && IsSpace(text[0])
    ensures 1 <= n <= |text|
    ensures AllSpace(text[..n])
    ensures n == |text| || !IsSpace(text[n])
  {
    if |text| > 1 && IsSpace(text[1]) then 1 + SpaceRun(text[1..]) else 1
  }

  /** `text.split(/(\s+|[.,;:!?()[\]{}"-])/)` with `chunk` the text already read since the
      last separator: chunks and captured separators, alternating. */
  function SplitCapture(text: string, chunk: string): seq<string>
    decreases |text|
  {
    if text == [] then [chunk]
    else if IsSpace(text[0]) then
      var n := SpaceRun(text);
      [chunk, text[..n]] + SplitCapture(text[n..], "")
    else if IsPunct(text[0]) then [chunk, text[..1]] + SplitCapture(text[1..], "")
    else SplitCapture(text[1..], chunk + [text[0]])
  }

  /** `.filter(t => t.trim().length > 0)` */
  function NonBlank(pieces: seq<string>): seq<string>
  {
    if pieces == [] then []
    else NonBlank(pieces[..|pieces| - 1]) + (if Trim(pieces[|pieces| - 1]) != [] then [pieces[|pieces| - 1]] else [])
  }

  /** `tokenize` */
  function Tokenize(text: string): seq<string>
  {
    NonBlank(SplitCapture(text, ""))
  }

  function Concat(ss: seq<string>): string
  {
    if ss == [] then "" else Concat(ss[..|ss| - 1]) + ss[|ss| - 1]
  }

  /** `text` with all its white space removed. */
  function RemoveSpaces(s: string): string
  {
    if s == [] then "" else RemoveSpaces(s[..|s| - 1]) + (if IsSpace(s[|s| - 1]) then "" else [s[|s| - 1]])
  }

  lemma {:induction false} ConcatAppend(xs: seq<string>, ys: seq<string>)
    ensures Concat(xs + ys) == Concat(xs) + Concat(ys)
    decreases |ys|
  {
    if ys == [] {
      assert xs + ys == xs;
    } else {
      var init, last := ys[..|ys| - 1], ys[|ys| - 1];
      assert (xs + ys)[..|xs + ys| - 1] == xs + init;
      assert (xs + ys)[|xs + ys| - 1] == last;
      ConcatAppend(xs, init);
      assert Concat(xs + ys) == Concat(xs) + Concat(init) + last;
      assert Concat(ys) == Concat(init) + last;
    }
  }

  lemma {:induction false} RemoveSpacesAppend(s: string, t: string)
    ensures RemoveSpaces(s + t) == RemoveSpaces(s) + RemoveSpaces(t)
    decreases |t|
  {
    if t == [] {
      assert s + t == s;
    } else {
      assert (s + t)[..|s + t| - 1] == s + t[..|t| - 1];
      RemoveSpacesAppend(s, t[..|t| - 1]);
    }
  }

  lemma {:induction false} RemoveSpacesOfPiece(p: string)
    requires NoSpace(p) || AllSpace(p)
    ensures RemoveSpaces(p) == if NoSpace(p) then p else ""
    decreases |p|
  {
    if p != [] {
      RemoveSpacesOfPiece(p[..|p| - 1]);
      assert p[..|p| - 1] + [p[|p| - 1]] == p;
    }
  }

  lemma ConcatPair(x: string, y: string, rest: seq<string>)
    ensures Concat([x, y] + rest) == x + y + Concat(rest)
  {
    ConcatAppend([x, y], rest);
    assert [x, y][..1] == [x];
    assert Concat([x]) == Concat([]) + x;
  }

  /** Every piece of the split is a word chunk, a white-space run or one punctuation character. */
  lemma {:induction false} SplitCaptureShape(text: string, chunk: string)
    requires AllWordChars(chunk)
    ensures forall k :: 0 <= k < |SplitCapture(text, chunk)| ==> IsPiece(SplitCapture(text, chunk)[k])
    decreases |text|
  {
    if text == [] {
    } else if IsSpace(text[0]) {
      SplitCaptureShape(text[SpaceRun(text)..], "");
    } else if IsPunct(text[0]) {
      SplitCaptureShape(text[1..], "");
    } else {
      SplitCaptureShape(text[1..], chunk + [text[0]]);
    }
  }

  /** Putting back a chunk and the separator that ends it. */
  lemma SeparatorStep(chunk: string, text: string, n: nat, rest: seq<string>)
    requires n <= |text|
    requires Concat(rest) == text[n..]
    ensures Concat([chunk, text[..n]] + rest) == chunk + text
  {
    ConcatPair(chunk, text[..n], rest);
    assert text[..n] + text[n..] == text;
    assert chunk + text[..n] + text[n..] == chunk + (text[..n] + text[n..]);
  }

  /** The pieces of the split, put back together, give the text (after the pending chunk). */
  lemma {:induction false} SplitCaptureConcat(text: string, chunk: string)
    ensures Concat(SplitCapture(text, chunk)) == chunk + text
    decreases |text|
  {
    if text == [] {
      assert Concat([chunk]) == Concat([]) + chunk;
    } else if IsSpace(text[0]) {
      var n := SpaceRun(text);
      SplitCaptureConcat(text[n..], "");
      SeparatorStep(chunk, text, n, SplitCapture(text[n..], ""));
    } else if IsPunct(text[0]) {
      SplitCaptureConcat(text[1..], "");
      SeparatorStep(chunk, text, 1, SplitCapture(text[1..], ""));
    } else {
      SplitCaptureConcat(text[1..], chunk + [text[0]]);
      assert chunk + [text[0]] + text[1..] == chunk + text;
    }
  }

  /** A piece survives the blank filter exactly when it is a token; a kept piece has
      no white space and a dropped one is all white space. */
  lemma PieceKept(p: string)
    requires IsPiece(p)
    ensures (Trim(p) != []) == IsToken(p)
    ensures IsToken(p) ==> NoSpace(p)
    ensures !IsToken(p) ==> AllSpace(p)
  {
    TrimBlank(p);
    if |p| == 1 && IsPunct(p[0]) {
      PunctNotSpace(p[0]);
      assert !AllSpace(p);
    } else if AllWordChars(p) {
      assert NoSpace(p);
    } else {
      assert p != [] && IsSpace(p[0]);
      assert !IsWordChar(p[0]);
    }
  }

  lemma PunctNotSpace(c: char)
    ensures IsPunct(c) ==> !IsSpace(c)
  {
  }

  /** Filtering well-shaped pieces keeps exactly the tokens. */
  lemma {:induction false} NonBlankTokens(pieces: seq<string>)
    requires forall k :: 0 <= k < |pieces| ==> IsPiece(pieces[k])
    ensures forall k :: 0 <= k < |NonBlank(pieces)| ==> IsToken(NonBlank(pieces)[k])
    decreases |pieces|
  {
    if pieces != [] {
      var init, p := pieces[..|pieces| - 1], pieces[|pieces| - 1];
      NonBlankTokens(init);
      PieceKept(p);
      var kept := if Trim(p) != [] then [p] else [];
      assert NonBlank(pieces) == NonBlank(init) + kept;
    }
  }

  /** The kept pieces, concatenated, are all the pieces concatenated without white space. */
  lemma {:induction false} NonBlankConcat(pieces: seq<string>)
    requires forall k :: 0 <= k < |pieces| ==> IsPiece(pieces[k])
    ensures Concat(NonBlank(pieces)) == RemoveSpaces(Concat(pieces))
    decreases |pieces|
  {
    if pieces != [] {
      var init, p := pieces[..|pieces| - 1], pieces[|pieces| - 1];
      NonBlankConcat(init);
      PieceKept(p);
      RemoveSpacesOfPiece(p);
      RemoveSpacesAppend(Concat(init), p);
      var kept := if Trim(p) != [] then [p] else [];
      assert NonBlank(pieces) == NonBlank(init) + kept;
      assert Concat(pieces) == Concat(init) + p;
      ConcatAppend(NonBlank(init), kept);
      if Trim(p) != [] {
        assert Concat(kept) == Concat([]) + p;
      }
    }
  }

  /** Every token is a lone punctuation character or a non-empty run of word
      characters (so never empty and never containing white space). */
  lemma TokenizeShape(text: string)
    ensures forall k :: 0 <= k < |Tokenize(text)| ==> IsToken(Tokenize(text)[k])
  {
    SplitCaptureShape(text, "");
    NonBlankTokens(SplitCapture(text, ""));
  }

  /** Tokenizing loses nothing but white space: the tokens, concatenated, are the
      text with its white space removed. */
  lemma TokenizeConcat(text: string)
    ensures Concat(Tokenize(text)) == RemoveSpaces(text)
  {
    var pieces := SplitCapture(text, "");
    SplitCaptureShape(text, "");
    SplitCaptureConcat(text, "");
    assert Concat(pieces) == text;
    NonBlankConcat(pieces);
    assert Tokenize(text) == NonBlank(pieces);
  }

  /** The word read so far, as a token if it is not empty. */
  function Flush(chunk: string): seq<string> {
    if chunk == [] then [] else [chunk]
  }

  /** A reference tokenizer reading one character at a time, `chunk` being the word read
      so far: white space ends the word, a punctuation character ends it and is a token
      of its own, any other character extends it. */
  function Words(text: string, chunk: string): seq<string>
    decreases |text|
  {
    if text == [] then Flush(chunk)
    else if IsSpace(text[0]) then Flush(chunk) + Words(text[1..], "")
    else if IsPunct(text[0]) then Flush(chunk) + [text[..1]] + Words(text[1..], "")
    else Words(text[1..], chunk + [text[0]])
  }

  lemma {:induction false} NonBlankAppend(xs: seq<string>, ys: seq<string>)
    ensures NonBlank(xs + ys) == NonBlank(xs) + NonBlank(ys)
    decreases |ys|
  {
    if ys == [] {
      assert xs + ys == xs;
    } else {
      var init := ys[..|ys| - 1];
      assert (xs + ys)[..|xs + ys| - 1] == xs + init;
      NonBlankAppend(xs, init);
    }
  }

  lemma NonBlankOne(p: string)
    ensures NonBlank([p]) == if Trim(p) != [] then [p] else []
  {
    assert [p][..0] == [];
  }

  /** The blank filter on one piece: a word chunk is kept unless empty, a white-space run
      is dropped, a punctuation character is kept. */
  lemma NonBlankPiece(p: string)
    ensures AllWordChars(p) ==> NonBlank([p]) == Flush(p)
    ensures p != [] && AllSpace(p) ==> NonBlank([p]) == []
    ensures |p| == 1 && IsPunct(p[0]) ==> NonBlank([p]) == [p]
  {
    NonBlankOne(p);
    TrimBlank(p);
    if p != [] && AllWordChars(p) {
      assert !IsSpace(p[0]);
    }
    if |p| == 1 && IsPunct(p[0]) {
      PunctNotSpace(p[0]);
    }
  }

  /** White space at the start of the text produces no token. */
  lemma {:induction false} WordsSkipSpaces(s: string, m: nat)
    requires m <= |s| && AllSpace(s[..m])
    ensures Words(s, "") == Words(s[m..], "")
    decreases m
  {
    if m > 0 {
      assert IsSpace(s[..m][0]);
      assert s[1..][..m - 1] == s[1..m];
      assert forall i :: 0 <= i < m - 1 ==> s[1..m][i] == s[..m][i + 1];
      WordsSkipSpaces(s[1..], m - 1);
      assert s[1..][m - 1..] == s[m..];
    }
  }

  /** A chunk and the separator after it, then the rest of the pieces, through the filter. */
  lemma SeparatorPieces(chunk: string, sep: string, rest: seq<string>)
    requires AllWordChars(chunk)
    ensures NonBlank([chunk, sep] + rest) == Flush(chunk) + NonBlank([sep]) + NonBlank(rest)
  {
    var one, two := [chunk], [chunk, sep];
    assert one + [sep] == two;
    NonBlankAppend(one, [sep]);
    NonBlankPiece(chunk);
    assert NonBlank(two) == Flush(chunk) + NonBlank([sep]);
    NonBlankAppend(two, rest);
  }

  /** After the first character of a white-space run, the rest of the run produces no token. */
  lemma WordsAfterSpace(text: string, n: nat)
    requires 1 <= n <= |text| && AllSpace(text[..n])
    ensures Words(text[1..], "") == Words(text[n..], "")
  {
    assert text[1..][..n - 1] == text[1..n];
    assert forall i :: 0 <= i < n - 1 ==> text[1..n][i] == text[..n][i + 1];
    WordsSkipSpaces(text[1..], n - 1);
    assert text[1..][n - 1..] == text[n..];
  }

  /** `split` at a white-space run: the chunk so far, the run, then the pieces after it. */
  lemma SplitCaptureAtSpace(text: string, chunk: string)
    requires text != [] && IsSpace(text[0])
    ensures SplitCapture(text, chunk) == [chunk, text[..SpaceRun(text)]] + SplitCapture(text[SpaceRun(text)..], "")
  {
  }

  /** A chunk, a white-space run and further pieces through the filter. */
  lemma SpacePieces(chunk: string, run: string, rest: seq<string>)
    requires AllWordChars(chunk) && run != [] && AllSpace(run)
    ensures NonBlank([chunk, run] + rest) == Flush(chunk) + NonBlank(rest)
  {
    SeparatorPieces(chunk, run, rest);
    NonBlankPiece(run);
  }

  /** The split-and-filter step at a white-space run. */
  lemma SplitCaptureSpace(text: string, chunk: string)
    requires AllWordChars(chunk) && text != [] && IsSpace(text[0])
    requires NonBlank(SplitCapture(text[SpaceRun(text)..], "")) == Words(text[SpaceRun(text)..], "")
    ensures NonBlank(SplitCapture(text, chunk)) == Words(text, chunk)
  {
    var n := SpaceRun(text);
    SplitCaptureAtSpace(text, chunk);
    SpacePieces(chunk, text[..n], SplitCapture(text[n..], ""));
    WordsAfterSpace(text, n);
  }

  /** The split-and-filter step at a punctuation character. */
  lemma SplitCapturePunct(text: string, chunk: string)
    requires AllWordChars(chunk) && text != [] && !IsSpace(text[0]) && IsPunct(text[0])
    requires NonBlank(SplitCapture(text[1..], "")) == Words(text[1..], "")
    ensures NonBlank(SplitCapture(text, chunk)) == Words(text, chunk)
  {
    var tail := Words(text[1..], "");
    assert NonBlank(SplitCapture(text, chunk)) == Flush(chunk) + [text[..1]] + tail by {
      var rest := SplitCapture(text[1..], "");
      assert SplitCapture(text, chunk) == [chunk, text[..1]] + rest;
      SeparatorPieces(chunk, text[..1], rest);
      NonBlankPiece(text[..1]);
    }
  }

  /** The split-and-filter of `tokenize` computes the reference tokenizer. */
  lemma {:induction false} SplitCaptureWords(text: string, chunk: string)
    requires AllWordChars(chunk)
    ensures NonBlank(SplitCapture(text, chunk)) == Words(text, chunk)
    decreases |text|
  {
    if text == [] {
      NonBlankPiece(chunk);
    } else if IsSpace(text[0]) {
      SplitCaptureWords(text[SpaceRun(text)..], "");
      SplitCaptureSpace(text, chunk);
    } else if IsPunct(text[0]) {
      SplitCaptureWords(text[1..], "");
      SplitCapturePunct(text, chunk);
    } else {
      SplitCaptureWords(text[1..], chunk + [text[0]]);
    }
  }

  /** `tokenize` is the reference tokenizer. */
  lemma TokenizeIsWords(text: string)
    ensures Tokenize(text) == Words(text, "")
  {
    SplitCaptureWords(text, "");
  }

  /** A run of word characters stays one word. */
  lemma {:induction false} WordsOfWord(w: string, chunk: string)
    requires AllWordChars(w)
    ensures Words(w, chunk) == Flush(chunk + w)
    decreases |w|
  {
    if w == [] {
      assert chunk + w == chunk;
    } else {
      WordsOfWord(w[1..], chunk + [w[0]]);
      assert chunk + [w[0]] + w[1..] == chunk + w;
    }
  }

  /** What a separator contributes between the words around it. */
  function Between(c: char): seq<string> {
    if IsPunct(c) then [[c]] else []
  }

  /** Reading a separator: it ends the word read so far. */
  lemma WordsAtSeparator(c: char, b: string, chunk: string)
    requires IsSpace(c) || IsPunct(c)
    ensures Words([c] + b, chunk) == Flush(chunk) + Between(c) + Words(b, "")
  {
    var t := [c] + b;
    assert t[0] == c && t[1..] == b && t[..1] == [c];
    if IsSpace(c) {
      PunctNotSpace(c);
      assert Words(t, chunk) == Flush(chunk) + Words(b, "");
    } else {
      assert Words(t, chunk) == Flush(chunk) + [[c]] + Words(b, "");
    }
  }

  /** The induction step of `WordsSplit` when the text starts with white space. */
  lemma WordsSplitSpace(a: string, c: char, b: string, chunk: string)
    requires a != [] && IsSpace(a[0])
    requires Words(a[1..] + [c] + b, "") == Words(a[1..], "") + Between(c) + Words(b, "")
    ensures Words(a + [c] + b, chunk) == Words(a, chunk) + Between(c) + Words(b, "")
  {
    var t := a + [c] + b;
    assert t[0] == a[0] && t[1..] == a[1..] + [c] + b;
    var f, wa, bc, wb := Flush(chunk), Words(a[1..], ""), Between(c), Words(b, "");
    assert Words(t, chunk) == f + (wa + bc + wb);
    assert Words(a, chunk) == f + wa;
    Regroup(f, wa, bc, wb);
  }

  /** The induction step of `WordsSplit` when the text starts with a punctuation character. */
  lemma WordsSplitPunct(a: string, c: char, b: string, chunk: string)
    requires a != [] && !IsSpace(a[0]) && IsPunct(a[0])
    requires Words(a[1..] + [c] + b, "") == Words(a[1..], "") + Between(c) + Words(b, "")
    ensures Words(a + [c] + b, chunk) == Words(a, chunk) + Between(c) + Words(b, "")
  {
    var t := a + [c] + b;
    assert t[0] == a[0] && t[1..] == a[1..] + [c] + b && t[..1] == a[..1];
    var f, wa, bc, wb := Flush(chunk) + [a[..1]], Words(a[1..], ""), Between(c), Words(b, "");
    assert Words(t, chunk) == f + (wa + bc + wb);
    assert Words(a, chunk) == f + wa;
    Regroup(f, wa, bc, wb);
  }

  /** A separator splits the text: what comes before and after it is read separately,
      and a punctuation separator is a token in between. */
  lemma {:induction false} WordsSplit(a: string, c: char, b: string, chunk: string)
    requires IsSpace(c) || IsPunct(c)
    ensures Words(a + [c] + b, chunk) == Words(a, chunk) + Between(c) + Words(b, "")
    decreases |a|
  {
    var t := a + [c] + b;
    if a == [] {
      assert t == [c] + b;
      assert Words(a, chunk) == Flush(chunk);
      WordsAtSeparator(c, b, chunk);
    } else if IsSpace(a[0]) {
      WordsSplit(a[1..], c, b, "");
      WordsSplitSpace(a, c, b, chunk);
    } else if IsPunct(a[0]) {
      WordsSplit(a[1..], c, b, "");
      WordsSplitPunct(a, c, b, chunk);
    } else {
      assert t[0] == a[0] && t[1..] == a[1..] + [c] + b;
      WordsSplit(a[1..], c, b, chunk + [a[0]]);
    }
  }

  /** A non-empty run of word characters is one token: tokens are maximal runs. */
  lemma TokenizeWord(w: string)
    requires w != [] && AllWordChars(w)
    ensures Tokenize(w) == [w]
  {
    TokenizeIsWords(w);
    WordsOfWord(w, "");
    assert [] + w == w;
  }

  /** Two texts whose reference tokens concatenate to those of a third tokenize the same way. */
  lemma TokenizeOfWords(t: string, a: string, b: string)
    requires Words(t, "") == Words(a, "") + Words(b, "")
    ensures Tokenize(t) == Tokenize(a) + Tokenize(b)
  {
    TokenizeIsWords(t);
    TokenizeIsWords(a);
    TokenizeIsWords(b);
  }

  /** White space separates the tokens before it from those after it. */
  lemma TokenizeSplitSpace(a: string, c: char, b: string)
    requires IsSpace(c)
    ensures Tokenize(a + [c] + b) == Tokenize(a) + Tokenize(b)
  {
    var t := a + [c] + b;
    assert Words(t, "") == Words(a, "") + Words(b, "") by {
      WordsSplit(a, c, b, "");
      PunctNotSpace(c);
    }
    TokenizeOfWords(t, a, b);
  }

  /** A punctuation character separates the tokens before it from those after it and is
      a token of its own in between. */
  lemma TokenizeSplitPunct(a: string, c: char, b: string)
    requires IsPunct(c)
    ensures Tokenize(a + [c] + b) == Tokenize(a) + [[c]] + Tokenize(b)
  {
    TokenizeIsWords(a + [c] + b);
    TokenizeIsWords(a);
    TokenizeIsWords(b);
    WordsSplit(a, c, b, "");
  }

  /** Three words separated by single spaces are three tokens. */
  lemma TokenizeWords(x: string, y: string, z: string)
    requires x != [] && AllWordChars(x) && y != [] && AllWordChars(y) && z != [] && AllWordChars(z)
    ensures Tokenize(x + " " + y + " " + z) == [x, y, z]
  {
    var t := x + " " + y + " " + z;
    var yz := y + [' '] + z;
    assert Words(yz, "") == [y, z] by {
      WordsSplit(y, ' ', z, "");
      WordsOfWord(y, "");
      WordsOfWord(z, "");
      assert [] + y == y && [] + z == z;
    }
    assert Words(t, "") == [x, y, z] by {
      assert t == x + [' '] + yz;
      WordsSplit(x, ' ', yz, "");
      WordsOfWord(x, "");
      assert [] + x == x;
    }
    TokenizeIsWords(t);
  }

  // ---------------------------------------------------------------------------
  // Normalizer

  /** `normalize`: lower-case, then trim. */
  function Normalize(word: string): (r: string)
    ensures forall i :: 0 <= i < |r| ==> !IsUpper(r[i])
    ensures r == [] || (!IsSpace(r[0]) && !IsSpace(r[|r| - 1]))
  {
    TrimBlank(ToLower(word));
    TrimLower(ToLower(word));
    Trim(ToLower(word))
  }

  lemma TrimLower(s: string)
    requires forall i :: 0 <= i < |s| ==> !IsUpper(s[i])
    ensures forall i :: 0 <= i < |Trim(s)| ==> !IsUpper(Trim(s)[i])
  {
    var t := TrimStart(s);
    var r := TrimEnd(t);
    assert Trim(s) == r;
    forall i | 0 <= i < |r| ensures !IsUpper(r[i]) {
      assert r[i] == t[i] by { assert r == t[..|r|]; }
      assert t[i] == s[|s| - |t| + i] by { assert t == s[|s| - |t|..]; }
    }
  }

  /** On a token (no white space) normalizing is just lower-casing. */
  /** A word keeps its length under normalisation, so words of different lengths never match. */
  lemma NormalizeLength(w: string)
    requires w != [] && AllWordChars(w)
    ensures |Normalize(w)| == |w|
  {
    NormalizeToken(w);
  }

  lemma NormalizeToken(t: string)
    requires IsToken(t)
    ensures Normalize(t) == ToLower(t)
  {
    assert NoSpace(t) by {
      if |t| == 1 && IsPunct(t[0]) {
        assert t == [t[0]];
      }
    }
    assert NoSpace(ToLower(t));
    TrimBlank(ToLower(t));
  }

  /** Normalizing twice is normalizing once, and a word compares equal to its
      lower-cased form. */
  lemma NormalizeIdempotent(w: string)
    ensures Normalize(Normalize(w)) == Normalize(w)
    ensures Normalize(ToLower(w)) == Normalize(w)
  {
    var n := Normalize(w);
    assert ToLower(n) == n;
    TrimBlank(n);
    if n != [] {
      assert n == TrimStart(n);
      assert n == TrimEnd(n);
    }
    ToLowerIdempotent(w);
  }

  /** Words that agree letter by letter up to case normalize to the same word. */
  lemma NormalizeIgnoresCase(s: string, t: string)
    requires |s| == |t| && forall i :: 0 <= i < |s| ==> LowerChar(s[i]) == LowerChar(t[i])
    ensures Normalize(s) == Normalize(t)
  {
    assert ToLower(s) == ToLower(t);
  }


  // ---------------------------------------------------------------------------
  // Longest common subsequence of two token lists

  /** What `lcs(a, b)` returns: tokens are compared only through `normalize`. */
  function LcsPairs(a: seq<string>, b: seq<string>): seq<(nat, nat)> {
    Backtrack(Keys(a, Normalize), Keys(b, Normalize), |a|, |b|)
  }

  /** The pairs `lcs` returns form a common subsequence of the two token lists under
      normalized comparison, of the largest possible length, which is at most the
      length of the shorter list. */
  lemma LcsIsLongest(a: seq<string>, b: seq<string>)
    ensures IsCommon(Keys(a, Normalize), Keys(b, Normalize), LcsPairs(a, b))
    ensures forall ps :: IsCommon(Keys(a, Normalize), Keys(b, Normalize), ps) ==> |ps| <= |LcsPairs(a, b)|
    ensures |LcsPairs(a, b)| <= |a| && |LcsPairs(a, b)| <= |b|
  {
    var ka, kb := Keys(a, Normalize), Keys(b, Normalize);
    BacktrackCommon(ka, kb, |a|, |b|);
    forall ps | IsCommon(ka, kb, ps) ensures |ps| <= |LcsPairs(a, b)| {
      TableIsMaximal(ka, kb, |a|, |b|, ps);
    }
  }

  /** The pairs `lcs` returns index into both lists and increase strictly in both
      components. */
  lemma LcsIndices(a: seq<string>, b: seq<string>)
    ensures var ps := LcsPairs(a, b);
      && (forall k :: 0 <= k < |ps| ==> ps[k].0 < |a| && ps[k].1 < |b|)
      && (forall k, l :: 0 <= k < l < |ps| ==> ps[k].0 < ps[l].0 && ps[k].1 < ps[l].1)
  {
    var ka, kb := Keys(a, Normalize), Keys(b, Normalize);
    BacktrackIndices(ka, kb);
    assert LcsPairs(a, b) == Backtrack(ka, kb, |ka|, |kb|);
  }

  /** `lcs` returns no more pairs than either list has tokens. */
  lemma LcsLength(a: seq<string>, b: seq<string>)
    ensures |LcsPairs(a, b)| <= |a| && |LcsPairs(a, b)| <= |b|
  {
    BacktrackCommon(Keys(a, Normalize), Keys(b, Normalize), |a|, |b|);
  }

  /** A token list matched against itself pairs every index with itself. */
  lemma LcsOfSelf(a: seq<string>)
    ensures LcsPairs(a, a) == Diagonal(|a|)
  {
    BacktrackOfSelf(Keys(a, Normalize), |a|);
  }

  // ---------------------------------------------------------------------------
  // Segments

  /** One step of merging: the next segment joins the last merged one if their types
      agree, and is appended otherwise. */
  function Absorb(r: seq<DiffSegment>, x: DiffSegment): seq<DiffSegment> {
    if r != [] && r[|r| - 1].kind == x.kind then
      r[..|r| - 1] + [DiffSegment(r[|r| - 1].text + " " + x.text, x.kind)]
    else r + [x]
  }

  /** `mergeSegments`, specified from the right: the last segment either extends the
      last merged segment (same type, joined with one space) or starts a new one. */
  function Merged(segs: seq<DiffSegment>): seq<DiffSegment>
  {
    if segs == [] then [] else Absorb(Merged(segs[..|segs| - 1]), segs[|segs| - 1])
  }

  /** Merging never lengthens the list, empties only the empty list, keeps the type of
      the last segment, and leaves no two neighbouring segments of the same type. */
  lemma {:induction false} MergedShape(segs: seq<DiffSegment>)
    ensures |Merged(segs)| <= |segs|
    ensures Merged(segs) == [] <==> segs == []
    ensures Merged(segs) != [] ==> Merged(segs)[|Merged(segs)| - 1].kind == segs[|segs| - 1].kind
    ensures forall k :: 0 <= k < |Merged(segs)| - 1 ==> Merged(segs)[k].kind != Merged(segs)[k + 1].kind
    decreases |segs|
  {
    if segs != [] {
      var init, x := segs[..|segs| - 1], segs[|segs| - 1];
      var r := Merged(init);
      MergedShape(init);
      if r != [] && r[|r| - 1].kind == x.kind {
        var out := r[..|r| - 1] + [DiffSegment(r[|r| - 1].text + " " + x.text, x.kind)];
        assert Merged(segs) == out;
        forall k | 0 <= k < |out| - 1 ensures out[k].kind != out[k + 1].kind {
          assert out[k] == r[k];
          assert out[k + 1].kind == r[k + 1].kind;
        }
      } else {
        var out := r + [x];
        assert Merged(segs) == out;
        forall k | 0 <= k < |out| - 1 ensures out[k].kind != out[k + 1].kind {
          assert out[k] == r[k];
          if k + 1 < |r| {
            assert out[k + 1] == r[k + 1];
          }
        }
      }
    }
  }

  function Texts(segs: seq<DiffSegment>): (r: seq<string>)
    ensures |r| == |segs|
    ensures forall k :: 0 <= k < |segs| ==> r[k] == segs[k].text
  {
    seq(|segs|, k requires 0 <= k < |segs| => segs[k].text)
  }

  lemma TextsSnoc(segs: seq<DiffSegment>, x: DiffSegment)
    ensures Texts(segs + [x]) == Texts(segs) + [x.text]
  {
  }

  /** Merging loses no text: the merged texts joined with spaces equal the input texts
      joined with spaces. */
  lemma {:induction false} MergedJoin(segs: seq<DiffSegment>)
    ensures Join(Texts(Merged(segs)), " ") == Join(Texts(segs), " ")
    decreases |segs|
  {
    if segs != [] {
      var init, x := segs[..|segs| - 1], segs[|segs| - 1];
      var r := Merged(init);
      MergedJoin(init);
      assert init + [x] == segs;
      TextsSnoc(init, x);
      JoinSnoc(Texts(init), x.text, " ");
      if r != [] && r[|r| - 1].kind == x.kind {
        var y := DiffSegment(r[|r| - 1].text + " " + x.text, x.kind);
        assert Merged(segs) == r[..|r| - 1] + [y];
        TextsSnoc(r[..|r| - 1], y);
        assert Texts(r[..|r| - 1]) == Texts(r)[..|r| - 1];
        JoinExtendLast(Texts(r), x.text, " ");
      } else {
        assert Merged(segs) == r + [x];
        TextsSnoc(r, x);
        JoinSnoc(Texts(r), x.text, " ");
      }
    }
  }

  predicate AllOfKind(segs: seq<DiffSegment>, kind: SegmentType) {
    forall k :: 0 <= k < |segs| ==> segs[k].kind == kind
  }

  /** A run of segments of one type merges into a single segment of that type whose
      text is the run's texts joined with spaces. */
  lemma {:induction false} MergedRun(run: seq<DiffSegment>, kind: SegmentType)
    requires run != [] && AllOfKind(run, kind)
    ensures Merged(run) == [DiffSegment(Join(Texts(run), " "), kind)]
    decreases |run|
  {
    var init, x := run[..|run| - 1], run[|run| - 1];
    assert init + [x] == run;
    TextsSnoc(init, x);
    JoinSnoc(Texts(init), x.text, " ");
    if init != [] {
      MergedRun(init, kind);
    }
  }

  lemma MergedSnoc(segs: seq<DiffSegment>, x: DiffSegment)
    ensures Merged(segs + [x]) == Absorb(Merged(segs), x)
  {
    assert (segs + [x])[..|segs|] == segs;
  }

  lemma AbsorbAppend(front: seq<DiffSegment>, r: seq<DiffSegment>, x: DiffSegment)
    requires r != []
    ensures Absorb(front + r, x) == front + Absorb(r, x)
  {
    var fr := front + r;
    assert fr[|fr| - 1] == r[|r| - 1];
    assert fr[..|fr| - 1] == front + r[..|r| - 1];
  }

  /** Where the type changes, nothing is merged across: the two sides merge separately. */
  lemma {:induction false} MergedSplit(a: seq<DiffSegment>, b: seq<DiffSegment>)
    requires a != [] && b != [] && a[|a| - 1].kind != b[0].kind
    ensures Merged(a + b) == Merged(a) + Merged(b)
    decreases |b|
  {
    var init, x := b[..|b| - 1], b[|b| - 1];
    assert b == init + [x];
    assert a + b == (a + init) + [x];
    MergedSnoc(a + init, x);
    MergedSnoc(init, x);
    if init == [] {
      MergedShape(a);
      assert a + init == a;
    } else {
      MergedSplit(a, init);
      MergedShape(init);
      AbsorbAppend(Merged(a), Merged(init), x);
    }
  }

  /** `mergeSegments`: copies the first segment, then either appends to the current
      segment's text or pushes it and starts over. */
  method MergeSegments(segments: seq<DiffSegment>) returns (merged: seq<DiffSegment>)
    ensures merged == Merged(segments)
  {
    if |segments| == 0 {
      return [];
    }
    merged := [];
    var current := segments[0];
    assert segments[..1][..0] == [];
    for i := 1 to |segments|
      invariant merged + [current] == Merged(segments[..i])
    {
      var seg := segments[i];
      assert segments[..i + 1][..i] == segments[..i];
      if seg.kind == current.kind {
        current := current.(text := current.text + " " + seg.text);
      } else {
        merged := merged + [current];
        current := seg;
      }
    }
    merged := merged + [current];
    assert segments[..|segments|] == segments;
  }

  function Elems(s: seq<nat>): set<nat> {
    set x | x in s
  }

  function Firsts(ps: seq<(nat, nat)>): (r: seq<nat>)
    ensures |r| == |ps| && forall k :: 0 <= k < |ps| ==> r[k] == ps[k].0
  {
    seq(|ps|, k requires 0 <= k < |ps| => ps[k].0)
  }

  function Seconds(ps: seq<(nat, nat)>): (r: seq<nat>)
    ensures |r| == |ps| && forall k :: 0 <= k < |ps| ==> r[k] == ps[k].1
  {
    seq(|ps|, k requires 0 <= k < |ps| => ps[k].1)
  }

  function FirstIndices(ps: seq<(nat, nat)>): set<nat> {
    Elems(Firsts(ps))
  }

  function SecondIndices(ps: seq<(nat, nat)>): set<nat> {
    Elems(Seconds(ps))
  }

  /** The `srcTokens.map(...)` / `tgtTokens.map(...)` step of `wordDiff`. */
  function Tag(tokens: seq<string>, matched: set<nat>, other: SegmentType): seq<DiffSegment>
  {
    seq(|tokens|, i requires 0 <= i < |tokens| => DiffSegment(tokens[i], if i in matched then Match else other))
  }

  function MatchedPositions(segs: seq<DiffSegment>): set<nat> {
    set i | 0 <= i < |segs| && segs[i].kind == Match
  }

  /** A strictly increasing list has as many distinct elements as it is long. */
  lemma {:induction false} ElemsCount(s: seq<nat>)
    requires forall k, l :: 0 <= k < l < |s| ==> s[k] < s[l]
    ensures |Elems(s)| == |s|
    decreases |s|
  {
    if s != [] {
      var n := |s| - 1;
      var init := s[..n];
      ElemsCount(init);
      assert s == init + [s[n]];
      assert s[n] !in Elems(init) by {
        forall v | v in init ensures v < s[n] {
          var k :| 0 <= k < n && init[k] == v;
        }
      }
      assert Elems(s) == Elems(init) + {s[n]};
    }
  }

  /** Tagging with a strictly increasing list of in-range indices marks exactly those
      indices `match`, as many as the list is long, and every other token `other`. */
  lemma TagSide(tokens: seq<string>, idx: seq<nat>, other: SegmentType)
    requires other != Match
    requires forall k :: 0 <= k < |idx| ==> idx[k] < |tokens|
    requires forall k, l :: 0 <= k < l < |idx| ==> idx[k] < idx[l]
    ensures MatchedPositions(Tag(tokens, Elems(idx), other)) == Elems(idx)
    ensures |Elems(idx)| == |idx|
    ensures forall i :: 0 <= i < |tokens| && i !in Elems(idx) ==> Tag(tokens, Elems(idx), other)[i].kind == other
  {
    ElemsCount(idx);
    var t := Tag(tokens, Elems(idx), other);
    forall i | i in Elems(idx) ensures i in MatchedPositions(t) {
      var k :| 0 <= k < |idx| && idx[k] == i;
    }
  }

  /** In `wordDiff`, a source token is tagged `match` exactly when its index is the
      first component of a pair `lcs` returned; there are as many `match` tokens as
      pairs, and every other source token is `source-only`. */
  lemma SourceTagging(src: seq<string>, tgt: seq<string>)
    ensures var ps := LcsPairs(src, tgt);
      && MatchedPositions(Tag(src, FirstIndices(ps), SourceOnly)) == FirstIndices(ps)
      && |MatchedPositions(Tag(src, FirstIndices(ps), SourceOnly))| == |ps|
      && (forall i :: 0 <= i < |src| && i !in FirstIndices(ps) ==> Tag(src, FirstIndices(ps), SourceOnly)[i].kind == SourceOnly)
  {
    var ps := LcsPairs(src, tgt);
    LcsIndices(src, tgt);
    var f := Firsts(ps);
    assert forall k :: 0 <= k < |f| ==> f[k] < |src|;
    assert forall k, l :: 0 <= k < l < |f| ==> f[k] < f[l];
    TagSide(src, f, SourceOnly);
  }

  /** The same on the target side, with second components and `target-only`. */
  lemma TargetTagging(src: seq<string>, tgt: seq<string>)
    ensures var ps := LcsPairs(src, tgt);
      && MatchedPositions(Tag(tgt, SecondIndices(ps), TargetOnly)) == SecondIndices(ps)
      && |MatchedPositions(Tag(tgt, SecondIndices(ps), TargetOnly))| == |ps|
      && (forall i :: 0 <= i < |tgt| && i !in SecondIndices(ps) ==> Tag(tgt, SecondIndices(ps), TargetOnly)[i].kind == TargetOnly)
  {
    var ps := LcsPairs(src, tgt);
    LcsIndices(src, tgt);
    var g := Seconds(ps);
    assert forall k :: 0 <= k < |g| ==> g[k] < |tgt|;
    assert forall k, l :: 0 <= k < l < |g| ==> g[k] < g[l];
    TagSide(tgt, g, TargetOnly);
  }

  /** `wordDiff` */
  function WordDiff(source: string, target: string): DiffResult
  {
    var src := Tokenize(source);
    var tgt := Tokenize(target);
    var ps := LcsPairs(src, tgt);
    DiffResult(Merged(Tag(src, FirstIndices(ps), SourceOnly)), Merged(Tag(tgt, SecondIndices(ps), TargetOnly)))
  }

  predicate IsLetter(c: char) {
    'A' <= c <= 'Z' || 'a' <= c <= 'z'
  }

  /** A word of ASCII letters is made of word characters. */
  lemma LettersAreWordChars(w: string)
    requires forall i :: 0 <= i < |w| ==> IsLetter(w[i])
    ensures AllWordChars(w)
  {
    forall i | 0 <= i < |w| ensures IsWordChar(w[i]) {
      var c := w[i];
      assert IsLetter(c);
      assert !IsPunct(c) by {
        var punct := ".,;:!?()[]{}\"-";
        assert forall k :: 0 <= k < |punct| ==> !IsLetter(punct[k]);
      }
    }
  }

  /** The source tokens of the worked example. */
  lemma ExampleSourceTokens()
    ensures Tokenize("The cat sat") == ["The", "cat", "sat"]
  {
    var the, cat, sat := "The", "cat", "sat";
    assert the + " " + cat + " " + sat == "The cat sat";
    assert AllWordChars(the) && AllWordChars(cat) && AllWordChars(sat) by {
      LettersAreWordChars(the);
      LettersAreWordChars(cat);
      LettersAreWordChars(sat);
    }
    TokenizeWords(the, cat, sat);
  }

  /** The target tokens of the worked example. */
  lemma ExampleTargetTokens()
    ensures Tokenize("A cat sat") == ["A", "cat", "sat"]
  {
    var a, cat, sat := "A", "cat", "sat";
    assert a + " " + cat + " " + sat == "A cat sat";
    assert AllWordChars(a) && AllWordChars(cat) && AllWordChars(sat) by {
      LettersAreWordChars(a);
      LettersAreWordChars(cat);
      LettersAreWordChars(sat);
    }
    TokenizeWords(a, cat, sat);
  }

  /** Three keys of which the first differ and the other two agree: the backtrack pairs
      the second and the third. */
  lemma BacktrackLastTwo(ka: seq<string>, kb: seq<string>)
    requires |ka| == 3 && |kb| == 3 && ka[0] != kb[0] && ka[1] == kb[1] && ka[2] == kb[2]
    ensures Backtrack(ka, kb, 3, 3) == [(1, 1), (2, 2)]
  {
    assert Backtrack(ka, kb, 1, 1) == [];
    assert Backtrack(ka, kb, 2, 2) == [(1, 1)];
  }

  /** Two three-token lists whose first tokens differ under normalization and whose
      other tokens agree: `lcs` pairs the second tokens and the third tokens. */
  lemma LcsPairsLastTwo(src: seq<string>, tgt: seq<string>)
    requires |src| == 3 && |tgt| == 3
    requires Normalize(src[0]) != Normalize(tgt[0]) && src[1] == tgt[1] && src[2] == tgt[2]
    ensures LcsPairs(src, tgt) == [(1, 1), (2, 2)]
  {
    BacktrackLastTwo(Keys(src, Normalize), Keys(tgt, Normalize));
  }

  /** Two three-word texts that differ only in the first word: that word is marked on
      each side and the other two are one matched segment. */
  /** The matched positions of the pairs `(1, 1), (2, 2)` on either side are 1 and 2. */
  lemma LastTwoIndices()
    ensures 0 !in FirstIndices([(1, 1), (2, 2)]) && 1 in FirstIndices([(1, 1), (2, 2)])
      && 2 in FirstIndices([(1, 1), (2, 2)])
    ensures 0 !in SecondIndices([(1, 1), (2, 2)]) && 1 in SecondIndices([(1, 1), (2, 2)])
      && 2 in SecondIndices([(1, 1), (2, 2)])
  {
    var ps: seq<(nat, nat)> := [(1, 1), (2, 2)];
    assert Firsts(ps) == [1, 2];
    assert Seconds(ps) == [1, 2];
  }

  /** Three tokens whose last two are matched are tagged `other, Match, Match`. */
  lemma TagLastTwo(tokens: seq<string>, matched: set<nat>, other: SegmentType)
    requires |tokens| == 3 && 0 !in matched && 1 in matched && 2 in matched
    ensures Tag(tokens, matched, other)
      == [DiffSegment(tokens[0], other), DiffSegment(tokens[1], Match), DiffSegment(tokens[2], Match)]
  {
  }

  /** Two three-word texts that differ, after normalisation, only in their first word:
      each side keeps that word on its own and merges the other two into one match. */
  lemma WordDiffFirstWord(source: string, target: string)
    requires |Tokenize(source)| == 3 && |Tokenize(target)| == 3
    requires Normalize(Tokenize(source)[0]) != Normalize(Tokenize(target)[0])
    requires Tokenize(source)[1] == Tokenize(target)[1] && Tokenize(source)[2] == Tokenize(target)[2]
    ensures var src, tgt := Tokenize(source), Tokenize(target);
      WordDiff(source, target)
      == DiffResult([DiffSegment(src[0], SourceOnly), DiffSegment(src[1] + " " + src[2], Match)],
                    [DiffSegment(tgt[0], TargetOnly), DiffSegment(src[1] + " " + src[2], Match)])
  {
    var src, tgt := Tokenize(source), Tokenize(target);
    LcsPairsLastTwo(src, tgt);
    LastTwoIndices();
    var ps: seq<(nat, nat)> := [(1, 1), (2, 2)];
    TagLastTwo(src, FirstIndices(ps), SourceOnly);
    TagLastTwo(tgt, SecondIndices(ps), TargetOnly);
    MergedExample(Tag(src, FirstIndices(ps), SourceOnly));
    MergedExample(Tag(tgt, SecondIndices(ps), TargetOnly));
  }

  /** The worked example: `The cat sat` against `A cat sat` marks only the first word of
      each side, and merges the two matched words into one segment. */
  lemma WordDiffExample()
    ensures WordDiff("The cat sat", "A cat sat")
      == DiffResult([DiffSegment("The", SourceOnly), DiffSegment("cat sat", Match)],
                    [DiffSegment("A", TargetOnly), DiffSegment("cat sat", Match)])
  {
    var the, a, cat, sat := "The", "A", "cat", "sat";
    assert cat + " " + sat == "cat sat";
    assert Normalize(the) != Normalize(a) by {
      LettersAreWordChars(the);
      LettersAreWordChars(a);
      NormalizeLength(the);
      NormalizeLength(a);
    }
    ExampleSourceTokens();
    ExampleTargetTokens();
    WordDiffFirstWord("The cat sat", "A cat sat");
  }

  /** A segment followed by two matched segments of another type. */
  lemma MergedExample(segs: seq<DiffSegment>)
    requires |segs| == 3 && segs[0].kind != Match && segs[1].kind == Match && segs[2].kind == Match
    ensures Merged(segs) == [segs[0], DiffSegment(segs[1].text + " " + segs[2].text, Match)]
  {
    assert segs[..1][..0] == [];
    assert segs[..2][..1] == segs[..1];
    assert segs[..3][..2] == segs[..2];
    assert Merged(segs[..1]) == [segs[0]];
    assert Merged(segs[..2]) == segs[..2];
  }


  lemma TagTexts(tokens: seq<string>, matched: set<nat>, other: SegmentType)
    ensures Texts(Tag(tokens, matched, other)) == tokens
  {
  }

  /** Each side of `wordDiff` shows exactly the tokens of its text, joined by single
      spaces, in runs whose types alternate; a side is empty only for a text without tokens. */
  lemma WordDiffText(source: string, target: string)
    ensures Join(Texts(WordDiff(source, target).source), " ") == Join(Tokenize(source), " ")
    ensures Join(Texts(WordDiff(source, target).target), " ") == Join(Tokenize(target), " ")
    ensures (WordDiff(source, target).source == []) <==> (Tokenize(source) == [])
    ensures (WordDiff(source, target).target == []) <==> (Tokenize(target) == [])
  {
    var src := Tokenize(source);
    var tgt := Tokenize(target);
    var ps := LcsPairs(src, tgt);
    MergedJoin(Tag(src, FirstIndices(ps), SourceOnly));
    MergedJoin(Tag(tgt, SecondIndices(ps), TargetOnly));
    MergedShape(Tag(src, FirstIndices(ps), SourceOnly));
    MergedShape(Tag(tgt, SecondIndices(ps), TargetOnly));
    TagTexts(src, FirstIndices(ps), SourceOnly);
    TagTexts(tgt, SecondIndices(ps), TargetOnly);
  }

  // ---------------------------------------------------------------------------
  // Similarity

  /** The ratio `textSimilarity` computes from the two token lists. */
  function TokenSimilarity(src: seq<string>, tgt: seq<string>): real
  {
    if |src| == 0 && |tgt| == 0 then 1.0
    else if |src| == 0 || |tgt| == 0 then 0.0
    else Dice(|LcsPairs(src, tgt)|, |src| + |tgt|)
  }

  /** The Dice ratio `2k / total`: at most one when the `k` common items are counted
      on both sides of `total`. */
  function Dice(common: nat, total: nat): (r: real)
    requires 0 < total
    ensures 2 * common <= total ==> 0.0 <= r <= 1.0
    ensures 2 * common == total ==> r == 1.0
  {
    (2 * common) as real / total as real
  }

  /** `textSimilarity` */
  function TextSimilarity(source: string, target: string): real
  {
    TokenSimilarity(Tokenize(source), Tokenize(target))
  }

  /** The ratio is 1 for two lists without tokens, 0 when exactly one is empty, and
      always lies in [0, 1]. */
  lemma SimilarityRange(src: seq<string>, tgt: seq<string>)
    ensures 0.0 <= TokenSimilarity(src, tgt) <= 1.0
    ensures src == [] && tgt == [] ==> TokenSimilarity(src, tgt) == 1.0
    ensures (src == []) != (tgt == []) ==> TokenSimilarity(src, tgt) == 0.0
  {
    if src != [] && tgt != [] {
      DiceRange(src, tgt);
    }
  }

  /** For two non-empty lists the ratio is the Dice ratio `2k / (m + n)`, where `k` is
      the length of a longest common subsequence under normalized comparison. */
  lemma SimilarityIsDice(src: seq<string>, tgt: seq<string>)
    requires src != [] && tgt != []
    ensures exists ps ::
      && IsCommon(Keys(src, Normalize), Keys(tgt, Normalize), ps)
      && (forall qs :: IsCommon(Keys(src, Normalize), Keys(tgt, Normalize), qs) ==> |qs| <= |ps|)
      && TokenSimilarity(src, tgt) == Dice(|ps|, |src| + |tgt|)
  {
    var ps := LcsPairs(src, tgt);
    LcsIsLongest(src, tgt);
    assert TokenSimilarity(src, tgt) == Dice(|ps|, |src| + |tgt|);
    assert IsCommon(Keys(src, Normalize), Keys(tgt, Normalize), ps);
  }

  lemma DiceRange(src: seq<string>, tgt: seq<string>)
    requires src != [] && tgt != []
    ensures 0.0 <= TokenSimilarity(src, tgt) <= 1.0
  {
    LcsLength(src, tgt);
  }

  /** A token list is fully similar to itself. */
  lemma TokenSimilarityOfSelf(t: seq<string>)
    ensures TokenSimilarity(t, t) == 1.0
  {
    LcsOfSelf(t);
    assert |LcsPairs(t, t)| == |t|;
  }

  /** A text is fully similar to itself. */
  lemma SimilarityOfSelf(s: string)
    ensures TextSimilarity(s, s) == 1.0
  {
    TokenSimilarityOfSelf(Tokenize(s));
  }
}
