# scale-align-web, verified model of the core

scale-align-web lets a reader compare two parallel classification standards (ISIC 5 as
the source, NACE 2.1 as the target) sentence by sentence. An offline script turns
sentence-alignment files into one JSON document. The web page then shows each
correspondence (a source code paired with a target code) with a word-level diff of the
aligned sentences. This project models three parts of that program in Dafny and proves
what they promise:

- **The word-level diff engine** (`src/lib/diff.ts`), in module `Diff`, with the
  dynamic-programming longest common subsequence in module `Subsequence`. It covers
  tokenizing, normalizing, the `lcs` table fill and backtrack, tagging in `wordDiff`,
  `mergeSegments` and `textSimilarity`.
- **The alignment preprocessor** (`scripts/preprocess.mjs`), in module `Preprocess`.
  It covers the `[src]:[tgt]:score` grammar, parsing line lists and scores, type
  classification, the sort key, the trailing-line filter of `loadTextFile`, the
  per-pair parse/sort/strip loop, the statistics and the final sort by source code.
- **The list state** (`src/lib/state.svelte.ts`), in module `State`. It covers the
  search filter and ordering behind the visible list, the selected correspondence,
  and keyboard navigation. `AppState` is a class whose `NavigateList` method updates
  the `selectedId` field.

The supporting modules are:

- `Types`: the records of `src/lib/types.ts`.
- `Text`: JavaScript's white space, `trim`, `toLowerCase`, `includes` and `split` on
  one character.
- `Sorting`: `Array.prototype.sort` as a stable insertion sort, with permutation,
  order and stability proved.
- `Lists`: a generic "append what each element gives" loop, with the positions of
  the elements that gave something.

Imperative code stays imperative:

- `Subsequence.LcsTable` fills an `array2` in nested loops, one row per
  `Subsequence.FillRow` call.
- `Subsequence.Lcs` backtracks in a `while` loop.
- `Diff.MergeSegments`, `Preprocess.ParseRecords`, `Preprocess.ParseAlignments` and
  `Preprocess.Preprocess` loop and push.
- `State.AppState.NavigateList` assigns its field.

Each of these is proved equal to a specification function, and the properties are
proved about those functions. Pure functions (`Diff.WordDiff`, `Diff.TextSimilarity`)
use the specification functions, because Dafny functions cannot call methods.

Behaviour of the code that a reader might not expect:

- When the two tokens differ and the table values above and to the left are equal,
  the backtrack steps along the target list (`j--`), not along the source list.
- The line `[]:[]:0` is accepted. It becomes an `unmatched` record whose sort key is
  +∞.
- The `avgScore` numerator adds every score above 0, including those of `unmatched`
  records. The denominator counts only the aligned records, so the average can exceed
  1 (`Preprocess.AvgScoreCountsUnmatched`).

## Model

| member | source | states |
|---|---|---|
| Text.Trim | src/lib/diff.ts:19 | `trim()` as `trimEnd` after `trimStart`; what it keeps and what it drops is stated by Text.TrimBlank |
| Text.TrimStart | src/lib/diff.ts:19 | `trimStart` drops a prefix made only of white space and leaves a result that is empty or does not start with white space |
| Text.TrimEnd | src/lib/diff.ts:19 | `trimEnd` drops a suffix made only of white space and leaves a result that is empty or does not end with white space |
| Text.TrimBlank | src/lib/diff.ts:12 | `trim()` is empty exactly for an all-white-space string; it changes nothing in a string without white space, and otherwise its result has no white space at either end |
| Text.LowerChar | src/lib/diff.ts:19 | `toLowerCase` on one character: an upper-case ASCII letter becomes its lower-case form, the letter 32 code points above it; any other character is unchanged; the result is never upper-case and is white space exactly when the input is |
| Text.ToLower | src/lib/diff.ts:19 | `toLowerCase` keeps the length, maps every upper-case ASCII letter to its lower-case form (32 code points above), leaves every other character unchanged, so no upper-case letter remains and white space stays where it was |
| Text.ToLowerIdempotent | src/lib/diff.ts:19 | lower-casing twice is lower-casing once |
| Text.ContainsAt | src/lib/state.svelte.ts:21-22 | `includes(q)` holds exactly when `q` occurs at some position of the string |
| Text.Contains | src/lib/state.svelte.ts:21-22 | `includes(q)`: `q` is a prefix of the string or of one of its suffixes; Text.ContainsAt restates it as an occurrence at some position |
| Text.SplitAt | scripts/preprocess.mjs:17-18 | `split(',')` gives at least one piece and no piece contains the separator |
| Text.SplitAtJoin | scripts/preprocess.mjs:17-18 | joining the pieces of a split with the separator gives back the string |
| Sorting.Sort | scripts/preprocess.mjs:101 | `Array.prototype.sort` with a comparator, as a stable insertion sort; its results are described by the three lemmas below |
| Sorting.SortPermutes | scripts/preprocess.mjs:101 | sorting returns a permutation of its input |
| Sorting.SortSorted | scripts/preprocess.mjs:101 | with a consistent comparator the sorted list is ordered by it |
| Sorting.SortStable | scripts/preprocess.mjs:101 | for every value, the elements comparing equal to it keep their input order |
| Lists.Collect | scripts/preprocess.mjs:88-95 | the push loop over the lines: the items each line gives, in line order |
| Lists.Kept | scripts/preprocess.mjs:88-95 | the positions of the lines that gave at least one item |
| Lists.CollectAppend | scripts/preprocess.mjs:88-95 | the push loop handles lines independently: the items of a concatenation are the items of each part, in order |
| Lists.CollectFrom | scripts/preprocess.mjs:88-95 | every pushed item comes from some input line |
| Lists.KeptIncreasing | scripts/preprocess.mjs:88-95 | the positions of the lines that pushed something increase strictly and lie in range |
| Lists.KeptGives | scripts/preprocess.mjs:88-95 | when each line pushes at most one item, the k-th item is the one pushed by the k-th kept line |
| Lists.KeptOthers | scripts/preprocess.mjs:88-95 | a line whose position was not kept pushed nothing |
| Subsequence.Backtrack | src/lib/diff.ts:42-57 | the backtrack from cell (i, j): on equal tokens the pair is put in front and both indices step back; otherwise `i--` when the entry above is larger, else `j--` |
| Subsequence.Table | src/lib/diff.ts:30-40 | an entry of the dp table is at most the length of either prefix |
| Subsequence.BacktrackCommon | src/lib/diff.ts:42-57 | from any cell, the backtrack yields a common subsequence of the two prefixes whose length is the table entry |
| Subsequence.TableIsMaximal | src/lib/diff.ts:30-40 | no common subsequence of two prefixes is longer than their table entry |
| Subsequence.BacktrackIndices | src/lib/diff.ts:43-57 | the pairs index into both lists and increase strictly in both components |
| Subsequence.BacktrackOfSelf | src/lib/diff.ts:46-49 | a list backtracked against itself pairs every index with itself, because equal tokens are always taken |
| Subsequence.LcsTable | src/lib/diff.ts:30-40 | the nested loops leave a fresh (m+1)×(n+1) array whose every entry is the specified table value for the normalized keys |
| Subsequence.FillRow | src/lib/diff.ts:33-39 | given correct earlier rows, the inner loop makes row `i` correct and changes no other row |
| Subsequence.Lcs | src/lib/diff.ts:25-58 | the table fill and the `while` loop that prepends matches return the specified backtrack, including its tie-break towards `j--` |
| Diff.Tokenize | src/lib/diff.ts:11-13 | `tokenize`: `split` at white-space runs and at the listed punctuation characters, keeping the separators as pieces, then dropping the pieces that are blank after `trim()` |
| Diff.Words | src/lib/diff.ts:11-13 | a reference tokenizer reading one character at a time: white space ends the current word, a punctuation character ends it and is a token of its own, any other character extends it |
| Diff.TokenizeIsWords | src/lib/diff.ts:11-13 | on every text `tokenize` gives exactly the tokens of the reference tokenizer |
| Diff.WordsSplit | src/lib/diff.ts:11-13 | for the reference tokenizer, a separator character splits the text: the tokens before it, then the character itself if it is punctuation, then the tokens after it |
| Diff.TokenizeWord | src/lib/diff.ts:11-13 | a non-empty run of characters that are neither white space nor punctuation is a single token, so tokens are maximal runs |
| Diff.TokenizeSplitSpace | src/lib/diff.ts:11-13 | a white-space character between two texts gives the tokens of the first then those of the second: no token spans it and none is added |
| Diff.TokenizeSplitPunct | src/lib/diff.ts:11-13 | a punctuation character between two texts is one token between the tokens of the first and those of the second |
| Diff.TokenizeWords | src/lib/diff.ts:11-13 | three words separated by single spaces give exactly those three tokens, so `The cat sat` gives `The`, `cat`, `sat` |
| Diff.ExampleSourceTokens | src/lib/diff.ts:11-13 | `tokenize("The cat sat")` is `["The", "cat", "sat"]` |
| Diff.ExampleTargetTokens | src/lib/diff.ts:11-13 | `tokenize("A cat sat")` is `["A", "cat", "sat"]` |
| Diff.TokenizeShape | src/lib/diff.ts:11-13 | every token is either one listed punctuation character or a non-empty run of characters that are neither white space nor punctuation |
| Diff.TokenizeConcat | src/lib/diff.ts:11-13 | tokenizing loses only white space: the tokens, concatenated, are the text with its white space removed |
| Diff.Normalize | src/lib/diff.ts:18-20 | a normalized word has no upper-case letter and no white space at either end |
| Diff.NormalizeToken | src/lib/diff.ts:18-20 | on a token, normalizing is just lower-casing |
| Diff.NormalizeIdempotent | src/lib/diff.ts:18-20 | normalizing twice is normalizing once, and a word compares equal to its lower-cased form |
| Diff.NormalizeIgnoresCase | src/lib/diff.ts:18-20 | two words that agree letter by letter up to case normalize to the same string, so `lcs` compares them as equal |
| Diff.NormalizeLength | src/lib/diff.ts:18-20 | a word keeps its length under normalization, so words of different lengths never compare equal |
| Diff.LcsPairs | src/lib/diff.ts:25-58 | `lcs`: the backtrack from the last cell of the table built on the normalized tokens; its properties are the three lemmas below |
| Diff.LcsIsLongest | src/lib/diff.ts:30-55 | the pairs `lcs` returns form a common subsequence under normalized comparison, no common subsequence is longer, and its length is at most min(m, n) |
| Diff.LcsIndices | src/lib/diff.ts:43-57 | the pairs lie in range and increase strictly in both indices |
| Diff.LcsOfSelf | src/lib/diff.ts:46-49 | a token list matched against itself gives the pairs (i, i) for every index |
| Diff.BacktrackLastTwo | src/lib/diff.ts:42-57 | on three keys against three keys that differ only in the first, the backtrack returns the pairs (1, 1) and (2, 2) |
| Diff.LcsPairsLastTwo | src/lib/diff.ts:25-58 | two three-token lists whose first tokens differ after normalization and whose other tokens are equal give the `lcs` pairs (1, 1) and (2, 2) |
| Diff.Absorb | src/lib/diff.ts:95-101 | one pass of the merge loop: a segment of the same type as the current one is appended to its text after one space; any other segment starts a new one |
| Diff.Merged | src/lib/diff.ts:88-106 | `mergeSegments` specified from the right: each segment in turn goes through the loop step Diff.Absorb |
| Diff.MergedShape | src/lib/diff.ts:88-106 | merging never lengthens the list, gives `[]` exactly for `[]`, keeps the type of the last segment, and leaves no two neighbouring segments of the same type |
| Diff.MergedJoin | src/lib/diff.ts:88-106 | the merged texts joined with spaces equal the input texts joined with spaces |
| Diff.MergedRun | src/lib/diff.ts:88-106 | a non-empty run of segments of one type merges into a single segment of that type whose text is the run's texts joined with single spaces |
| Diff.MergedSplit | src/lib/diff.ts:88-106 | where two neighbouring segments differ in type nothing is merged across: the two sides merge separately; with Diff.MergedRun, every output segment is one maximal run of same-type neighbours |
| Diff.MergeSegments | src/lib/diff.ts:88-106 | the copy, append-or-push loop computes the specified merge, so the shape and text properties above hold for it |
| Diff.WordDiff | src/lib/diff.ts:63-86 | `wordDiff`: each side's tokens tagged `match` or their side's own type by the `lcs` pairs, then merged; its properties are the three lemmas below |
| Diff.SourceTagging | src/lib/diff.ts:67-74 | a source token is tagged `match` exactly when its index is a first component of an `lcs` pair, there are as many `match` tokens as pairs, and every other token is `source-only` |
| Diff.TargetTagging | src/lib/diff.ts:67-79 | the same on the target side, with second components and `target-only` |
| Diff.WordDiffText | src/lib/diff.ts:63-86 | each side of the diff shows exactly its text's tokens joined by single spaces, and is empty only when its text has no token |
| Diff.TagLastTwo | src/lib/diff.ts:71-79 | three tokens whose positions 1 and 2 are matched and 0 is not are tagged: the first with its side's own type, the other two `match` |
| Diff.MergedExample | src/lib/diff.ts:88-106 | an unmatched segment followed by two matched ones merges into that segment and one `match` segment of the two texts joined by a space |
| Diff.WordDiffFirstWord | src/lib/diff.ts:63-86 | two three-word texts that differ, after normalization, only in the first word: each side keeps its first word alone, of its own type, followed by one `match` segment holding the other two words |
| Diff.WordDiffExample | src/lib/diff.ts:63-86 | `wordDiff("The cat sat", "A cat sat")` is source `The` (source-only), `cat sat` (match) and target `A` (target-only), `cat sat` (match) |
| Diff.TokenSimilarity | src/lib/diff.ts:115-119 | the ratio on token lists: 1 when both are empty, 0 when exactly one is, otherwise twice the `lcs` length over the total length |
| Diff.TextSimilarity | src/lib/diff.ts:111-120 | `textSimilarity`: the ratio of the two texts' token lists |
| Diff.Dice | src/lib/diff.ts:119 | the ratio 2k/(m+n) lies in [0, 1] when 2k ≤ m+n, and is 1 when 2k = m+n |
| Diff.SimilarityRange | src/lib/diff.ts:111-120 | the similarity is 1 when both token lists are empty, 0 when exactly one is, and always lies in [0, 1] |
| Diff.SimilarityIsDice | src/lib/diff.ts:118-119 | for two non-empty token lists the similarity is 2k/(m+n), where k is the length of a longest common subsequence under normalized comparison |
| Diff.TokenSimilarityOfSelf | src/lib/diff.ts:115-119 | a token list is fully similar to itself |
| Diff.SimilarityOfSelf | src/lib/diff.ts:111-120 | `textSimilarity(s, s)` is 1 for every text |
| Preprocess.SplitLines | scripts/preprocess.mjs:46 | `split(/\r?\n/)` gives as many lines as there are pieces between line feeds, and no line contains a line feed |
| Preprocess.SplitAtCount | scripts/preprocess.mjs:46 | splitting on a character gives one piece more than it has occurrences |
| Preprocess.LineCount | scripts/preprocess.mjs:46 | a file has one line more than it has newlines |
| Preprocess.LinesJoin | scripts/preprocess.mjs:46 | for content without carriage returns, joining the lines with newlines gives back the content |
| Preprocess.LinePieces | scripts/preprocess.mjs:46 | every line but the last is the text between two line feeds less one carriage return at its end, and is that text unchanged when it does not end in a carriage return; the last line is the text after the last line feed |
| Preprocess.LinesJoinCrlf | scripts/preprocess.mjs:46 | when every line feed follows a carriage return, joining the lines with CR LF gives back the content |
| Preprocess.LoadTextFile | scripts/preprocess.mjs:43-53 | an unreadable file gives `[]`; otherwise every line is kept except a last line that is blank after trimming |
| Preprocess.WithoutBlankLast | scripts/preprocess.mjs:46-48 | the filter keeps every line before the last, and keeps the last one exactly when it is not blank |
| Preprocess.ListRun | scripts/preprocess.mjs:14 | the scan over `[\d,]*` stops at the first character outside that class |
| Preprocess.DigitRun | scripts/preprocess.mjs:19 | the scan over digits stops at the first non-digit |
| Preprocess.MatchLine | scripts/preprocess.mjs:14-15 | the regular-expression match as a left-to-right scanner that returns the three groups or nothing |
| Preprocess.MatchScoreSound | scripts/preprocess.mjs:14 | an accepted score group is a non-empty run of `[\d.]` and is the whole rest of the line |
| Preprocess.MatchScoreComplete | scripts/preprocess.mjs:14 | every non-empty run of `[\d.]` is accepted as a score group |
| Preprocess.MatchTargetSound | scripts/preprocess.mjs:14 | an accepted target part is `]:[`, a `[\d,]*` group, `]:` and a score group, with nothing left over |
| Preprocess.MatchTargetComplete | scripts/preprocess.mjs:14 | every text of that form is accepted with those groups |
| Preprocess.MatchLineSound | scripts/preprocess.mjs:14-15 | a line the matcher accepts spells the whole pattern `^\[([\d,]*)\]:\[([\d,]*)\]:([\d.]+)$` with the returned groups |
| Preprocess.MatchLineComplete | scripts/preprocess.mjs:14-15 | every line spelling the pattern is accepted, with its own groups |
| Preprocess.FractionRange | scripts/preprocess.mjs:19 | the digits after the point contribute a value in [0, 1) |
| Preprocess.ListPiecesAreDigits | scripts/preprocess.mjs:17-18 | every comma-separated piece of a `[\d,]*` group is a (possibly empty) run of digits |
| Preprocess.NumberList | scripts/preprocess.mjs:17-18 | an empty group gives `[]`; a non-empty one gives one number per comma-separated piece, namely that piece's decimal value, with `Number("")` read as 0 |
| Preprocess.ParseFloat | scripts/preprocess.mjs:19 | `parseFloat` of a `[\d.]+` group: the exact value of its longest decimal prefix, NaN when it has none |
| Preprocess.ParseFloatWhole | scripts/preprocess.mjs:19 | `parseFloat` of a digit run is its decimal value |
| Preprocess.ParseFloatDecimal | scripts/preprocess.mjs:19 | `parseFloat` of `w.f…` is the value of `w` plus the fraction `f`; whatever follows a second point is ignored |
| Preprocess.ParseFloatNaN | scripts/preprocess.mjs:19 | a score group parses to NaN exactly when it starts with a point not followed by a digit |
| Preprocess.ParseFloatNonNegative | scripts/preprocess.mjs:19 | a parsed score, when a number, is never negative |
| Preprocess.Classify | scripts/preprocess.mjs:22-33 | a record is `unmatched` exactly when a list is empty, and otherwise `1:1`, `1:N`, `N:1` or `N:M` exactly when the list lengths equal 1 accordingly |
| Preprocess.MinOf | scripts/preprocess.mjs:36 | `Math.min(...xs)` on a non-empty list is an element of the list and no element is smaller |
| Preprocess.SortKeyOf | scripts/preprocess.mjs:35-37 | the key is +∞ exactly when both lists are empty, else the minimum of the source lines when there are any, else the minimum of the target lines |
| Preprocess.RecordOf | scripts/preprocess.mjs:16-39 | a parsed record holds the two number lists of its groups, the parsed score, the type of its lists and their sort key |
| Preprocess.ParseAlignmentLine | scripts/preprocess.mjs:13-40 | `parseAlignmentLine`: nothing when the pattern does not match, otherwise the record built from its groups |
| Preprocess.ParseAlignmentLineAccepts | scripts/preprocess.mjs:13-15 | `parseAlignmentLine` returns a record exactly when the line spells the pattern |
| Preprocess.ParseAlignmentLineFields | scripts/preprocess.mjs:13-40 | for a line spelling the pattern with some groups, the record is the one built from those groups |
| Preprocess.NumberListExample | scripts/preprocess.mjs:17 | `1,,2` gives `[1, 0, 2]` |
| Preprocess.ParseExampleEmptyPiece | scripts/preprocess.mjs:13-40 | `[1,,2]:[3]:0.5` parses to source `[1, 0, 2]`, target `[3]`, score 0.5, type `N:1`, key 0 |
| Preprocess.ParseExampleEmpty | scripts/preprocess.mjs:13-40 | `[]:[]:0` is accepted as an `unmatched` record with score 0 and key +∞ |
| Preprocess.KeyCompare | scripts/preprocess.mjs:101 | `a.sortKey - b.sortKey` over numbers and +∞, with `Infinity - Infinity` read as 0 |
| Preprocess.KeyCompareOrder | scripts/preprocess.mjs:101 | the sign of `a.sortKey - b.sortKey` (`Infinity - Infinity` being NaN, read as equal) orders keys by value with +∞ last, and is antisymmetric |
| Preprocess.CompareParsedConsistent | scripts/preprocess.mjs:101 | the key comparator is consistent (antisymmetric and transitive) |
| Preprocess.StripAll | scripts/preprocess.mjs:104 | dropping the key keeps every record's lists, score and type, in place |
| Preprocess.ParseOne | scripts/preprocess.mjs:89-93 | what one line pushes: nothing when it is blank after trimming or its trimmed text does not parse, else that parse |
| Preprocess.ParseOneCases | scripts/preprocess.mjs:89-93 | one line adds at most one record; the record it adds is the parse of the trimmed line; it adds nothing when the trimmed line is blank or does not parse |
| Preprocess.KeptLinesYield | scripts/preprocess.mjs:88-95 | the records come from strictly increasing line positions, one record per kept line, each the parse of its trimmed line, so input order is kept |
| Preprocess.KeptLinesOthers | scripts/preprocess.mjs:88-95 | every line not kept is blank after trimming or does not parse |
| Preprocess.ParseAlignmentLineConsistent | scripts/preprocess.mjs:22-37 | a parsed record's type and key are those of its own lists |
| Preprocess.ParseLinesConsistent | scripts/preprocess.mjs:88-95 | every collected record's type and key are those of its own lists |
| Preprocess.ParseLine | scripts/preprocess.mjs:89-93 | the trim/skip/parse/push step for one line adds the specified records |
| Preprocess.ParseRecords | scripts/preprocess.mjs:88-95 | the loop over the lines collects the specified records |
| Preprocess.ParseAlignments | scripts/preprocess.mjs:85-104 | reading, parsing, sorting and stripping give the specified alignment list, which is `[]` when the file cannot be read |
| Preprocess.AlignmentsOf | scripts/preprocess.mjs:85-104 | a pair's alignments: none for an unreadable file, otherwise the parsed lines sorted by key and stripped of the key |
| Preprocess.AlignmentsSorted | scripts/preprocess.mjs:101 | the sorted records are a permutation of the parsed ones, non-decreasing by key, and records with equal keys keep their file order |
| Preprocess.AlignmentsOrdered | scripts/preprocess.mjs:101-104 | the output alignments are ordered by the sort key of their own line lists |
| Preprocess.ComputeStats | scripts/preprocess.mjs:118-129 | the type map has exactly the five types as keys, each mapped to the number of alignments of that type |
| Preprocess.CountsAddUp | scripts/preprocess.mjs:106-127 | the five type counts add up to the number of alignments, and the aligned count is that number less the unmatched ones |
| Preprocess.StatsConsistent | scripts/preprocess.mjs:106-128 | `totalAlignments` is the record count, the type counts sum to it, and `alignedCount` is it less the unmatched count |
| Preprocess.AvgScore | scripts/preprocess.mjs:106-109 | the sum of the scores above 0 divided by the aligned count, 0 when nothing is aligned |
| Preprocess.PositiveScoreSumNonNegative | scripts/preprocess.mjs:108 | the sum of the scores above 0 is never negative |
| Preprocess.AvgScoreNonNegative | scripts/preprocess.mjs:107-109 | the average score is never negative |
| Preprocess.PositiveScoreSumBound | scripts/preprocess.mjs:106-108 | when scores are at most 1 and no unmatched record has a positive score, the sum is at most the aligned count |
| Preprocess.AvgScoreAtMostOne | scripts/preprocess.mjs:106-109 | under the same conditions the average is at most 1 |
| Preprocess.AvgScoreCountsUnmatched | scripts/preprocess.mjs:106-109 | an unmatched record with a positive score raises the numerator only, so one 1:1 record at 1.0 and one unmatched at 0.4 average 1.4 |
| Preprocess.CorrespondenceOf | scripts/preprocess.mjs:111-130 | the record pushed for one pair: id, both codes, both texts, the alignments and their statistics |
| Preprocess.CorrespondencesWellFormed | scripts/preprocess.mjs:111-130 | there is one correspondence per pair, each with id `source_target` and a total that counts its alignments |
| Preprocess.CorrespondencesPrefix | scripts/preprocess.mjs:76-133 | one more pass of the main loop appends the next pair's correspondence |
| Preprocess.BuildCorrespondence | scripts/preprocess.mjs:81-130 | the body of the main loop builds the specified correspondence for a pair |
| Preprocess.Preprocess | scripts/preprocess.mjs:76-136 | the main loop and the final sort produce the correspondences of all pairs, sorted by source code |
| Preprocess.BySourceCodeConsistent | scripts/preprocess.mjs:136 | comparing source codes with a consistent `naturalCompare` is a consistent comparator |
| Preprocess.PreprocessOutput | scripts/preprocess.mjs:111-136 | the output is a permutation of one well-formed correspondence per pair |
| Preprocess.PreprocessOrdered | scripts/preprocess.mjs:136 | the output is ordered by source code, and pairs whose codes compare equal keep their list order |
| State.TrimStartLower | src/lib/state.svelte.ts:17 | trimming the start commutes with lower-casing |
| State.TrimEndLower | src/lib/state.svelte.ts:17 | trimming the end commutes with lower-casing |
| State.Query | src/lib/state.svelte.ts:17 | the search query lower-cased and trimmed; State.QueryTrimsFirst shows this is `trim()` then `toLowerCase()` |
| State.QueryTrimsFirst | src/lib/state.svelte.ts:17 | the query computed lower-case first equals `trim()` then `toLowerCase()` |
| State.KeepMatchingCount | src/lib/state.svelte.ts:19-24 | the filter keeps each matching correspondence as often as it occurs, and no other |
| State.ListedContents | src/lib/state.svelte.ts:15-33 | the visible list holds exactly the correspondences whose lower-cased source or target code contains the query (all of them for a blank query), each as often as in the data |
| State.Listed | src/lib/state.svelte.ts:15-33 | the visible list: the correspondences kept by the query filter when the query is not blank, then sorted by the chosen code |
| State.ListedIgnoresCase | src/lib/state.svelte.ts:17-24 | the search ignores case: two queries that agree letter by letter up to case list the same correspondences in the same order |
| State.ByCodeConsistent | src/lib/state.svelte.ts:26-32 | comparing the chosen code with a consistent `naturalCompare` is a consistent comparator |
| State.ListedSorted | src/lib/state.svelte.ts:26-32 | the visible list is ordered by the chosen code |
| State.FindIndex | src/lib/state.svelte.ts:49 | `findIndex` is -1 exactly when no item has the id, and otherwise the first index holding it |
| State.Find | src/lib/state.svelte.ts:37 | `find(...) \|\| null` is null exactly when no item has the id, and otherwise the first item holding it |
| State.SelectedOf | src/lib/state.svelte.ts:35-38 | no selection (null or the empty string) gives null; otherwise the first correspondence with the selected id |
| State.NeighbourIndex | src/lib/state.svelte.ts:55-57 | up moves to max(0, idx−1), down to min(len−1, idx+1), and the index stays in the list |
| State.Navigate | src/lib/state.svelte.ts:40-60 | one keyboard step as the new `selectedId` for a visible list, a selection and a direction |
| State.NavigateCases | src/lib/state.svelte.ts:40-60 | an empty list leaves the selection alone; no selection, or one that is not listed, selects the first item; a listed selection moves to its clamped neighbour |
| State.NavigateSelectsListed | src/lib/state.svelte.ts:44-59 | on a non-empty list a step always selects the id of a listed item |
| State.NavigateDownUp | src/lib/state.svelte.ts:55-59 | with distinct non-empty ids, down then up from any item but the last comes back to it |
| State.AppState.constructor | src/lib/state.svelte.ts:10-13 | the state starts with no selection, an empty query and ordering by source code |
| State.AppState.SelectedCorrespondence | src/lib/state.svelte.ts:35-38 | null without a selection; a returned correspondence is in the data and carries the selected id; null with a selection only when no correspondence has that id |
| State.AppState.NavigateList | src/lib/state.svelte.ts:40-60 | the field updates perform one specified navigation step over the visible list, so the lemmas above hold for the new `selectedId` |

## Left out

- File reading and writing, JSON parsing and output, directory creation, path joins and
  console logging in the preprocessor are not modelled. The model takes file contents as
  `Option<string>` inputs (`None` for a file that cannot be read) and returns the list of
  correspondences.
- The `metadata` block and its `generatedAt` timestamp are not modelled: they are
  constants and the clock.
- `naturalCompare` (`localeCompare` with numeric collation) is locale-aware ICU
  collation, a foreign call. It is a comparator parameter, and ordering results assume
  it is consistent.
- Preprocess.AvgScore: the stored average is exact; `Math.round(avgScore * 1000) / 1000`
  is not modelled, because it is floating-point rounding.
- Diff.TokenSimilarity: the ratio is exact; rounding the quotient to a double is not
  modelled. The range and self-similarity lemmas still hold for double division: it
  rounds the exact quotient monotonically, and 0 and 1 are exact doubles.
- Preprocess.ParseFloat: the score is the exact decimal value of the digits. Rounding to
  a double is not modelled.
- Preprocess.NumberList: line numbers are unbounded naturals. The loss of precision of
  `Number` above 2^53 is not modelled.
- Text.ToLower: it lower-cases ASCII letters only. Full Unicode case mapping is not
  modelled. White space (`\s` and `trim`) uses the full ECMAScript set.
- Svelte reactivity (`$state`, `$derived.by`) and the JSON module import are not
  modelled. `State.AppState.FilteredCorrespondences` is a function of the fields; its
  properties are stated about `State.Listed`, which it returns.
- The page components, routes and the sitemap are not part of this model.
- Array sorting is modelled as a stable insertion sort. ECMAScript requires stability
  but not the algorithm, so only the result is claimed. Comparator calls and their order
  are not modelled.
