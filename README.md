# Fuzzy path and abbreviation matcher

A Dafny model of the matching and ranking engine of a password-store
launcher plugin (`plugin/abbreviations.cpp`). The engine decides whether a
typed query matches an entry's path and scores the match so that the best
entries come first. It has three parts:

- **Abbreviation test** (`matchesAbbreviation`): does a typed fragment
  abbreviate a camelCase or `_`/`-` separated word, such as `KCM` for
  `KateCompletionModel`? It runs in four steps: a first-letter check, an
  in-order pre-scan, the computation of sub-word start offsets, and a
  backtracking alignment (`matchesAbbreviationHelper`). The alignment
  shares one branch counter across its recursion and caps it at 128.
- **Subsequence test** (`matchesPath`): a greedy two-pointer scan that
  checks whether the typed characters occur in order in a segment,
  ignoring case.
- **Path filter** (`matchPathFilter`): aligns query fragments against path
  segments from the right and skips segments that do not match. It returns
  -1 (no match), 0 (exact), 1 (the last fragment is a prefix of the last
  segment) or 2 plus the number of segments from the first matched one to
  the end.

Files and modules:

- `casefold.dfy`, module `CaseFold`: per-character lower-casing, upper-case
  test, case-insensitive occurrence and `indexOf`.
- `inorder.dfy`, module `InOrder`: the reference notion of in-order
  occurrence (`Embeds`). With `reuse = false` it is a subsequence. With
  `reuse = true`, successive characters may use the same position; this is
  the pre-scan's notion. Both are proved equivalent to the existence of a
  position list (`IsPlacement`) and decidable by a greedy scan.
- `abbreviations.dfy`, module `Abbreviations`: sub-word offsets, the
  reference alignment `Aligns`, the helper, the pre-scan, the abbreviation
  test and the subsequence test.
- `pathfilter.dfy`, module `PathFilter`: the pair test, the placement
  notions, the scan invariant with its step lemmas, and the filter.

Every loop of the source is a `while`/`for` loop in a method with its
invariants. The helper is a recursive method with `depth` in and out.
`matchesAbbreviation` runs its pre-scan and its offsets loop inline; here
they are the methods `LettersInOrder` and `WordOffsets`, called at the
same points. For the same reason, the filter's loop (lines 138-173) is the
method `Scan`. One pass of its body (lines 144-172) is the method
`ScanStep`, and the pair test inside it (lines 146-160) is the method
`MatchSegment`. They keep the source's local variables and branches.

The model adds ghost out-parameters that the source does not have.
`MatchesAbbreviation` returns the final value of the branch counter
(`branches`) and the number of recursive helper calls (`calls`).
`MatchPathFilter` returns the segment index where each fragment matched
(`pos`). They exist only for the proofs.

Behaviour of the source that the model makes explicit:

- `matchesAbbreviation` reads character 0 of both the word and the typed
  text without a check (line 72). The model states both as preconditions
  of `MatchesAbbreviation`. Inside the filter both hold. The abbreviation
  test is reached only when `indexOf` found nothing, so the fragment is
  not empty. It is reached only for a segment other than the last, and
  the filter requires those segments to be non-empty.
- A word abbreviates itself when it does not begin with a separator and
  the branch cap is not passed. `SelfAbbreviation` states the first part
  for `AbbreviationSpec`, and `MatchesItself` proves the program accepts
  such a word of at most seven letters. A long word with many ambiguous
  letters, such as 130 `A`s, makes every position from 1 on both continue
  the current sub-word and start the next. The counter then passes 128
  and the source returns false. A word that begins with `_` or `-` is
  always rejected, for example `"_"` (`LeadingSeparatorNotSelfAbbreviation`).
- Past the branch cap, only the branch that passed it returns false
  (line 40). Its caller goes on with the other reading, so the overall
  answer can still be true. The count grows by less than 2 to the power of
  the number of typed letters. A typed text of at most seven letters
  therefore never reaches the cap, and for those the result is exactly
  `AbbreviationSpec`.
- The pre-scan can reject an alignment that the helper accepts.
  `PreScanNotImpliedByAlignment` shows one with `"ababa"` against
  `"AbAbc"`. The helper can continue a sub-word past the start of the next
  one and then jump back to that start, so the pre-scan is a real
  condition of the result, not only a fast path.

## Model

| member | source | states |
|---|---|---|
| `CaseFold.IndexOfFrom` | plugin/abbreviations.cpp:146 | the result is -1 exactly when the fragment occurs at no index from `from` on; otherwise it is the first such index |
| `CaseFold.IndexOfCI` | plugin/abbreviations.cpp:146 | case-insensitive `indexOf`: -1 exactly when the fragment occurs nowhere, otherwise the first index of an occurrence, which lies within the segment |
| `CaseFold.IndexOfZeroIffPrefix` | plugin/abbreviations.cpp:185-188 | `indexOf` returns 0 exactly when the fragment is a case-insensitive prefix of the segment |
| `CaseFold.IndexOfZeroSameLength` | plugin/abbreviations.cpp:151 | `matchIndex == 0` with equal lengths holds exactly when the fragment equals the segment up to case |
| `InOrder.GreedyMatch` | plugin/abbreviations.cpp:114-119 | when the current characters agree, matching them at once loses no embedding, so both greedy scans decide in-order occurrence without backtracking |
| `InOrder.EmbedsIffPlacement` | plugin/abbreviations.cpp:108-121 | in-order occurrence holds exactly when there is a list of positions, strictly increasing (or, with reuse, non-decreasing), whose characters equal the typed ones up to case |
| `InOrder.SubsequenceLength` | plugin/abbreviations.cpp:108-121 | a typed text longer than the segment is never a subsequence of it |
| `InOrder.EmbedsReflexive` | plugin/abbreviations.cpp:76-85 | every text occurs in order in itself, with or without position reuse |
| `Abbreviations.WordStartsBelowCharacterized` | plugin/abbreviations.cpp:95-103 | the offsets recorded below `n` increase strictly, lie below `n`, and are exactly the indices that are sub-word starts |
| `Abbreviations.WordStartsCharacterized` | plugin/abbreviations.cpp:95-103 | the offsets of a word increase strictly and lie in the word; index `i` is one exactly when `word[i]` is not `_`/`-` and `i` is 0, follows `_`/`-`, or is upper-case |
| `Abbreviations.FirstWordStart` | plugin/abbreviations.cpp:87-103 | a word that does not begin with a separator has its first offset at 0 |
| `Abbreviations.WordOffsets` | plugin/abbreviations.cpp:87-103 | the boundary-flag scan produces exactly the strictly increasing list of sub-word starts |
| `Abbreviations.MatchesAbbreviationHelper` | plugin/abbreviations.cpp:16-64 | the counter never decreases and grows by less than 2 to the power of the letters left; the recursive calls are at most the budget used within the cap of 128; consuming all of `typed` gives true; true implies an alignment exists; while the counter stays within 128, true holds exactly when an alignment exists |
| `Abbreviations.LettersInOrder` | plugin/abbreviations.cpp:76-85 | the pre-scan succeeds exactly when every typed letter is found, up to case, at a word position at or after the previous letter's position |
| `Abbreviations.MatchesAbbreviation` | plugin/abbreviations.cpp:68-106 | false when the first letters differ or the pre-scan fails; true implies the first letters agree, the pre-scan holds and an alignment against the offsets exists; the converse holds while the branch counter stays within 128, which it always does for a typed text of at most seven letters, since the counter stays below 2 to the power of the typed length; at most 128 recursive helper calls |
| `Abbreviations.MatchesItself` | plugin/abbreviations.cpp:68-106 | the abbreviation test rejects a word against itself when it begins with `_` or `-`; for a word of at most seven letters it accepts exactly when it does not |
| `Abbreviations.ExamplesAccepted` | plugin/abbreviations.cpp:89-91 | the abbreviation test returns true for `KCM`, `KComplM` and `KaCoMo` against `KateCompletionModel` and for `fb` against `FooBar` |
| `Abbreviations.ContinuesToEnd` | plugin/abbreviations.cpp:28-33 | continuing the first sub-word from offset 0 consumes the rest of the word itself |
| `Abbreviations.SelfAbbreviation` | plugin/abbreviations.cpp:68-106 | a word that does not begin with `_` or `-` meets `AbbreviationSpec` against itself |
| `Abbreviations.LeadingSeparatorNotSelfAbbreviation` | plugin/abbreviations.cpp:95-103 | a word that begins with `_` or `-` never abbreviates itself, because no sub-word starts with a separator |
| `Abbreviations.KateCompletionStarts` | plugin/abbreviations.cpp:95-103 | the sub-word starts of `KateCompletionModel` below index 10 are 0 and 4 |
| `Abbreviations.KateCompletionModelOffsets` | plugin/abbreviations.cpp:89-103 | the sub-words of `KateCompletionModel` start at 0, 4 and 14 |
| `Abbreviations.KcmExample` | plugin/abbreviations.cpp:89-91 | `KCM` abbreviates `KateCompletionModel` |
| `Abbreviations.KComplMInOrder` | plugin/abbreviations.cpp:76-85 | the letters of `KComplM` pass the pre-scan against `KateCompletionModel` |
| `Abbreviations.KComplMAligns` | plugin/abbreviations.cpp:16-64 | `KComplM` aligns against the offsets 0, 4, 14 |
| `Abbreviations.KComplMExample` | plugin/abbreviations.cpp:89-91 | `KComplM` abbreviates `KateCompletionModel`; extra letters run on inside a sub-word |
| `Abbreviations.KaCoMoInOrder` | plugin/abbreviations.cpp:76-85 | the letters of `KaCoMo` pass the pre-scan against `KateCompletionModel` |
| `Abbreviations.KaCoMoAligns` | plugin/abbreviations.cpp:16-64 | `KaCoMo` aligns against the offsets 0, 4, 14, taking two letters from each sub-word |
| `Abbreviations.KaCoMoExample` | plugin/abbreviations.cpp:28-33 | `KaCoMo` abbreviates `KateCompletionModel` |
| `Abbreviations.FooBarExample` | plugin/abbreviations.cpp:72-74 | case is ignored: `fb` abbreviates `FooBar` |
| `Abbreviations.PreScanNotImpliedByAlignment` | plugin/abbreviations.cpp:76-85 | `ababa` aligns against `AbAbc` but fails the pre-scan |
| `Abbreviations.MatchesPath` | plugin/abbreviations.cpp:108-121 | true exactly when the typed text is a case-insensitive subsequence of the segment |
| `PathFilter.PlacementNeedsSegments` | plugin/abbreviations.cpp:133-136 | placing every fragment needs at least as many segments as fragments |
| `PathFilter.TooManyFragments` | plugin/abbreviations.cpp:133-136 | with more fragments than segments no placement of any kind exists, so the early -1 loses nothing |
| `PathFilter.PlacementSpread` | plugin/abbreviations.cpp:143 | positions of a placement climb by at least one per fragment |
| `PathFilter.AllEqualAt` | plugin/abbreviations.cpp:151 | when all fragments equal their segments from the end, the aligned pair is equal up to case |
| `PathFilter.MatchSegment` | plugin/abbreviations.cpp:146-160 | returns the `indexOf` position; a substring hit is a match; a match satisfies the pair rules (substring, subsequence on the last pair, abbreviation elsewhere); on the last pair, and on any pair whose fragment has at most seven letters, a match is exactly the pair rules; position 0 means prefix, and position 0 with equal lengths means equal |
| `PathFilter.PlacementExtend` | plugin/abbreviations.cpp:167-172 | a matched pair left of the current placement extends it |
| `PathFilter.NotBehindSkip` | plugin/abbreviations.cpp:162-166 | skipping a segment that does not contain the fragment, and does not match it at all when the fragments are short, keeps the scan at or right of every competing placement (substring-only, or any placement when every fragment has at most seven letters) |
| `PathFilter.NotBehindConsume` | plugin/abbreviations.cpp:171-172 | consuming a pair keeps the scan at or right of every competing placement |
| `PathFilter.NotBehindExhausted` | plugin/abbreviations.cpp:175-177 | if the segments run out while fragments remain, there is no competing placement |
| `PathFilter.ScanStart` | plugin/abbreviations.cpp:138-141 | the initial cursors, flags and empty placement satisfy the scan invariant |
| `PathFilter.ScanSkip` | plugin/abbreviations.cpp:162-166 | a skip keeps the scan invariant, with one more segment skipped and `allMatched` cleared |
| `PathFilter.ScanConsume` | plugin/abbreviations.cpp:150-172 | a match keeps the scan invariant; both cursors move left, `allMatched` and `lastMatchIndex` update as the source does, and the placement grows by one |
| `PathFilter.ScanStep` | plugin/abbreviations.cpp:144-172 | one pass of the loop keeps the scan invariant and moves the segment cursor one to the left |
| `PathFilter.Scan` | plugin/abbreviations.cpp:138-173 | the loop keeps the scan invariant and stops only once the segments or the fragments are used up |
| `PathFilter.ScanFinished` | plugin/abbreviations.cpp:179-191 | once every fragment is placed, `allMatched` decides the exact case and `lastMatchIndex == 0` the prefix case; the match distance is between the number of fragments and the number of segments; the placement starts right after the final cursor; no competing placement starts further right |
| `PathFilter.MatchPathFilter` | plugin/abbreviations.cpp:123-192 | -1 when there are more fragments than segments; the score is -1, 0, 1 or lies in 2+fragments..2+segments; 0 exactly when every fragment equals its segment from the end; 1 exactly when the score is neither -1 nor 0 and the last fragment is a prefix of the last segment; a non-negative score comes with a placement of matching pairs, and a score of 2 or more is 2 plus the segments from the first placed one to the end; every substring placement implies a match and is at or left of the scan's own; when every fragment has at most seven letters, the same holds for every placement, so the score is -1 exactly when no placement of matching pairs exists |

The third conjunct of the loop guard at line 143 always holds. The scan
invariant keeps `pathIndex + consumed + skipped == |segments| - 1`, so
the loop ends only when a cursor goes negative, which `Scan` states in its
contract.

## Left out

- Unicode case handling: `QChar::toLower`, `QChar::isUpper` and Qt's case
  folding in `indexOf` are Qt library calls. `Lower` and `IsUpper` act on
  ASCII letters only. The example lemmas depend on the ASCII words they
  use. `LeadingSeparatorNotSelfAbbreviation` and `MatchesItself` rely on
  `Lower` never turning another character into `_` or `-`. No other
  contract depends on which letters are folded. The source uses two
  different case rules: `QChar::toLower` in lines 25-115, and full case
  folding in the case-insensitive `indexOf` at line 146. One `Lower`
  stands for both, so the model does not capture a character on which
  the two rules disagree.
- UTF-16 code units: a `QString` is a sequence of UTF-16 code units. A
  character outside the Basic Multilingual Plane is two units, and the
  source compares the units one by one. A Dafny `char` is a whole code
  point, so the model covers text inside the Basic Multilingual Plane.
  Outside it the results can differ. For example, for the segment
  U+1D539 U+1F538 and the typed text U+1D538, the source's in-order test
  matches the shared high surrogate and the low surrogate of U+1F538,
  so it accepts. `MatchesPath` rejects the same pair, and
  `MatchPathFilter` returns -1 for it.
- Text representation: `QStringRef` views become plain `string` values.
  The 32-slot inline `QVarLengthArray` of offsets becomes a `seq<int>`;
  the inline size affects only performance.
- Inputs the source does not guard: an empty word or empty typed text in
  `MatchesAbbreviation` (the source reads character 0 of both) is excluded
  by a precondition. `MatchPathFilter` requires every segment except the
  last to be non-empty. A non-empty fragment never occurs in an empty
  segment, so such a pair would reach `matchesAbbreviation` with an empty
  word. Paths are split on `/` with empty parts kept
  (passwordfiltermodel.cpp:87), so a path with `//` or a leading `/` has
  such a segment. Empty fragments are handled as the source does: they
  occur at 0, so they match every segment. The caller drops them in any
  case (passwordfiltermodel.cpp:56).
- `MatchesAbbreviation`: the result is pinned to `AbbreviationSpec` only
  while the branch counter stays within 128, which is guaranteed for a
  typed text of at most seven letters. Beyond that, only "true implies the
  specification" is stated, because a branch past the cap fails without
  exploring its alternatives.
- `SelfAbbreviation`: states `AbbreviationSpec`, not the program's
  answer. The program is proved to accept a word against itself only up
  to seven letters (`MatchesItself`); longer words with many ambiguous
  letters pass the branch cap and can be rejected.
- `MatchPathFilter`: the greedy scan is proved to miss no placement only
  when each pair's test is exact. That holds for substring-only
  placements. It holds for all placements when every fragment has at most
  seven letters, because an abbreviation test past the branch cap can
  reject a pair that `AbbreviationSpec` accepts.
- Splitting the query into fragments (split on `/`, empty parts dropped),
  splitting paths into segments, the per-path score cache, and sorting by
  score then by locale-aware comparison live in the filter and sort proxy
  models. These are Qt model glue and locale collation, outside this core.
- Password decryption through GPG, the clipboard and Klipper, OTP
  generation through liboath, the filesystem model and watcher, QML
  registration and the test window are I/O and event-loop code. They are
  not part of this model.
