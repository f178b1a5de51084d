// The single-segment matchers: whether a typed fragment abbreviates a
// camelCase or `_`/`-` separated word, and whether it is a case-insensitive
// subsequence of a path segment.
module Abbreviations {
  import opened CaseFold
  import opened InOrder

  /** Bound on the number of ambiguous branches the helper may explore. */
  const MaxDepth: int := 128

  function Min(a: int, b: int): int
  {
    if a <= b then a else b
  }

  /** Two to the power `n`: a bound on the branches over `n` typed letters. */
  function Pow2(n: nat): (r: nat)
    ensures 1 <= r
  {
    if n == 0 then 1 else 2 * Pow2(n - 1)
  }

  /** `Pow2` grows with its argument. */
  lemma {:induction false} Pow2Monotone(a: nat, b: nat)
    requires a <= b
    ensures Pow2(a) <= Pow2(b)
    decreases b
  {
    if a < b {
      Pow2Monotone(a, b - 1);
    }
  }

  /** Seven typed letters can branch fewer than `MaxDepth` times. */
  lemma Pow2Seven()
    ensures Pow2(7) == MaxDepth
  {
    assert Pow2(2) == 4;
    assert Pow2(5) == 32;
  }

  // ---------------------------------------------------------------------
  // Sub-word offsets

  predicate IsSeparator(c: char)
  {
    c == '_' || c == '-'
  }

  /**
   * Index `i` starts a sub-word of `word`: the character is not a separator
   * and it is the first character, follows a separator, or is upper-case.
   */
  predicate IsWordStart(word: string, i: int)
    requires 0 <= i < |word|
  {
    !IsSeparator(word[i]) && (i == 0 || IsSeparator(word[i - 1]) || IsUpper(word[i]))
  }

  /** The sub-word starts of `word` below index `n`, in increasing order. */
  function WordStartsBelow(word: string, n: nat): seq<int>
    requires n <= |word|
  {
    if n == 0 then []
    else WordStartsBelow(word, n - 1) + (if IsWordStart(word, n - 1) then [n - 1] else [])
  }

  /** The sub-word starts of `word`, in increasing order. */
  function WordStarts(word: string): seq<int>
  {
    WordStartsBelow(word, |word|)
  }

  predicate StrictlyIncreasing(s: seq<int>)
  {
    forall a, b :: 0 <= a < b < |s| ==> s[a] < s[b]
  }

  /** Every entry is an index into `word`. */
  predicate OffsetsWithin(word: string, offsets: seq<int>)
  {
    forall k :: 0 <= k < |offsets| ==> 0 <= offsets[k] < |word|
  }

  /** The offsets below `n` are increasing, lie below `n`, and are exactly the sub-word starts there. */
  lemma {:induction false} WordStartsBelowCharacterized(word: string, n: nat)
    requires n <= |word|
    ensures StrictlyIncreasing(WordStartsBelow(word, n))
    ensures forall k :: 0 <= k < |WordStartsBelow(word, n)| ==> 0 <= WordStartsBelow(word, n)[k] < n
    ensures forall i :: 0 <= i < n ==> (i in WordStartsBelow(word, n) <==> IsWordStart(word, i))
  {
    if n > 0 {
      WordStartsBelowCharacterized(word, n - 1);
    }
  }

  /** The sub-word starts of a word are increasing, within the word, and exactly the indices `IsWordStart` names. */
  lemma WordStartsCharacterized(word: string)
    ensures StrictlyIncreasing(WordStarts(word))
    ensures OffsetsWithin(word, WordStarts(word))
    ensures forall i :: 0 <= i < |word| ==> (i in WordStarts(word) <==> IsWordStart(word, i))
  {
    WordStartsBelowCharacterized(word, |word|);
  }

  /** A word whose first character is not a separator has its first sub-word at 0. */
  lemma FirstWordStart(word: string)
    requires |word| > 0 && !IsSeparator(word[0])
    ensures |WordStarts(word)| > 0 && WordStarts(word)[0] == 0
  {
    WordStartsCharacterized(word);
    var offsets := WordStarts(word);
    assert 0 in offsets;
    var k :| 0 <= k < |offsets| && offsets[k] == 0;
    assert offsets[0] <= offsets[k];
  }

  /**
   * The scan that records where sub-words start: a separator arms the
   * boundary flag; any other character that follows an armed flag or is
   * upper-case is recorded and disarms it.
   */
  method WordOffsets(word: string) returns (offsets: seq<int>)
    ensures offsets == WordStarts(word)
    ensures StrictlyIncreasing(offsets) && OffsetsWithin(word, offsets)
    ensures forall i :: 0 <= i < |word| ==> (i in offsets <==> IsWordStart(word, i))
  {
    var haveUnderscore := true;
    offsets := [];
    for i := 0 to |word|
      invariant haveUnderscore == (i == 0 || IsSeparator(word[i - 1]))
      invariant offsets == WordStartsBelow(word, i)
    {
      var c := word[i];
      if IsSeparator(c) {
        haveUnderscore := true;
      } else if haveUnderscore || IsUpper(c) {
        offsets := offsets + [i];
        haveUnderscore := false;
      }
    }
    WordStartsCharacterized(word);
  }

  // ---------------------------------------------------------------------
  // Alignment of typed letters against sub-words

  /**
   * Character `c` continues sub-word `w` at letter `l`: the letter exists and
   * equals `c` up to case.
   */
  predicate Continues(word: string, offsets: seq<int>, w: int, l: nat, c: char)
  {
    0 <= w < |offsets| && 0 <= offsets[w] && offsets[w] + l < |word|
    && Lower(c) == Lower(word[offsets[w] + l])
  }

  /** Character `c` equals, up to case, the first letter of the sub-word after `w`. */
  predicate StartsNext(word: string, offsets: seq<int>, w: int, c: char)
  {
    -1 <= w && w + 1 < |offsets| && 0 <= offsets[w + 1] < |word|
    && Lower(c) == Lower(word[offsets[w + 1]])
  }

  /**
   * `typed[i..]` can be consumed from sub-word `w`, letter `l`, where every
   * character either continues the current sub-word or starts the next one
   * (`w == -1` means no sub-word has been entered yet).
   */
  predicate Aligns(word: string, typed: string, offsets: seq<int>, w: int, l: nat, i: nat)
    decreases |typed| - i
  {
    if i >= |typed| then true
    else
      (Continues(word, offsets, w, l, typed[i]) && Aligns(word, typed, offsets, w, l + 1, i + 1))
      || (StartsNext(word, offsets, w, typed[i]) && Aligns(word, typed, offsets, w + 1, 1, i + 1))
  }

  /**
   * What the whole abbreviation test accepts: the first letters agree, the
   * typed letters occur in the word in order (a position may be reused), and
   * the typed text aligns against the word's sub-words.
   */
  predicate AbbreviationSpec(word: string, typed: string)
  {
    |word| > 0 && |typed| > 0
    && Lower(word[0]) == Lower(typed[0])
    && Embeds(typed, word, true)
    && Aligns(word, typed, WordStarts(word), -1, 1, 0)
  }

  /**
   * The backtracking alignment. It walks `typed` from `i`, continuing the
   * current sub-word while it can; where a letter could also start the next
   * sub-word it counts a branch in `depth`, tries that interpretation first
   * by recursion, and falls back to continuing. A branch taken after the
   * count passes `MaxDepth` fails at once.
   *
   * A success is always a real alignment; while the count stays within
   * `MaxDepth` no alignment is missed. `calls` counts the recursive calls
   * made, and every one of them used up one unit of the shared budget. Every
   * ambiguous letter at most doubles the work still to do, so the count
   * grows by less than two to the power of the letters left.
   */
  method MatchesAbbreviationHelper(word: string, typed: string, offsets: seq<int>, depth: int, atWord: int, i: int)
    returns (r: bool, depthOut: int, ghost calls: nat)
    requires OffsetsWithin(word, offsets)
    requires -1 <= atWord < |offsets|
    requires 0 <= i <= |typed|
    requires 0 <= depth <= MaxDepth
    decreases |typed| - i
    ensures depth <= depthOut
    ensures depthOut - depth < Pow2(|typed| - i)
    ensures calls <= Min(depthOut, MaxDepth) - depth
    ensures i == |typed| ==> r && depthOut == depth
    ensures r ==> Aligns(word, typed, offsets, atWord, 1, i)
    ensures depthOut <= MaxDepth ==> (r <==> Aligns(word, typed, offsets, atWord, 1, i))
  {
    depthOut := depth;
    calls := 0;
    var w := atWord;
    var atLetter := 1;
    var k := i;
    while k < |typed|
      invariant i <= k <= |typed|
      invariant -1 <= w < |offsets|
      invariant 1 <= atLetter
      invariant depth <= depthOut
      invariant depthOut - depth <= Pow2(|typed| - i) - Pow2(|typed| - k)
      invariant calls <= Min(depthOut, MaxDepth) - depth
      invariant k == i ==> depthOut == depth
      invariant Aligns(word, typed, offsets, w, atLetter, k) ==> Aligns(word, typed, offsets, atWord, 1, i)
      invariant depthOut <= MaxDepth ==>
        (Aligns(word, typed, offsets, atWord, 1, i) ==> Aligns(word, typed, offsets, w, atLetter, k))
      decreases |typed| - k
    {
      var c := Lower(typed[k]);
      var haveNextWord := |offsets| > w + 1;
      var canCompare := w != -1 && |word| > offsets[w] + atLetter;
      if canCompare && c == Lower(word[offsets[w] + atLetter]) {
        if !haveNextWord || c != Lower(word[offsets[w + 1]]) {
          // the letter continues the current sub-word and cannot start the next
          atLetter := atLetter + 1;
        } else {
          // the letter could continue the current sub-word or start the next one
          depthOut := depthOut + 1;
          if depthOut > MaxDepth {
            return false, depthOut, calls;
          }
          var sub, subDepth, subCalls := MatchesAbbreviationHelper(word, typed, offsets, depthOut, w + 1, k + 1);
          calls := calls + 1 + subCalls;
          depthOut := subDepth;
          if haveNextWord && sub {
            return true, depthOut, calls;
          }
          atLetter := atLetter + 1;
        }
      } else if haveNextWord && c == Lower(word[offsets[w + 1]]) {
        // the letter starts the next sub-word
        w := w + 1;
        atLetter := 1;
      } else {
        return false, depthOut, calls;
      }
      k := k + 1;
    }
    r := true;
  }

  // ---------------------------------------------------------------------
  // The whole abbreviation test

  /**
   * The cheap pre-scan: every typed letter is looked for in `word` from the
   * position where the previous one was found (that position included).
   */
  method LettersInOrder(word: string, typed: string) returns (ok: bool)
    requires |word| > 0
    ensures ok <==> Embeds(typed, word, true)
  {
    var atLetter := 0;
    for n := 0 to |typed|
      invariant 0 <= atLetter < |word|
      invariant Embeds(typed, word, true) <==> Embeds(typed[n..], word[atLetter..], true)
    {
      var c := typed[n];
      while Lower(c) != Lower(word[atLetter])
        invariant 0 <= atLetter < |word|
        invariant Embeds(typed, word, true) <==> Embeds(typed[n..], word[atLetter..], true)
        decreases |word| - atLetter
      {
        assert word[atLetter..][1..] == word[atLetter + 1..];
        atLetter := atLetter + 1;
        if atLetter >= |word| {
          assert !Embeds(typed[n..], word[atLetter - 1..], true);
          return false;
        }
      }
      GreedyMatch(typed[n..], word[atLetter..], true);
      assert typed[n..][1..] == typed[n + 1..];
    }
    ok := true;
  }

  /**
   * Whether `typed` abbreviates `word`: the first letters must agree, the
   * pre-scan must succeed, and the typed text must align against the
   * word's sub-words. A true answer always meets `AbbreviationSpec`; the
   * converse holds whenever the branch budget was not exhausted
   * (`branches <= MaxDepth`), which is always so for a typed text of at
   * most seven letters. At most `MaxDepth` recursive calls are made.
   */
  method MatchesAbbreviation(word: string, typed: string) returns (r: bool, ghost branches: int, ghost calls: nat)
    requires |word| > 0 && |typed| > 0
    ensures Lower(word[0]) != Lower(typed[0]) ==> !r
    ensures !Embeds(typed, word, true) ==> !r
    ensures r ==> AbbreviationSpec(word, typed)
    ensures branches <= MaxDepth ==> (r <==> AbbreviationSpec(word, typed))
    ensures 0 <= branches < Pow2(|typed|)
    ensures |typed| <= 7 ==> (r <==> AbbreviationSpec(word, typed))
    ensures calls <= MaxDepth
  {
    if Lower(word[0]) != Lower(typed[0]) {
      return false, 0, 0;
    }
    var inOrder := LettersInOrder(word, typed);
    if !inOrder {
      return false, 0, 0;
    }
    var offsets := WordOffsets(word);
    var depth := 0;
    r, depth, calls := MatchesAbbreviationHelper(word, typed, offsets, depth, -1, 0);
    branches := depth;
    if |typed| <= 7 {
      Pow2Monotone(|typed|, 7);
      Pow2Seven();
    }
  }

  // ---------------------------------------------------------------------
  // Facts about what the abbreviation test accepts

  /** Continuing the first sub-word, when it starts at 0, consumes the rest of the word itself. */
  lemma {:induction false} ContinuesToEnd(word: string, offsets: seq<int>, l: nat)
    requires |offsets| > 0 && offsets[0] == 0 && 1 <= l <= |word|
    ensures Aligns(word, word, offsets, 0, l, l)
    decreases |word| - l
  {
    if l < |word| {
      ContinuesToEnd(word, offsets, l + 1);
    }
  }

  /** A word that does not begin with a separator abbreviates itself. */
  lemma SelfAbbreviation(word: string)
    requires |word| > 0 && !IsSeparator(word[0])
    ensures AbbreviationSpec(word, word)
  {
    FirstWordStart(word);
    EmbedsReflexive(word, true);
    ContinuesToEnd(word, WordStarts(word), 1);
  }

  /**
   * A word that begins with `_` or `-` never abbreviates itself: the first
   * typed letter must start the first sub-word, and no sub-word starts with
   * a separator. So the matcher rejects `"_"` against itself.
   */
  lemma LeadingSeparatorNotSelfAbbreviation(word: string)
    requires |word| > 0 && IsSeparator(word[0])
    ensures !AbbreviationSpec(word, word)
  {
    WordStartsCharacterized(word);
    var offsets := WordStarts(word);
    if |offsets| > 0 {
      assert offsets[0] in offsets;
      assert IsWordStart(word, offsets[0]);
      assert !IsSeparator(Lower(word[offsets[0]]));
    }
  }

  /** Below index 10, the only sub-word starts of "KateCompletionModel" are 0 and 4. */
  lemma KateCompletionStarts()
    ensures WordStartsBelow("KateCompletionModel", 10) == [0, 4]
  {
    var word := "KateCompletionModel";
    assert WordStartsBelow(word, 1) == [0];
    assert WordStartsBelow(word, 2) == [0];
    assert WordStartsBelow(word, 3) == [0];
    assert WordStartsBelow(word, 4) == [0];
    assert WordStartsBelow(word, 5) == [0, 4];
    assert WordStartsBelow(word, 6) == [0, 4];
    assert WordStartsBelow(word, 7) == [0, 4];
    assert WordStartsBelow(word, 8) == [0, 4];
    assert WordStartsBelow(word, 9) == [0, 4];
  }

  /** The sub-words of "KateCompletionModel" start at 0, 4 and 14. */
  lemma KateCompletionModelOffsets()
    ensures WordStarts("KateCompletionModel") == [0, 4, 14]
  {
    var word := "KateCompletionModel";
    KateCompletionStarts();
    assert WordStartsBelow(word, 11) == [0, 4];
    assert WordStartsBelow(word, 12) == [0, 4];
    assert WordStartsBelow(word, 13) == [0, 4];
    assert WordStartsBelow(word, 14) == [0, 4];
    assert WordStartsBelow(word, 15) == [0, 4, 14];
    assert WordStartsBelow(word, 16) == [0, 4, 14];
    assert WordStartsBelow(word, 17) == [0, 4, 14];
    assert WordStartsBelow(word, 18) == [0, 4, 14];
    assert WordStartsBelow(word, 19) == [0, 4, 14];
  }

  /** "KCM" abbreviates "KateCompletionModel": one letter per sub-word. */
  lemma KcmExample()
    ensures AbbreviationSpec("KateCompletionModel", "KCM")
  {
    var word, t := "KateCompletionModel", "KCM";
    assert IsPlacement(t, word, [0, 4, 14], true);
    PlacementEmbeds(t, word, [0, 4, 14], true);
    KateCompletionModelOffsets();
    var o := [0, 4, 14];
    assert Aligns(word, t, o, 2, 1, 3);
    assert Aligns(word, t, o, 1, 1, 2);
    assert Aligns(word, t, o, 0, 1, 1);
  }

  /** The letters of "KComplM" occur in order in "KateCompletionModel". */
  lemma KComplMInOrder()
    ensures Embeds("KComplM", "KateCompletionModel", true)
  {
    var word, t := "KateCompletionModel", "KComplM";
    assert IsPlacement(t, word, [0, 4, 5, 6, 7, 8, 14], true);
    PlacementEmbeds(t, word, [0, 4, 5, 6, 7, 8, 14], true);
  }

  /** "KComplM" aligns against the sub-word starts 0, 4 and 14. */
  lemma KComplMAligns()
    ensures Aligns("KateCompletionModel", "KComplM", [0, 4, 14], -1, 1, 0)
  {
    var word, t := "KateCompletionModel", "KComplM";
    var o := [0, 4, 14];
    assert Aligns(word, t, o, 2, 1, 7);
    assert Aligns(word, t, o, 1, 5, 6);
    assert Aligns(word, t, o, 1, 4, 5);
    assert Aligns(word, t, o, 1, 3, 4);
    assert Aligns(word, t, o, 1, 2, 3);
    assert Aligns(word, t, o, 1, 1, 2);
    assert Aligns(word, t, o, 0, 1, 1);
  }

  /** "KComplM" abbreviates "KateCompletionModel": extra letters run on inside a sub-word. */
  lemma KComplMExample()
    ensures AbbreviationSpec("KateCompletionModel", "KComplM")
  {
    KComplMInOrder();
    KateCompletionModelOffsets();
    KComplMAligns();
  }

  /** The letters of "KaCoMo" occur in order in "KateCompletionModel". */
  lemma KaCoMoInOrder()
    ensures Embeds("KaCoMo", "KateCompletionModel", true)
  {
    var word, t := "KateCompletionModel", "KaCoMo";
    assert IsPlacement(t, word, [0, 1, 4, 5, 14, 15], true);
    PlacementEmbeds(t, word, [0, 1, 4, 5, 14, 15], true);
  }

  /** "KaCoMo" aligns against the sub-word starts 0, 4 and 14. */
  lemma KaCoMoAligns()
    ensures Aligns("KateCompletionModel", "KaCoMo", [0, 4, 14], -1, 1, 0)
  {
    var word, t := "KateCompletionModel", "KaCoMo";
    var o := [0, 4, 14];
    assert Aligns(word, t, o, 2, 2, 6);
    assert Aligns(word, t, o, 2, 1, 5);
    assert Aligns(word, t, o, 1, 2, 4);
    assert Aligns(word, t, o, 1, 1, 3);
    assert Aligns(word, t, o, 0, 2, 2);
    assert Aligns(word, t, o, 0, 1, 1);
  }

  /** "KaCoMo" abbreviates "KateCompletionModel": two letters from every sub-word. */
  lemma KaCoMoExample()
    ensures AbbreviationSpec("KateCompletionModel", "KaCoMo")
  {
    KaCoMoInOrder();
    KateCompletionModelOffsets();
    KaCoMoAligns();
  }

  /** Case is ignored: "fb" abbreviates "FooBar". */
  lemma FooBarExample()
    ensures AbbreviationSpec("FooBar", "fb")
  {
    var word, t := "FooBar", "fb";
    assert IsPlacement(t, word, [0, 3], true);
    PlacementEmbeds(t, word, [0, 3], true);
    assert WordStartsBelow(word, 1) == [0];
    assert WordStartsBelow(word, 2) == [0];
    assert WordStartsBelow(word, 3) == [0];
    assert WordStartsBelow(word, 4) == [0, 3];
    assert WordStartsBelow(word, 5) == [0, 3];
    assert WordStarts(word) == [0, 3];
    assert Aligns(word, t, [0, 3], 1, 1, 2);
    assert Aligns(word, t, [0, 3], 0, 1, 1);
  }

  /**
   * The pre-scan is a condition of its own, not a consequence of the
   * alignment: after a sub-word is continued past the start of the next
   * one, the next typed letter may still start that next sub-word, at a
   * position left of the letter matched before.
   */
  lemma PreScanNotImpliedByAlignment()
    ensures Aligns("AbAbc", "ababa", WordStarts("AbAbc"), -1, 1, 0)
    ensures !Embeds("ababa", "AbAbc", true)
  {
    var word, t := "AbAbc", "ababa";
    assert WordStarts(word) == [0, 2];
    var o := [0, 2];
    assert Aligns(word, t, o, 1, 1, 5);
    assert Aligns(word, t, o, 0, 4, 4);
    assert Aligns(word, t, o, 0, 3, 3);
    assert Aligns(word, t, o, 0, 2, 2);
    assert Aligns(word, t, o, 0, 1, 1);
  }

  /**
   * The abbreviation test on a word against itself: a word that begins with
   * `_` or `-` is always rejected; a word of at most seven letters that does
   * not is always accepted.
   */
  method MatchesItself(word: string) returns (r: bool)
    requires |word| > 0
    ensures IsSeparator(word[0]) ==> !r
    ensures |word| <= 7 ==> (r <==> !IsSeparator(word[0]))
  {
    ghost var branches, calls;
    r, branches, calls := MatchesAbbreviation(word, word);
    if IsSeparator(word[0]) {
      LeadingSeparatorNotSelfAbbreviation(word);
    } else {
      SelfAbbreviation(word);
    }
  }

  /** The abbreviation test accepts the abbreviations of `KateCompletionModel` and `FooBar` shown above. */
  method ExamplesAccepted() returns (kcm: bool, kComplM: bool, kaCoMo: bool, fb: bool)
    ensures kcm && kComplM && kaCoMo && fb
  {
    ghost var branches, calls;
    KcmExample();
    kcm, branches, calls := MatchesAbbreviation("KateCompletionModel", "KCM");
    KComplMExample();
    kComplM, branches, calls := MatchesAbbreviation("KateCompletionModel", "KComplM");
    KaCoMoExample();
    kaCoMo, branches, calls := MatchesAbbreviation("KateCompletionModel", "KaCoMo");
    FooBarExample();
    fb, branches, calls := MatchesAbbreviation("FooBar", "fb");
  }

  // ---------------------------------------------------------------------
  // Subsequence test on a path segment

  /**
   * Greedy two-pointer scan: whether the characters of `typed` occur in
   * `path` in order, up to case, with jumps allowed anywhere.
   */
  method MatchesPath(path: string, typed: string) returns (r: bool)
    ensures r <==> Embeds(typed, path, false)
  {
    var consumed := 0;
    var pos := 0;
    while consumed < |typed| && pos < |path|
      invariant 0 <= consumed <= pos <= |path|
      invariant consumed <= |typed|
      invariant Embeds(typed, path, false) <==> Embeds(typed[consumed..], path[pos..], false)
      decreases |path| - pos
    {
      if Lower(typed[consumed]) == Lower(path[pos]) {
        GreedyMatch(typed[consumed..], path[pos..], false);
        assert typed[consumed..][1..] == typed[consumed + 1..];
        assert path[pos..][1..] == path[pos + 1..];
        consumed := consumed + 1;
      } else {
        assert path[pos..][1..] == path[pos + 1..];
      }
      pos := pos + 1;
    }
    r := consumed == |typed|;
  }
}
