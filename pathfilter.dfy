// Whole-path filtering: query fragments are aligned against path segments
// from the right, and the alignment is scored (lower is better, -1 is no
// match).
module PathFilter {
  import opened CaseFold
  import opened InOrder
  import opened Abbreviations

  const NoMatch: int := -1
  const ExactMatch: int := 0
  const StartMatch: int := 1
  const OtherMatch: int := 2

  /** Whether pair (`p`, `q`) is the last segment together with the last fragment. */
  predicate IsLastPair(segments: seq<string>, fragments: seq<string>, p: int, q: int)
  {
    p == |segments| - 1 && q == |fragments| - 1
  }

  /**
   * What counts as a match of fragment `q` in segment `p`: a case-insensitive
   * substring; otherwise, for the last pair, a subsequence; for every other
   * pair, an abbreviation.
   */
  predicate PairMatches(segments: seq<string>, fragments: seq<string>, p: int, q: int)
    requires 0 <= p < |segments| && 0 <= q < |fragments|
  {
    IndexOfCI(segments[p], fragments[q]) != -1
    || (IsLastPair(segments, fragments, p, q) && Embeds(fragments[q], segments[p], false))
    || (!IsLastPair(segments, fragments, p, q) && AbbreviationSpec(segments[p], fragments[q]))
  }

  /**
   * `pos` places the fragments from index `from` on, in order, at strictly
   * increasing segment indices, each pair matching: as a substring only,
   * or (with `loose`) by any of the rules of `PairMatches`.
   */
  predicate Placement(segments: seq<string>, fragments: seq<string>, from: int, pos: seq<int>, loose: bool)
  {
    0 <= from <= |fragments| && |pos| == |fragments| - from
    && (forall j :: 0 <= j < |pos| ==>
          0 <= pos[j] < |segments|
          && if loose then PairMatches(segments, fragments, pos[j], from + j)
             else IndexOfCI(segments[pos[j]], fragments[from + j]) != -1)
    && (forall j :: 0 <= j < |pos| - 1 ==> pos[j] < pos[j + 1])
  }

  /** Every fragment equals, up to case, the segment at the same distance from the end. */
  predicate AllEqualFromEnd(segments: seq<string>, fragments: seq<string>)
  {
    |fragments| <= |segments|
    && forall k :: 0 <= k < |fragments| ==> EqualsCI(fragments[k], segments[|segments| - |fragments| + k])
  }

  /** Strictly increasing positions climb at least one step per entry. */
  lemma {:induction false} PlacementSpread(segments: seq<string>, fragments: seq<string>, from: int, pos: seq<int>, loose: bool, j: int)
    requires Placement(segments, fragments, from, pos, loose)
    requires 0 <= j < |pos|
    ensures pos[0] + j <= pos[j]
    decreases j
  {
    if j > 0 {
      PlacementSpread(segments, fragments, from, pos, loose, j - 1);
    }
  }

  /** A placement of all fragments needs at least as many segments as fragments. */
  lemma PlacementNeedsSegments(segments: seq<string>, fragments: seq<string>, pos: seq<int>, loose: bool)
    requires Placement(segments, fragments, 0, pos, loose)
    ensures |fragments| <= |segments|
  {
    if |pos| > 0 {
      PlacementSpread(segments, fragments, 0, pos, loose, |pos| - 1);
    }
  }

  /** With more fragments than segments there is no placement at all. */
  lemma TooManyFragments(segments: seq<string>, fragments: seq<string>)
    requires |fragments| > |segments|
    ensures forall a, loose :: !Placement(segments, fragments, 0, a, loose)
  {
    forall a, loose | Placement(segments, fragments, 0, a, loose)
      ensures false
    {
      PlacementNeedsSegments(segments, fragments, a, loose);
    }
  }

  /** Prepending a matching pair to a placement keeps it a placement. */
  lemma PlacementExtend(segments: seq<string>, fragments: seq<string>, q: int, p: int, pos: seq<int>)
    requires Placement(segments, fragments, q + 1, pos, true)
    requires 0 <= q && 0 <= p < |segments| && (|pos| > 0 ==> p < pos[0])
    requires PairMatches(segments, fragments, p, q)
    ensures Placement(segments, fragments, q, [p] + pos, true)
  {
  }

  /** Every fragment is at most seven letters long, so the abbreviation test never exhausts its branch budget on it. */
  predicate ShortFragments(fragments: seq<string>)
  {
    forall q :: 0 <= q < |fragments| ==> |fragments[q]| <= 7
  }

  /**
   * The placements the greedy scan is measured against: every substring-only
   * placement, and every placement at all when the fragments are short.
   */
  predicate Competitor(segments: seq<string>, fragments: seq<string>, a: seq<int>)
  {
    Placement(segments, fragments, 0, a, false)
    || (ShortFragments(fragments) && Placement(segments, fragments, 0, a, true))
  }

  /**
   * The scan is never behind a competing placement: while fragment `q` is
   * sought at segment `p` and further left, any competitor puts `q` at or
   * left of `p`; once all are placed, it puts the first fragment at or left
   * of `p + 1`.
   */
  ghost predicate NotBehind(segments: seq<string>, fragments: seq<string>, q: int, p: int)
  {
    forall a :: Competitor(segments, fragments, a) ==>
      (0 <= q < |a| ==> a[q] <= p) && (q < 0 < |a| ==> a[0] <= p + 1)
  }

  /** Skipping a segment where the fragment does not match keeps the scan ahead. */
  lemma NotBehindSkip(segments: seq<string>, fragments: seq<string>, q: int, p: int)
    requires 0 <= q < |fragments| && 0 <= p < |segments|
    requires NotBehind(segments, fragments, q, p)
    requires IndexOfCI(segments[p], fragments[q]) == -1
    requires ShortFragments(fragments) ==> !PairMatches(segments, fragments, p, q)
    ensures NotBehind(segments, fragments, q, p - 1)
  {
    forall a | Competitor(segments, fragments, a)
      ensures a[q] <= p - 1
    {
      assert a[q] <= p;
      if Placement(segments, fragments, 0, a, false) {
        assert IndexOfCI(segments[a[q]], fragments[0 + q]) != -1;
      } else {
        assert PairMatches(segments, fragments, a[q], 0 + q);
      }
    }
  }

  /** Consuming a pair keeps the scan ahead. */
  lemma NotBehindConsume(segments: seq<string>, fragments: seq<string>, q: int, p: int)
    requires 0 <= q < |fragments|
    requires NotBehind(segments, fragments, q, p)
    ensures NotBehind(segments, fragments, q - 1, p - 1)
  {
    forall a | Competitor(segments, fragments, a)
      ensures (0 <= q - 1 < |a| ==> a[q - 1] <= p - 1) && (q - 1 < 0 < |a| ==> a[0] <= p)
    {
      assert a[q] <= p;
      if q > 0 {
        assert a[q - 1] < a[q];
      }
    }
  }

  /** When the segments run out before the fragments do, there is no competing placement. */
  lemma NotBehindExhausted(segments: seq<string>, fragments: seq<string>, q: int, p: int)
    requires 0 <= q < |fragments| && p < 0
    requires NotBehind(segments, fragments, q, p)
    ensures forall a :: !Competitor(segments, fragments, a)
  {
  }

  /** Fragments after `q` equal their segments counted from the end. */
  predicate EqualFromEndAfter(segments: seq<string>, fragments: seq<string>, q: int)
    requires |fragments| <= |segments|
  {
    forall k :: q < k < |fragments| && 0 <= k ==> EqualsCI(fragments[k], segments[|segments| - |fragments| + k])
  }

  /** Under `AllEqualFromEnd`, the pair at the same distance from the end is equal up to case. */
  lemma AllEqualAt(segments: seq<string>, fragments: seq<string>, q: int, p: int)
    requires 0 <= q < |fragments| && 0 <= p < |segments|
    ensures AllEqualFromEnd(segments, fragments) && p == |segments| - |fragments| + q ==> EqualsCI(fragments[q], segments[p])
  {
  }

  /**
   * One step of the scan: whether fragment `q` matches segment `p`, trying
   * a case-insensitive substring first, then the subsequence test for the
   * last pair or the abbreviation test for any other pair. Also returns the
   * substring position.
   */
  method MatchSegment(segments: seq<string>, fragments: seq<string>, p: int, q: int) returns (isMatch: bool, matchIndex: int)
    requires 0 <= p < |segments| && 0 <= q < |fragments|
    requires !IsLastPair(segments, fragments, p, q) ==> |segments[p]| > 0
    ensures matchIndex == IndexOfCI(segments[p], fragments[q])
    ensures matchIndex != -1 ==> isMatch
    ensures isMatch ==> PairMatches(segments, fragments, p, q)
    ensures IsLastPair(segments, fragments, p, q) ==> (isMatch <==> PairMatches(segments, fragments, p, q))
    ensures |fragments[q]| <= 7 ==> (isMatch <==> PairMatches(segments, fragments, p, q))
    ensures ShortFragments(fragments) ==> (isMatch <==> PairMatches(segments, fragments, p, q))
    ensures (matchIndex == 0 && |segments[p]| == |fragments[q]|) <==> EqualsCI(fragments[q], segments[p])
    ensures matchIndex == 0 <==> PrefixCI(fragments[q], segments[p])
  {
    var segment := segments[p];
    var typedSegment := fragments[q];
    matchIndex := IndexOfCI(segment, typedSegment);
    IndexOfZeroSameLength(segment, typedSegment);
    IndexOfZeroIffPrefix(segment, typedSegment);
    isMatch := matchIndex != -1;
    if !isMatch && IsLastPair(segments, fragments, p, q) {
      isMatch := MatchesPath(segment, typedSegment);
    } else if !isMatch {
      // an empty fragment occurs at 0, so this one is not empty
      assert OccursAt(segment, [], 0);
      ghost var branches, calls;
      isMatch, branches, calls := MatchesAbbreviation(segment, typedSegment);
    }
  }

  /** The last fragment is a case-insensitive prefix of the last segment. */
  predicate LastIsPrefix(segments: seq<string>, fragments: seq<string>)
  {
    0 < |fragments| <= |segments| && PrefixCI(fragments[|fragments| - 1], segments[|segments| - 1])
  }

  /**
   * What holds between steps of the scan of `MatchPathFilter`: fragment
   * `q` is sought at segment `p`; `skipped` segments have been passed over;
   * `pos` places the fragments after `q`; `allMatched` records that nothing
   * was skipped and every pair so far was equal up to case; `lastMatchIndex`
   * is 0 exactly when the last pair has been matched with the fragment as a
   * prefix; and no competing placement is ahead of the scan.
   */
  ghost predicate ScanInvariant(segments: seq<string>, fragments: seq<string>, q: int, p: int,
                                allMatched: bool, lastMatchIndex: int, skipped: int, pos: seq<int>)
  {
    |fragments| <= |segments|
    && -1 <= q < |fragments| && -1 <= p < |segments| && 0 <= skipped
    && p + (|fragments| - 1 - q) + skipped == |segments| - 1
    && (p == |segments| - 1 ==> q == |fragments| - 1)
    && Placement(segments, fragments, q + 1, pos, true)
    && (|pos| > 0 ==> p < pos[0])
    && (q == -1 && |fragments| > 0 ==> pos[0] == p + 1)
    && (allMatched <==> skipped == 0 && EqualFromEndAfter(segments, fragments, q))
    && (AllEqualFromEnd(segments, fragments) ==> skipped == 0)
    && (lastMatchIndex == 0 <==> p < |segments| - 1 && LastIsPrefix(segments, fragments))
    && NotBehind(segments, fragments, q, p)
  }

  /** The scan starts from the last fragment and the last segment. */
  lemma ScanStart(segments: seq<string>, fragments: seq<string>)
    requires |fragments| <= |segments|
    ensures ScanInvariant(segments, fragments, |fragments| - 1, |segments| - 1, true, -1, 0, [])
  {
  }

  /**
   * A segment where the fragment does not match is skipped: given what the
   * pair test reported (`isMatch` false, the substring position
   * `matchIndex`), the updated `allMatched'` is false and the invariant
   * holds one segment further left.
   */
  lemma ScanSkip(segments: seq<string>, fragments: seq<string>, q: int, p: int,
                 allMatched: bool, lastMatchIndex: int, skipped: int, pos: seq<int>,
                 isMatch: bool, matchIndex: int, allMatched': bool)
    requires ScanInvariant(segments, fragments, q, p, allMatched, lastMatchIndex, skipped, pos)
    requires 0 <= q && 0 <= p
    requires !isMatch && matchIndex == IndexOfCI(segments[p], fragments[q]) && (matchIndex != -1 ==> isMatch)
    requires ShortFragments(fragments) ==> (isMatch <==> PairMatches(segments, fragments, p, q))
    requires allMatched' == (allMatched && matchIndex == 0 && |segments[p]| == |fragments[q]|)
    ensures !allMatched'
    ensures ScanInvariant(segments, fragments, q, p - 1, allMatched', lastMatchIndex, skipped + 1, pos)
  {
    NotBehindSkip(segments, fragments, q, p);
    IndexOfZeroSameLength(segments[p], fragments[q]);
    IndexOfZeroIffPrefix(segments[p], fragments[q]);
    AllEqualAt(segments, fragments, q, p);
  }

  /**
   * A matching pair is consumed: both cursors move left, `allMatched'`
   * records whether the pair was equal, and `lastMatchIndex'` takes the
   * substring position when the segment is the last one.
   */
  lemma ScanConsume(segments: seq<string>, fragments: seq<string>, q: int, p: int,
                    allMatched: bool, lastMatchIndex: int, skipped: int, pos: seq<int>,
                    isMatch: bool, matchIndex: int, allMatched': bool, lastMatchIndex': int)
    requires ScanInvariant(segments, fragments, q, p, allMatched, lastMatchIndex, skipped, pos)
    requires 0 <= q && 0 <= p
    requires isMatch && (isMatch ==> PairMatches(segments, fragments, p, q))
    requires matchIndex == IndexOfCI(segments[p], fragments[q])
    requires allMatched' == (allMatched && matchIndex == 0 && |segments[p]| == |fragments[q]|)
    requires lastMatchIndex' == if p == |segments| - 1 then matchIndex else lastMatchIndex
    ensures ScanInvariant(segments, fragments, q - 1, p - 1, allMatched', lastMatchIndex', skipped, [p] + pos)
  {
    PlacementExtend(segments, fragments, q, p, pos);
    NotBehindConsume(segments, fragments, q, p);
    IndexOfZeroSameLength(segments[p], fragments[q]);
    IndexOfZeroIffPrefix(segments[p], fragments[q]);
    assert p == |segments| - 1 ==> q == |fragments| - 1;
    assert skipped == 0 ==> p == |segments| - |fragments| + q;
    assert EqualFromEndAfter(segments, fragments, q - 1) <==>
      EqualFromEndAfter(segments, fragments, q) && EqualsCI(fragments[q], segments[|segments| - |fragments| + q]);
    assert allMatched' <==> skipped == 0 && EqualFromEndAfter(segments, fragments, q - 1);
    assert lastMatchIndex' == 0 <==> p - 1 < |segments| - 1 && LastIsPrefix(segments, fragments);
  }

  /**
   * What the scan has established once every fragment is placed: the
   * placement starts right after the final segment cursor, covers at least
   * as many segments as there are fragments, and no substring placement
   * starts further right; `allMatched` and `lastMatchIndex` decide the
   * exact and the prefix cases.
   */
  lemma ScanFinished(segments: seq<string>, fragments: seq<string>, p: int,
                     allMatched: bool, lastMatchIndex: int, skipped: int, pos: seq<int>)
    requires ScanInvariant(segments, fragments, -1, p, allMatched, lastMatchIndex, skipped, pos)
    ensures Placement(segments, fragments, 0, pos, true)
    ensures allMatched <==> AllEqualFromEnd(segments, fragments)
    ensures lastMatchIndex == 0 <==> LastIsPrefix(segments, fragments)
    ensures |fragments| <= |segments| - (p + 1) <= |segments|
    ensures 0 < |fragments| ==> pos[0] == p + 1
    ensures forall a :: Competitor(segments, fragments, a) ==> 0 < |a| ==> a[0] <= p + 1
  {
  }

  /**
   * One pass of the loop of `MatchPathFilter`: tests fragment `searchIndex`
   * against segment `pathIndex`, records whether the pair was equal, and
   * then either consumes the pair (both cursors move left, and a match on
   * the last segment records its substring position) or skips the segment.
   */
  method ScanStep(segments: seq<string>, fragments: seq<string>, pathIndex: int, searchIndex: int,
                  allMatched: bool, lastMatchIndex: int, ghost skipped: int, ghost pos: seq<int>)
    returns (pathIndex': int, searchIndex': int, allMatched': bool, lastMatchIndex': int,
             ghost skipped': int, ghost pos': seq<int>)
    requires ScanInvariant(segments, fragments, searchIndex, pathIndex, allMatched, lastMatchIndex, skipped, pos)
    requires 0 <= pathIndex && 0 <= searchIndex
    requires forall p :: 0 <= p < |segments| - 1 ==> |segments[p]| > 0
    ensures ScanInvariant(segments, fragments, searchIndex', pathIndex', allMatched', lastMatchIndex', skipped', pos')
    ensures pathIndex' == pathIndex - 1
  {
    var segment := segments[pathIndex];
    var typedSegment := fragments[searchIndex];
    var isMatch, matchIndex := MatchSegment(segments, fragments, pathIndex, searchIndex);
    var isLastPathSegment := pathIndex == |segments| - 1;
    allMatched' := allMatched && matchIndex == 0 && |segment| == |typedSegment|;

    if !isMatch {
      ScanSkip(segments, fragments, searchIndex, pathIndex, allMatched, lastMatchIndex, skipped, pos,
               isMatch, matchIndex, allMatched');
      return pathIndex - 1, searchIndex, allMatched', lastMatchIndex, skipped + 1, pos;
    }
    lastMatchIndex' := lastMatchIndex;
    if isLastPathSegment {
      lastMatchIndex' := matchIndex;
    }
    ScanConsume(segments, fragments, searchIndex, pathIndex, allMatched, lastMatchIndex, skipped, pos,
                isMatch, matchIndex, allMatched', lastMatchIndex');
    return pathIndex - 1, searchIndex - 1, allMatched', lastMatchIndex', skipped, [pathIndex] + pos;
  }

  /**
   * The loop of `MatchPathFilter`: walks the segments from the right,
   * consuming a fragment at every segment it matches and skipping every
   * other segment, until the segments or the fragments run out. Returns the
   * final cursors and flags, and (ghost) the number of skipped segments and
   * the placement built.
   */
  method Scan(segments: seq<string>, fragments: seq<string>)
    returns (pathIndex: int, searchIndex: int, allMatched: bool, lastMatchIndex: int, ghost skipped: int, ghost pos: seq<int>)
    requires |fragments| <= |segments|
    requires forall p :: 0 <= p < |segments| - 1 ==> |segments[p]| > 0
    ensures ScanInvariant(segments, fragments, searchIndex, pathIndex, allMatched, lastMatchIndex, skipped, pos)
    ensures pathIndex < 0 || searchIndex < 0
  {
    allMatched := true;
    searchIndex := |fragments| - 1;
    pathIndex := |segments| - 1;
    lastMatchIndex := -1;
    skipped := 0;
    pos := [];
    ScanStart(segments, fragments);

    // the third conjunct always holds: it equals |segments| - 1 - skipped < |segments|
    while pathIndex >= 0 && searchIndex >= 0 && pathIndex + |fragments| - searchIndex - 1 < |segments|
      invariant ScanInvariant(segments, fragments, searchIndex, pathIndex, allMatched, lastMatchIndex, skipped, pos)
      decreases pathIndex
    {
      pathIndex, searchIndex, allMatched, lastMatchIndex, skipped, pos :=
        ScanStep(segments, fragments, pathIndex, searchIndex, allMatched, lastMatchIndex, skipped, pos);
    }
  }

  /**
   * Scores how well `fragments` match `segments`. Fragments are taken from
   * the right; a segment that does not match the current fragment is
   * skipped. The result is -1 when some fragment cannot be placed; 0 when
   * every fragment equals its segment counted from the end; 1 when the last
   * fragment is a prefix of the last segment; else 2 plus the number of
   * segments from the first matched one to the end.
   *
   * Every non-negative score comes with a placement `pos` of the fragments
   * (ghost). The scan is greedy, yet no substring-only placement is missed
   * or placed further left than the scan's own.
   */
  method MatchPathFilter(segments: seq<string>, fragments: seq<string>) returns (score: int, ghost pos: seq<int>)
    requires forall p :: 0 <= p < |segments| - 1 ==> |segments[p]| > 0
    ensures |fragments| > |segments| ==> score == NoMatch
    ensures score == NoMatch || score == ExactMatch || score == StartMatch
      || OtherMatch + |fragments| <= score <= OtherMatch + |segments|
    ensures score == ExactMatch <==> AllEqualFromEnd(segments, fragments)
    ensures score == StartMatch <==> (score != NoMatch && score != ExactMatch && LastIsPrefix(segments, fragments))
    ensures score != NoMatch ==> Placement(segments, fragments, 0, pos, true)
    ensures score >= OtherMatch ==> 0 < |fragments| && score == OtherMatch + |segments| - pos[0]
    ensures forall a :: Placement(segments, fragments, 0, a, false) ==>
      score != NoMatch && (score >= OtherMatch ==> score <= OtherMatch + |segments| - a[0])
    ensures ShortFragments(fragments) ==> forall a :: Placement(segments, fragments, 0, a, true) ==>
      score != NoMatch && (score >= OtherMatch ==> score <= OtherMatch + |segments| - a[0])
  {
    pos := [];
    if |fragments| > |segments| {
      TooManyFragments(segments, fragments);
      return NoMatch, pos;
    }

    var pathIndex, searchIndex, allMatched, lastMatchIndex;
    ghost var skipped;
    pathIndex, searchIndex, allMatched, lastMatchIndex, skipped, pos := Scan(segments, fragments);

    if searchIndex != -1 {
      NotBehindExhausted(segments, fragments, searchIndex, pathIndex);
      return NoMatch, pos;
    }
    ScanFinished(segments, fragments, pathIndex, allMatched, lastMatchIndex, skipped, pos);

    var segmentMatchDistance := |segments| - (pathIndex + 1);

    if allMatched {
      return ExactMatch, pos;
    }

    if lastMatchIndex == 0 {
      return StartMatch, pos;
    }

    return OtherMatch + segmentMatchDistance, pos;
  }

  /** Scores that follow from the contract of `MatchPathFilter` alone. */
  method ScoreExamples()
  {
    ghost var pos;
    var exact;
    exact, pos := MatchPathFilter(["a", "b", "c"], ["a", "b", "c"]);
    assert exact == ExactMatch;

    var tooMany;
    tooMany, pos := MatchPathFilter(["a"], ["x", "y"]);
    assert tooMany == NoMatch;

    var start;
    assert OccursAt("MyFile", "MyF", 0);
    assert Placement(["dir", "MyFile"], ["MyF"], 0, [1], false);
    assert LastIsPrefix(["dir", "MyFile"], ["MyF"]);
    assert !EqualsCI("MyF", "MyFile");
    start, pos := MatchPathFilter(["dir", "MyFile"], ["MyF"]);
    assert start == StartMatch;
  }
}
