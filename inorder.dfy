// In-order occurrence of the characters of one string inside another,
// comparing lower-cased characters.
//
// Two variants are used by the matcher: a subsequence, where the positions
// found for successive characters strictly increase, and the weaker form
// where a position may be reused for the next character (the positions only
// never decrease).
module InOrder {
  import opened CaseFold

  /**
   * The characters of `t` occur in `p` in order, up to case. With `reuse`,
   * one position of `p` may serve several successive characters of `t`.
   */
  predicate Embeds(t: string, p: string, reuse: bool)
    decreases |t| + |p|
  {
    if |t| == 0 then true
    else if |p| == 0 then false
    else
      (Lower(t[0]) == Lower(p[0]) && Embeds(t[1..], if reuse then p else p[1..], reuse))
      || Embeds(t, p[1..], reuse)
  }

  /** `idx` lists, in order, a position of `p` for every character of `t`. */
  predicate IsPlacement(t: string, p: string, idx: seq<int>, reuse: bool)
  {
    |idx| == |t|
    && (forall k :: 0 <= k < |idx| ==> 0 <= idx[k] < |p| && Lower(t[k]) == Lower(p[idx[k]]))
    && (forall k :: 0 <= k < |idx| - 1 ==> if reuse then idx[k] <= idx[k + 1] else idx[k] < idx[k + 1])
  }

  /** Embedding into a suffix gives an embedding into the whole. */
  lemma EmbedsSkip(t: string, p: string, reuse: bool)
    requires |p| > 0 && Embeds(t, p[1..], reuse)
    ensures Embeds(t, p, reuse)
  {
  }

  /** Dropping the first character of `t` keeps an embedding. */
  lemma {:induction false} EmbedsDropFirst(t: string, p: string, reuse: bool)
    requires |t| > 0 && Embeds(t, p, reuse)
    ensures Embeds(t[1..], p, reuse)
    decreases |p|
  {
    if |t| == 1 {
    } else if Lower(t[0]) == Lower(p[0]) && Embeds(t[1..], if reuse then p else p[1..], reuse) {
      if !reuse {
        EmbedsSkip(t[1..], p, reuse);
      }
    } else {
      EmbedsDropFirst(t, p[1..], reuse);
      EmbedsSkip(t[1..], p, reuse);
    }
  }

  /**
   * Greedy choice is safe: when the first characters agree, matching them
   * at once loses no embedding. This is what lets a left-to-right scan
   * decide `Embeds` without backtracking.
   */
  lemma GreedyMatch(t: string, p: string, reuse: bool)
    requires |t| > 0 && |p| > 0 && Lower(t[0]) == Lower(p[0])
    ensures Embeds(t, p, reuse) <==> Embeds(t[1..], if reuse then p else p[1..], reuse)
  {
    if Embeds(t, p, reuse) && !Embeds(t[1..], if reuse then p else p[1..], reuse) {
      EmbedsDropFirst(t, p[1..], reuse);
      if reuse {
        EmbedsSkip(t[1..], p, reuse);
      }
    }
  }

  /** A subsequence never has more characters than the string it sits in. */
  lemma {:induction false} SubsequenceLength(t: string, p: string)
    requires Embeds(t, p, false)
    ensures |t| <= |p|
    decreases |t| + |p|
  {
    if |t| > 0 {
      if Lower(t[0]) == Lower(p[0]) && Embeds(t[1..], p[1..], false) {
        SubsequenceLength(t[1..], p[1..]);
      } else {
        SubsequenceLength(t, p[1..]);
      }
    }
  }

  /** Shifts every position by `d`. */
  function Shift(idx: seq<int>, d: int): (r: seq<int>)
    ensures |r| == |idx| && forall k :: 0 <= k < |idx| ==> r[k] == idx[k] + d
  {
    seq(|idx|, k requires 0 <= k < |idx| => idx[k] + d)
  }

  /** An embedding comes with a placement that witnesses it. */
  lemma {:induction false} EmbedsHasPlacement(t: string, p: string, reuse: bool)
    requires Embeds(t, p, reuse)
    ensures exists idx :: IsPlacement(t, p, idx, reuse)
    decreases |t| + |p|
  {
    if |t| == 0 {
      assert IsPlacement(t, p, [], reuse);
    } else if Lower(t[0]) == Lower(p[0]) && Embeds(t[1..], if reuse then p else p[1..], reuse) {
      var q := if reuse then p else p[1..];
      EmbedsHasPlacement(t[1..], q, reuse);
      var rest :| IsPlacement(t[1..], q, rest, reuse);
      var idx := [0] + Shift(rest, if reuse then 0 else 1);
      assert IsPlacement(t, p, idx, reuse);
    } else {
      EmbedsHasPlacement(t, p[1..], reuse);
      var rest :| IsPlacement(t, p[1..], rest, reuse);
      assert IsPlacement(t, p, Shift(rest, 1), reuse);
    }
  }

  /** A placement that avoids position 0 shifts down to a placement in `p[1..]`. */
  lemma PlacementShiftDown(t: string, p: string, idx: seq<int>, reuse: bool)
    requires IsPlacement(t, p, idx, reuse)
    requires |p| > 0 && forall k :: 0 <= k < |idx| ==> 1 <= idx[k]
    ensures IsPlacement(t, p[1..], Shift(idx, -1), reuse)
  {
  }

  /** A placement witnesses an embedding. */
  lemma {:induction false} PlacementEmbeds(t: string, p: string, idx: seq<int>, reuse: bool)
    requires IsPlacement(t, p, idx, reuse)
    ensures Embeds(t, p, reuse)
    decreases |t| + |p|
  {
    if |t| > 0 {
      PlacementMonotone(t, p, idx, reuse);
      assert IsPlacement(t[1..], p, idx[1..], reuse);
      if idx[0] != 0 {
        PlacementShiftDown(t, p, idx, reuse);
        PlacementEmbeds(t, p[1..], Shift(idx, -1), reuse);
      } else if reuse {
        PlacementEmbeds(t[1..], p, idx[1..], reuse);
      } else {
        PlacementMonotone(t[1..], p, idx[1..], reuse);
        PlacementShiftDown(t[1..], p, idx[1..], reuse);
        PlacementEmbeds(t[1..], p[1..], Shift(idx[1..], -1), reuse);
      }
    }
  }

  /** Positions of a placement never decrease. */
  lemma {:induction false} PlacementMonotone(t: string, p: string, idx: seq<int>, reuse: bool)
    requires IsPlacement(t, p, idx, reuse)
    ensures forall k :: 0 <= k < |idx| ==> idx[0] <= idx[k]
  {
    var n := 0;
    while n < |idx|
      invariant 0 <= n <= |idx|
      invariant forall k :: 0 <= k < n ==> idx[0] <= idx[k]
    {
      if n > 0 {
        assert idx[n - 1] <= idx[n];
      }
      n := n + 1;
    }
  }

  /** `Embeds` is exactly the existence of a placement. */
  lemma EmbedsIffPlacement(t: string, p: string, reuse: bool)
    ensures Embeds(t, p, reuse) <==> exists idx :: IsPlacement(t, p, idx, reuse)
  {
    if Embeds(t, p, reuse) {
      EmbedsHasPlacement(t, p, reuse);
    } else if idx :| IsPlacement(t, p, idx, reuse) {
      PlacementEmbeds(t, p, idx, reuse);
    }
  }

  /** Every string embeds into itself, with or without reuse. */
  lemma {:induction false} EmbedsReflexive(t: string, reuse: bool)
    ensures Embeds(t, t, reuse)
    decreases |t|
  {
    if |t| > 0 {
      EmbedsReflexive(t[1..], reuse);
      if reuse {
        EmbedsSkip(t[1..], t, reuse);
      }
    }
  }
}
