// Per-character case folding and case-insensitive substring search.
//
// The matcher compares characters only after lower-casing both sides and
// searches segments with a case-insensitive `indexOf`. Unicode case tables
// are not modelled: `Lower` and `IsUpper` act on the ASCII letters and leave
// every other character alone, which keeps every property below independent
// of the table actually used.
module CaseFold {

  /** Lower-case form of one character (ASCII letters only). */
  function Lower(c: char): char
  {
    if 'A' <= c <= 'Z' then (c as int + 32) as char else c
  }

  /** Whether a character is an upper-case letter (ASCII letters only). */
  predicate IsUpper(c: char)
  {
    'A' <= c <= 'Z'
  }

  /** `needle` occurs in `hay` at index `k`, comparing lower-cased characters. */
  predicate OccursAt(hay: string, needle: string, k: int)
  {
    0 <= k && k + |needle| <= |hay|
    && forall j :: 0 <= j < |needle| ==> Lower(hay[k + j]) == Lower(needle[j])
  }

  /** `prefix` is a case-insensitive prefix of `s`. */
  predicate PrefixCI(prefix: string, s: string)
  {
    OccursAt(s, prefix, 0)
  }

  /** `a` and `b` are equal up to case. */
  predicate EqualsCI(a: string, b: string)
  {
    |a| == |b| && PrefixCI(a, b)
  }

  /** First index at or after `from` where `needle` occurs in `hay`, or -1. */
  function IndexOfFrom(hay: string, needle: string, from: nat): (r: int)
    decreases |hay| + 1 - from
    ensures r == -1 || (from <= r && OccursAt(hay, needle, r))
    ensures r != -1 ==> forall k :: from <= k < r ==> !OccursAt(hay, needle, k)
    ensures r == -1 <==> forall k :: from <= k ==> !OccursAt(hay, needle, k)
  {
    if from + |needle| > |hay| then -1
    else if OccursAt(hay, needle, from) then from
    else IndexOfFrom(hay, needle, from + 1)
  }

  /**
   * Case-insensitive `indexOf` from position 0: the first index at which
   * `needle` occurs in `hay`, or -1 when it occurs nowhere. An empty needle
   * occurs at 0.
   */
  function IndexOfCI(hay: string, needle: string): (r: int)
    ensures r == -1 || 0 <= r <= |hay| - |needle|
    ensures r != -1 ==> OccursAt(hay, needle, r) && forall k :: 0 <= k < r ==> !OccursAt(hay, needle, k)
    ensures r == -1 <==> forall k :: !OccursAt(hay, needle, k)
  {
    IndexOfFrom(hay, needle, 0)
  }

  /** The search reports 0 exactly when the needle is a prefix of the haystack. */
  lemma IndexOfZeroIffPrefix(hay: string, needle: string)
    ensures IndexOfCI(hay, needle) == 0 <==> PrefixCI(needle, hay)
  {
  }

  /** The search reports 0 on a segment of the needle's own length exactly when the two are equal up to case. */
  lemma IndexOfZeroSameLength(hay: string, needle: string)
    ensures (IndexOfCI(hay, needle) == 0 && |hay| == |needle|) <==> EqualsCI(needle, hay)
  {
    IndexOfZeroIffPrefix(hay, needle);
  }
}
