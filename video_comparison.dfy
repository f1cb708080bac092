/**
 * The frame-overlap search of the video comparison tool.
 *
 * Frames are represented by their precomputed perceptual fingerprints, of an
 * abstract type `H`; the fingerprint library's distance between two
 * fingerprints is the parameter `dist`.
 */
module VideoComparison {
  import opened Wrappers

  /** The tolerance `compare_hashes` uses by default, and so the one the search uses. */
  const DefaultMaxDistance: int := 5

  /** The minimum overlap length `find_video_overlap` uses by default. */
  const DefaultThreshold: int := 3

  /**
   * Two fingerprints show "the same frame" when their distance is within the
   * tolerance; distances are never negative, so a negative tolerance matches nothing.
   */
  predicate CompareHashes<H>(dist: (H, H) -> nat, hash1: H, hash2: H, maxDistance: int)
    ensures CompareHashes(dist, hash1, hash2, maxDistance) ==> 0 <= maxDistance
  {
    dist(hash1, hash2) <= maxDistance
  }

  /** A fingerprint at distance 0 from itself matches itself at every tolerance >= 0. */
  lemma CompareHashesReflexive<H>(dist: (H, H) -> nat, hash: H, maxDistance: int)
    requires dist(hash, hash) == 0 && 0 <= maxDistance
    ensures CompareHashes(dist, hash, hash, maxDistance)
  {
  }

  /**
   * The length of the greedy lock-step walk from the start pair (i1, i2):
   * the number of consecutive index-aligned pairs that match before the
   * first mismatch or the end of either sequence.
   */
  function RunLen<H>(dist: (H, H) -> nat, hashes1: seq<H>, hashes2: seq<H>, i1: nat, i2: nat): (n: nat)
    ensures n > 0 ==> i1 + n <= |hashes1| && i2 + n <= |hashes2|
    decreases |hashes1| - i1
  {
    if i1 < |hashes1| && i2 < |hashes2| && CompareHashes(dist, hashes1[i1], hashes2[i2], DefaultMaxDistance)
    then 1 + RunLen(dist, hashes1, hashes2, i1 + 1, i2 + 1)
    else 0
  }

  /** The pair `k` steps after the start pair (i1, i2) matches. */
  predicate MatchAt<H>(dist: (H, H) -> nat, hashes1: seq<H>, hashes2: seq<H>, i1: nat, i2: nat, k: nat)
    requires i1 + k < |hashes1| && i2 + k < |hashes2|
  {
    CompareHashes(dist, hashes1[i1 + k], hashes2[i2 + k], DefaultMaxDistance)
  }

  /** The `len` pairs starting at (i1, i2) exist and match frame for frame. */
  ghost predicate AllMatch<H>(dist: (H, H) -> nat, hashes1: seq<H>, hashes2: seq<H>, i1: nat, i2: nat, len: nat)
  {
    && i1 + len <= |hashes1| && i2 + len <= |hashes2|
    && forall k: nat :: k < len ==> MatchAt(dist, hashes1, hashes2, i1, i2, k)
  }

  /** The greedy walk only covers matching pairs. */
  lemma {:induction false} RunLenMatches<H>(dist: (H, H) -> nat, hashes1: seq<H>, hashes2: seq<H>, i1: nat, i2: nat)
    requires i1 <= |hashes1| && i2 <= |hashes2|
    ensures AllMatch(dist, hashes1, hashes2, i1, i2, RunLen(dist, hashes1, hashes2, i1, i2))
    decreases |hashes1| - i1
  {
    var n := RunLen(dist, hashes1, hashes2, i1, i2);
    if n > 0 {
      RunLenMatches(dist, hashes1, hashes2, i1 + 1, i2 + 1);
      forall k: nat | k < n
        ensures MatchAt(dist, hashes1, hashes2, i1, i2, k)
      {
        if k > 0 {
          assert MatchAt(dist, hashes1, hashes2, i1 + 1, i2 + 1, k - 1);
        }
      }
    }
  }

  /** No matching run from (i1, i2) is longer than the greedy walk: it is the longest one. */
  lemma {:induction false} RunLenMaximal<H>(dist: (H, H) -> nat, hashes1: seq<H>, hashes2: seq<H>, i1: nat, i2: nat, len: nat)
    requires AllMatch(dist, hashes1, hashes2, i1, i2, len)
    ensures len <= RunLen(dist, hashes1, hashes2, i1, i2)
    decreases len
  {
    if len > 0 {
      assert MatchAt(dist, hashes1, hashes2, i1, i2, 0);
      var next1, next2 := i1 + 1, i2 + 1;
      forall k: nat | k < len - 1
        ensures MatchAt(dist, hashes1, hashes2, next1, next2, k)
      {
        assert MatchAt(dist, hashes1, hashes2, i1, i2, k + 1);
      }
      RunLenMaximal(dist, hashes1, hashes2, next1, next2, len - 1);
    }
  }

  /** The result triple of the search: both starts are `None` when no run qualifies. */
  datatype Overlap = Overlap(start1: Option<nat>, start2: Option<nat>, length: nat)

  /** A run is worth recording: non-empty and at least `threshold` long. */
  predicate Qualifies(n: nat, threshold: int)
  {
    n > 0 && n >= threshold
  }

  /** (j1, j2) comes before (i1, i2) in the scan order: by first index, then by second. */
  predicate LexBefore(j1: nat, j2: nat, i1: nat, i2: nat)
  {
    j1 < i1 || (j1 == i1 && j2 < i2)
  }

  /**
   * What the search promises: `r` is the absence triple exactly when no start
   * pair has a qualifying greedy run; otherwise its length is the longest greedy
   * run over all start pairs, it qualifies, and its start pair is the first in
   * scan order whose greedy run has that length.
   */
  ghost predicate IsBestOverlap<H>(dist: (H, H) -> nat, hashes1: seq<H>, hashes2: seq<H>, threshold: int, r: Overlap)
  {
    && (r.start1.None? <==> r.length == 0)
    && (r.start2.None? <==> r.length == 0)
    && (r.length == 0 <==>
          forall i1: nat, i2: nat :: i1 < |hashes1| && i2 < |hashes2| ==>
            !Qualifies(RunLen(dist, hashes1, hashes2, i1, i2), threshold))
    && (r.length > 0 ==>
          && r.start1.value < |hashes1| && r.start2.value < |hashes2|
          && RunLen(dist, hashes1, hashes2, r.start1.value, r.start2.value) == r.length
          && Qualifies(r.length, threshold)
          && (forall i1: nat, i2: nat :: i1 < |hashes1| && i2 < |hashes2| ==>
                RunLen(dist, hashes1, hashes2, i1, i2) <= r.length)
          && (forall i1: nat, i2: nat ::
                i1 < |hashes1| && i2 < |hashes2| && LexBefore(i1, i2, r.start1.value, r.start2.value) ==>
                RunLen(dist, hashes1, hashes2, i1, i2) < r.length))
  }

  /**
   * The running best state after every start pair before (i1, i2) in scan
   * order has been tried.
   */
  ghost predicate BestSoFar<H>(dist: (H, H) -> nat, hashes1: seq<H>, hashes2: seq<H>, threshold: int,
                               i1: nat, i2: nat, best1: Option<nat>, best2: Option<nat>, longest: nat)
  {
    && (longest == 0 ==> best1.None? && best2.None?)
    && (longest > 0 ==>
          && best1.Some? && best2.Some?
          && best1.value < |hashes1| && best2.value < |hashes2|
          && LexBefore(best1.value, best2.value, i1, i2)
          && RunLen(dist, hashes1, hashes2, best1.value, best2.value) == longest
          && Qualifies(longest, threshold)
          && (forall j1: nat, j2: nat ::
                j1 < |hashes1| && j2 < |hashes2| && LexBefore(j1, j2, best1.value, best2.value) ==>
                RunLen(dist, hashes1, hashes2, j1, j2) < longest))
    && (forall j1: nat, j2: nat ::
          j1 < |hashes1| && j2 < |hashes2| && LexBefore(j1, j2, i1, i2) ==>
          RunLen(dist, hashes1, hashes2, j1, j2) <= longest || !Qualifies(RunLen(dist, hashes1, hashes2, j1, j2), threshold))
  }

  /** Trying the start pair (i1, i2), whose greedy run is `m`, keeps the running best state. */
  lemma BestSoFarStep<H>(dist: (H, H) -> nat, hashes1: seq<H>, hashes2: seq<H>, threshold: int,
                         i1: nat, i2: nat, best1: Option<nat>, best2: Option<nat>, longest: nat, m: nat)
    requires i1 < |hashes1| && i2 < |hashes2|
    requires BestSoFar(dist, hashes1, hashes2, threshold, i1, i2, best1, best2, longest)
    requires m == RunLen(dist, hashes1, hashes2, i1, i2)
    ensures m > longest && m >= threshold ==>
              BestSoFar(dist, hashes1, hashes2, threshold, i1, i2 + 1, Some(i1), Some(i2), m)
    ensures !(m > longest && m >= threshold) ==>
              BestSoFar(dist, hashes1, hashes2, threshold, i1, i2 + 1, best1, best2, longest)
  {
  }

  /** Finishing the row of first index i1 is starting the row of i1 + 1. */
  lemma BestSoFarNextRow<H>(dist: (H, H) -> nat, hashes1: seq<H>, hashes2: seq<H>, threshold: int,
                            i1: nat, best1: Option<nat>, best2: Option<nat>, longest: nat)
    requires BestSoFar(dist, hashes1, hashes2, threshold, i1, |hashes2|, best1, best2, longest)
    ensures BestSoFar(dist, hashes1, hashes2, threshold, i1 + 1, 0, best1, best2, longest)
  {
  }

  /** Once every start pair has been tried, the running best state is the promised result. */
  lemma BestSoFarDone<H>(dist: (H, H) -> nat, hashes1: seq<H>, hashes2: seq<H>, threshold: int,
                         best1: Option<nat>, best2: Option<nat>, longest: nat)
    requires BestSoFar(dist, hashes1, hashes2, threshold, |hashes1|, 0, best1, best2, longest)
    ensures longest == 0 ==> IsBestOverlap(dist, hashes1, hashes2, threshold, Overlap(None, None, 0))
    ensures longest > 0 ==> IsBestOverlap(dist, hashes1, hashes2, threshold, Overlap(best1, best2, longest))
  {
  }

  /**
   * Exhaustive scan of all start pairs, ascending in the first index and then in
   * the second, each followed by a greedy lock-step walk; a walk becomes the new
   * best only when strictly longer than the best so far and at least `threshold`.
   */
  method FindVideoOverlap<H>(dist: (H, H) -> nat, hashes1: seq<H>, hashes2: seq<H>, threshold: int) returns (r: Overlap)
    ensures IsBestOverlap(dist, hashes1, hashes2, threshold, r)
    ensures |hashes1| == 0 || |hashes2| == 0 ==> r == Overlap(None, None, 0)
  {
    var len1 := |hashes1|;
    var len2 := |hashes2|;

    var bestMatchStart1: Option<nat> := None;
    var bestMatchStart2: Option<nat> := None;
    var longestMatchLength: nat := 0;

    for i1 := 0 to len1
      invariant BestSoFar(dist, hashes1, hashes2, threshold, i1, 0, bestMatchStart1, bestMatchStart2, longestMatchLength)
    {
      for i2 := 0 to len2
        invariant BestSoFar(dist, hashes1, hashes2, threshold, i1, i2, bestMatchStart1, bestMatchStart2, longestMatchLength)
      {
        var matchLength: nat := 0;
        var offset1 := i1;
        var offset2 := i2;

        while offset1 < len1 && offset2 < len2
          invariant offset1 - i1 == matchLength && offset2 - i2 == matchLength
          invariant offset1 <= len1 && offset2 <= len2
          invariant RunLen(dist, hashes1, hashes2, i1, i2) == matchLength + RunLen(dist, hashes1, hashes2, offset1, offset2)
          decreases len1 - offset1
        {
          if CompareHashes(dist, hashes1[offset1], hashes2[offset2], DefaultMaxDistance) {
            matchLength := matchLength + 1;
            offset1 := offset1 + 1;
            offset2 := offset2 + 1;
          } else {
            break;
          }
        }
        assert matchLength == RunLen(dist, hashes1, hashes2, i1, i2);

        BestSoFarStep(dist, hashes1, hashes2, threshold, i1, i2,
                      bestMatchStart1, bestMatchStart2, longestMatchLength, matchLength);
        if matchLength > longestMatchLength && matchLength >= threshold {
          longestMatchLength := matchLength;
          bestMatchStart1 := Some(i1);
          bestMatchStart2 := Some(i2);
        }
      }
      BestSoFarNextRow(dist, hashes1, hashes2, threshold, i1, bestMatchStart1, bestMatchStart2, longestMatchLength);
    }

    BestSoFarDone(dist, hashes1, hashes2, threshold, bestMatchStart1, bestMatchStart2, longestMatchLength);
    if longestMatchLength == 0 {
      return Overlap(None, None, 0);
    }
    return Overlap(bestMatchStart1, bestMatchStart2, longestMatchLength);
  }

  /** The promise determines the result: the search is deterministic. */
  lemma BestOverlapUnique<H>(dist: (H, H) -> nat, hashes1: seq<H>, hashes2: seq<H>, threshold: int, r: Overlap, r': Overlap)
    requires IsBestOverlap(dist, hashes1, hashes2, threshold, r)
    requires IsBestOverlap(dist, hashes1, hashes2, threshold, r')
    ensures r == r'
  {
  }

  /** A reported window lies inside both sequences and matches frame for frame. */
  lemma BestOverlapWindow<H>(dist: (H, H) -> nat, hashes1: seq<H>, hashes2: seq<H>, threshold: int, r: Overlap)
    requires IsBestOverlap(dist, hashes1, hashes2, threshold, r)
    requires r.length > 0
    ensures r.length >= threshold
    ensures r.start1.value + r.length <= |hashes1| && r.start2.value + r.length <= |hashes2|
    ensures AllMatch(dist, hashes1, hashes2, r.start1.value, r.start2.value, r.length)
  {
    RunLenMatches(dist, hashes1, hashes2, r.start1.value, r.start2.value);
  }

  /** A sequence compared with itself overlaps entirely, from the first frame of each. */
  lemma {:induction false} SelfOverlap<H>(dist: (H, H) -> nat, hashes: seq<H>, threshold: int)
    requires forall i :: 0 <= i < |hashes| ==> dist(hashes[i], hashes[i]) == 0
    requires 0 < |hashes| && threshold <= |hashes|
    ensures IsBestOverlap(dist, hashes, hashes, threshold, Overlap(Some(0), Some(0), |hashes|))
  {
    forall k: nat | k < |hashes|
      ensures MatchAt(dist, hashes, hashes, 0, 0, k)
    {
      CompareHashesReflexive(dist, hashes[k], DefaultMaxDistance);
    }
    RunLenMaximal(dist, hashes, hashes, 0, 0, |hashes|);
  }
}
