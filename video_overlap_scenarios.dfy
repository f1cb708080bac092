/**
 * The overlap scenarios of the repository's tests, restated over abstract
 * fingerprints: solid-colour frames whose fingerprints match only when the
 * colours are equal.
 */
module VideoOverlapScenarios {
  import opened Wrappers
  import opened VideoComparison

  datatype Colour = Red | Green | Blue | Yellow | Cyan | White | Black | Gray

  /** Equal colours are at distance 0, different ones well beyond the tolerance. */
  function ColourDistance(a: Colour, b: Colour): (d: nat)
  {
    if a == b then 0 else 64
  }

  /** No frame of [Red, Green] matches any frame of [Blue, Yellow, Cyan]. */
  lemma NoRunFromRedOrGreen(i1: nat, i2: nat)
    requires i1 < 2 && i2 < 3
    ensures RunLen(ColourDistance, [Red, Green, Blue, Yellow, Cyan], [Blue, Yellow, Cyan], i1, i2) == 0
  {
  }

  /** The tail [Blue, Yellow, Cyan] of the first video is the whole second video. */
  lemma ScenarioOverlapFound()
    ensures IsBestOverlap(ColourDistance, [Red, Green, Blue, Yellow, Cyan], [Blue, Yellow, Cyan], DefaultThreshold,
                          Overlap(Some(2), Some(0), 3))
  {
    var h1, h2 := [Red, Green, Blue, Yellow, Cyan], [Blue, Yellow, Cyan];
    assert RunLen(ColourDistance, h1, h2, 2, 0) == 3;
    forall i1: nat, i2: nat | i1 < |h1| && i2 < |h2| && LexBefore(i1, i2, 2, 0)
      ensures RunLen(ColourDistance, h1, h2, i1, i2) < 3
    {
      NoRunFromRedOrGreen(i1, i2);
    }
  }

  /** Two videos without a common colour have no overlap. */
  lemma ScenarioNoOverlap()
    ensures IsBestOverlap(ColourDistance, [Red, Green, Blue], [White, Black, Gray], DefaultThreshold, Overlap(None, None, 0))
  {
  }

  /**
   * The first test: the search reports frames 2.. of the first video against
   * frames 0.. of the second, three frames long.
   */
  method TestOverlapFound() returns (r: Overlap)
    ensures r == Overlap(Some(2), Some(0), 3)
  {
    var h1, h2 := [Red, Green, Blue, Yellow, Cyan], [Blue, Yellow, Cyan];
    r := FindVideoOverlap(ColourDistance, h1, h2, DefaultThreshold);
    ScenarioOverlapFound();
    BestOverlapUnique(ColourDistance, h1, h2, DefaultThreshold, r, Overlap(Some(2), Some(0), 3));
  }

  /** The second test: the search reports (None, None, 0). */
  method TestNoOverlap() returns (r: Overlap)
    ensures r == Overlap(None, None, 0)
  {
    var h1, h2 := [Red, Green, Blue], [White, Black, Gray];
    r := FindVideoOverlap(ColourDistance, h1, h2, DefaultThreshold);
    ScenarioNoOverlap();
    BestOverlapUnique(ColourDistance, h1, h2, DefaultThreshold, r, Overlap(None, None, 0));
  }

  /**
   * A shared run in the middle of both videos, at threshold 2: frames 1..3 of
   * [Red, Green, Blue, Yellow, Cyan] against frames 2..4 of
   * [White, Black, Green, Blue, Yellow, Gray].
   */
  method TestMiddleOverlap() returns (r: Overlap)
    ensures r == Overlap(Some(1), Some(2), 3)
  {
    var h1, h2 := [Red, Green, Blue, Yellow, Cyan], [White, Black, Green, Blue, Yellow, Gray];
    r := FindVideoOverlap(ColourDistance, h1, h2, 2);
    assert RunLen(ColourDistance, h1, h2, 1, 2) == 3;
    var s1, s2 := r.start1.value, r.start2.value;
    assert RunLen(ColourDistance, h1, h2, s1, s2) == r.length;
    MiddleRunIsLongest(s1, s2);
  }

  /** In the middle-overlap scenario, only the start pair (1, 2) has a run of 3 or more. */
  lemma MiddleRunIsLongest(i1: nat, i2: nat)
    requires i1 < 5 && i2 < 6
    ensures RunLen(ColourDistance, [Red, Green, Blue, Yellow, Cyan], [White, Black, Green, Blue, Yellow, Gray], i1, i2) <= 3
    ensures i1 != 1 || i2 != 2 ==>
              RunLen(ColourDistance, [Red, Green, Blue, Yellow, Cyan], [White, Black, Green, Blue, Yellow, Gray], i1, i2) < 3
  {
    var h1, h2 := [Red, Green, Blue, Yellow, Cyan], [White, Black, Green, Blue, Yellow, Gray];
    if i1 == 1 && i2 == 2 {
      assert RunLen(ColourDistance, h1, h2, 1, 2) == 3;
    } else if i1 == 2 && i2 == 3 {
      assert RunLen(ColourDistance, h1, h2, 2, 3) == 2;
    } else if i1 == 3 && i2 == 4 {
      assert RunLen(ColourDistance, h1, h2, 3, 4) == 1;
    } else {
      assert h1[i1] != h2[i2];
    }
  }
}
