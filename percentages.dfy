/** `(part / whole) * 100` on exact reals, as the card and the dashboard compute it. */
module Percentages {

  function Percent(part: int, whole: int): (p: real)
    requires whole > 0
    ensures p * whole as real == part as real * 100.0
    ensures part >= 0 ==> p >= 0.0
  {
    (part as real / whole as real) * 100.0
  }

  lemma PercentAtMostFull(part: int, whole: int)
    requires 0 <= part <= whole && whole > 0
    ensures 0.0 <= Percent(part, whole) <= 100.0
  {
    assert part as real / whole as real <= 1.0;
  }

  /** A part within the whole gives a percentage within [0, 100], and 100 exactly for the whole. */
  lemma PercentWithinWhole(part: int, whole: int)
    requires 0 <= part <= whole && whole > 0
    ensures 0.0 <= Percent(part, whole) <= 100.0
    ensures Percent(part, whole) == 100.0 <==> part == whole
  {
    PercentAtMostFull(part, whole);
    PercentFull(part, whole);
  }

  lemma PercentAboveFull(part: int, whole: int)
    requires 0 < whole < part
    ensures Percent(part, whole) > 100.0
  {
    assert part as real / whole as real > 1.0;
  }

  lemma PercentFull(part: int, whole: int)
    requires whole > 0
    ensures Percent(part, whole) == 100.0 <==> part == whole
  {
    var p := Percent(part, whole);
    if p == 100.0 {
      assert 100.0 * whole as real == part as real * 100.0;
    }
    if part == whole {
      assert part as real / whole as real == 1.0;
    }
  }
}
