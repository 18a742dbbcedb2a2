/** Difficulty progression: the tick rate grows by one tick per second every 6 points, capped at 30. */
module Difficulty {

  const MaxTickRate: int := 30
  /** Points per extra tick per second. */
  const PointsPerStep: nat := 6

  /** `Math.min(30, base + Math.floor(score / 6))` for the speed setting `base`. */
  function TickRate(base: int, score: nat): (r: int)
    ensures r <= MaxTickRate
    ensures r >= (if base < MaxTickRate then base else MaxTickRate)
  {
    var scaled := base + score / PointsPerStep;
    if scaled < MaxTickRate then scaled else MaxTickRate
  }

  /** A higher score never slows the game down. */
  lemma TickRateMonotone(base: int, s1: nat, s2: nat)
    requires s1 <= s2
    ensures TickRate(base, s1) <= TickRate(base, s2)
  {
    assert s1 / PointsPerStep <= s2 / PointsPerStep;
  }

  /** Six more points add exactly one tick per second until the cap is reached. */
  lemma TickRateStep(base: int, score: nat)
    ensures TickRate(base, score + PointsPerStep) ==
            (if TickRate(base, score) < MaxTickRate then TickRate(base, score) + 1 else MaxTickRate)
  {
    assert (score + PointsPerStep) / PointsPerStep == score / PointsPerStep + 1;
  }

  /** From 6 * (30 - base) points on, the rate sits at the cap. */
  lemma TickRateReachesCap(base: int, score: nat)
    requires base <= MaxTickRate && score >= PointsPerStep * (MaxTickRate - base)
    ensures TickRate(base, score) == MaxTickRate
  {
    assert score / PointsPerStep >= MaxTickRate - base;
  }

}
