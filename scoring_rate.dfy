/**
 * The deterministic scoring-rate model of one team in one game: expected
 * offensive plays from pace, points per play from efficiency and red-zone
 * touchdown rate, and the expected points that feed the sampler.
 */
module ScoringRate {

  import opened Arith

  const MinPlays: int := 45
  const MaxPlays: int := 80
  /** Default possession time in seconds. */
  const PossessionSeconds: real := 1800.0
  /** Lower bound on the Gamma shape parameter. */
  const MinShape: real := 0.000001

  function Max(a: real, b: real): real {
    if a >= b then a else b
  }

  /** Conversion of a float to an integer, truncating toward zero. */
  function Trunc(x: real): (n: int)
    ensures x >= 0.0 ==> n as real <= x < n as real + 1.0
    ensures x < 0.0 ==> n as real - 1.0 < x <= n as real
  {
    if x >= 0.0 then x.Floor else -((-x).Floor)
  }

  /**
   * Expected offensive plays: possession time over seconds per play,
   * truncated, then clamped to [MinPlays, MaxPlays].
   */
  function PlaysFromPace(secondsPerPlay: real, possessionTime: real := PossessionSeconds): (plays: int)
    requires secondsPerPlay != 0.0
    ensures MinPlays <= plays <= MaxPlays
    ensures MinPlays < plays < MaxPlays ==>
              plays as real <= possessionTime / secondsPerPlay < plays as real + 1.0
    ensures possessionTime / secondsPerPlay >= MaxPlays as real ==> plays == MaxPlays
    ensures possessionTime / secondsPerPlay < (MinPlays + 1) as real ==> plays == MinPlays
    ensures (MinPlays + 1) as real <= possessionTime / secondsPerPlay < MaxPlays as real ==>
              plays == (possessionTime / secondsPerPlay).Floor
  {
    var n := Trunc(possessionTime / secondsPerPlay);
    if n < MinPlays then MinPlays else if n > MaxPlays then MaxPlays else n
  }

  /** A slower pace (more seconds per play) never yields more plays. */
  lemma PlaysNonIncreasing(fast: real, slow: real, possessionTime: real)
    requires 0.0 < fast <= slow
    requires possessionTime >= 0.0
    ensures PlaysFromPace(fast, possessionTime) >= PlaysFromPace(slow, possessionTime)
  {
    var qf, qs := possessionTime / fast, possessionTime / slow;
    DivAntitone(possessionTime, fast, slow);
    assert Trunc(qs) <= Trunc(qf) by {
      assert Trunc(qs) as real <= qs <= qf < Trunc(qf) as real + 1.0;
    }
  }

  /** Points per 100 plays before the red-zone factor: only positive efficiency counts. */
  function BaseRate(epa: real): (base: real)
    ensures base >= 0.40
    ensures epa <= 0.0 ==> base == 0.40
    ensures epa >= 0.0 ==> base == 0.40 + 3.0 * epa
  {
    0.40 + 3.0 * Max(0.0, epa)
  }

  /** Red-zone factor: 0.9 at a touchdown rate of 0, 1.1 at a rate of 1. */
  function RedZoneFactor(rzTdRate: real): real {
    0.9 + 0.2 * rzTdRate
  }

  /** Points per 100 plays, scaled by the red-zone touchdown rate. */
  function PtsPerPlay(epa: real, rzTdRate: real): (ppp: real)
    ensures epa <= 0.0 ==> ppp == 0.40 * (0.9 + 0.2 * rzTdRate)
  {
    BaseRate(epa) * RedZoneFactor(rzTdRate)
  }

  /** For a red-zone rate in [0, 1] the red-zone factor moves the base rate by at most 10%. */
  lemma PtsPerPlayWithinTenPercent(epa: real, rzTdRate: real)
    requires 0.0 <= rzTdRate <= 1.0
    ensures 0.9 * BaseRate(epa) <= PtsPerPlay(epa, rzTdRate) <= 1.1 * BaseRate(epa)
    ensures PtsPerPlay(epa, rzTdRate) > 0.0
  {
    ScaleWithin(BaseRate(epa), RedZoneFactor(rzTdRate), 0.9, 1.1, PtsPerPlay(epa, rzTdRate));
  }

  /** Better efficiency never lowers points per play. */
  lemma PtsPerPlayMonotone(epa1: real, epa2: real, rzTdRate: real)
    requires epa1 <= epa2
    requires 0.0 <= rzTdRate
    ensures PtsPerPlay(epa1, rzTdRate) <= PtsPerPlay(epa2, rzTdRate)
  {
    assert BaseRate(epa1) <= BaseRate(epa2);
    MulLe(BaseRate(epa1), BaseRate(epa2), RedZoneFactor(rzTdRate));
  }

  /**
   * Expected points of one team: plays times points per play times the
   * game's weather multiplier, per 100 plays.
   */
  function TeamMeanPoints(secondsPerPlay: real, epa: real, rzTdRate: real, weatherMult: real): (mean: real)
    requires secondsPerPlay != 0.0
    ensures 0.0 <= rzTdRate && 0.0 <= weatherMult ==> mean >= 0.0
  {
    var plays := PlaysFromPace(secondsPerPlay) as real;
    var ppp := PtsPerPlay(epa, rzTdRate) * weatherMult;
    assert 0.0 <= rzTdRate && 0.0 <= weatherMult ==> Scaled(plays, ppp) >= 0.0 by {
      if 0.0 <= rzTdRate && 0.0 <= weatherMult {
        MulLe(0.0, BaseRate(epa), RedZoneFactor(rzTdRate));
        MulLe(0.0, PtsPerPlay(epa, rzTdRate), weatherMult);
        MulLe(0.0, plays, ppp);
        DivMonotone(0.0, plays * ppp, 100.0);
      }
    }
    Scaled(plays, ppp)
  }

  /** Points scored by the given plays at the given points per 100 plays. */
  function Scaled(plays: real, ppp: real): real {
    plays * ppp / 100.0
  }

  /** Expected points lie between those of the fewest and of the most plays, and are not negative. */
  lemma TeamMeanBounds(secondsPerPlay: real, epa: real, rzTdRate: real, weatherMult: real)
    requires secondsPerPlay != 0.0
    requires 0.0 <= rzTdRate <= 1.0 && 0.0 <= weatherMult
    ensures var ppp := PtsPerPlay(epa, rzTdRate) * weatherMult;
            0.0 <= MinPlays as real * ppp / 100.0
                <= TeamMeanPoints(secondsPerPlay, epa, rzTdRate, weatherMult)
                <= MaxPlays as real * ppp / 100.0
  {
    var plays := PlaysFromPace(secondsPerPlay) as real;
    var ppp := PtsPerPlay(epa, rzTdRate) * weatherMult;
    PtsPerPlayWithinTenPercent(epa, rzTdRate);
    MulLe(0.0, PtsPerPlay(epa, rzTdRate), weatherMult);
    MulLe(0.0, MinPlays as real, ppp);
    MulLe(MinPlays as real, plays, ppp);
    MulLe(plays, MaxPlays as real, ppp);
    DivMonotone(plays * ppp, MaxPlays as real * ppp, 100.0);
    DivMonotone(MinPlays as real * ppp, plays * ppp, 100.0);
    DivMonotone(0.0, MinPlays as real * ppp, 100.0);
  }

  /** Raising a team's efficiency, all else fixed, never lowers its expected points. */
  lemma TeamMeanMonotoneInEpa(secondsPerPlay: real, epa1: real, epa2: real, rzTdRate: real, weatherMult: real)
    requires secondsPerPlay != 0.0
    requires epa1 <= epa2
    requires 0.0 <= rzTdRate && 0.0 <= weatherMult
    ensures TeamMeanPoints(secondsPerPlay, epa1, rzTdRate, weatherMult)
         <= TeamMeanPoints(secondsPerPlay, epa2, rzTdRate, weatherMult)
  {
    PtsPerPlayMonotone(epa1, epa2, rzTdRate);
    var plays := PlaysFromPace(secondsPerPlay) as real;
    var p1, p2 := PtsPerPlay(epa1, rzTdRate) * weatherMult, PtsPerPlay(epa2, rzTdRate) * weatherMult;
    MulLe(PtsPerPlay(epa1, rzTdRate), PtsPerPlay(epa2, rzTdRate), weatherMult);
    MulLe(p1, p2, plays);
    assert plays * p1 <= plays * p2;
  }

  /** A slower pace, all else fixed, never raises a team's expected points. */
  lemma TeamMeanNonIncreasingInPace(fast: real, slow: real, epa: real, rzTdRate: real, weatherMult: real)
    requires 0.0 < fast <= slow
    requires 0.0 <= rzTdRate && 0.0 <= weatherMult
    ensures TeamMeanPoints(fast, epa, rzTdRate, weatherMult)
         >= TeamMeanPoints(slow, epa, rzTdRate, weatherMult)
  {
    var ppp := PtsPerPlay(epa, rzTdRate) * weatherMult;
    assert 0.0 <= ppp by {
      MulLe(0.0, BaseRate(epa), RedZoneFactor(rzTdRate));
      MulLe(0.0, PtsPerPlay(epa, rzTdRate), weatherMult);
    }
    var playsFast, playsSlow := PlaysFromPace(fast) as real, PlaysFromPace(slow) as real;
    assert playsSlow <= playsFast by {
      PlaysNonIncreasing(fast, slow, PossessionSeconds);
    }
    ScaledPointsMonotone(playsSlow, playsFast, ppp);
  }

  /** More plays at the same non-negative rate give at least as many points. */
  lemma ScaledPointsMonotone(fewer: real, more: real, ppp: real)
    requires fewer <= more && 0.0 <= ppp
    ensures Scaled(fewer, ppp) <= Scaled(more, ppp)
  {
    MulLe(fewer, more, ppp);
    DivMonotone(fewer * ppp, more * ppp, 100.0);
  }

  /**
   * Shape parameter of the Gamma draw for a team with the given expected
   * points: expected points over dispersion, kept strictly positive.
   */
  function GammaShape(meanPoints: real, dispersion: real): (shape: real)
    requires dispersion != 0.0
    ensures shape >= MinShape > 0.0
    ensures shape >= meanPoints / dispersion
    ensures shape == meanPoints / dispersion || shape == MinShape
  {
    Max(meanPoints / dispersion, MinShape)
  }
}
