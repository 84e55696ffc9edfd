/** Conversion of American odds prices into implied probabilities. */
module Odds {

  import opened Arith

  /** American odds follow the convention that a price has magnitude at least 100. */
  predicate ValidOdds(odds: int) {
    odds <= -100 || 100 <= odds
  }

  /**
   * Break-even probability of an American odds price: a favourite (negative
   * price) risks |odds| to win 100, an underdog (positive price, and also 0)
   * risks 100 to win `odds`. The denominator is never zero.
   */
  function ImpliedProb(odds: int): (p: real)
    ensures 0.0 < p <= 1.0
    ensures p == 1.0 <==> odds == 0
    ensures odds < 0 ==> p * (100.0 - odds as real) == -odds as real
    ensures odds >= 0 ==> p * (odds as real + 100.0) == 100.0
  {
    if odds < 0 then (-odds) as real / ((-odds) as real + 100.0)
    else 100.0 / (odds as real + 100.0)
  }

  /** Every valid price, indeed every non-zero one, gives a probability strictly inside (0, 1). */
  lemma ImpliedProbStrictlyBetween(odds: int)
    requires odds != 0
    ensures 0.0 < ImpliedProb(odds) < 1.0
  {
  }

  /** Even money, either sign, is a coin flip; the standard -110/+110 prices are 11/21 and 10/21. */
  lemma ImpliedProbExamples()
    ensures ImpliedProb(-100) == ImpliedProb(100) == 0.5
    ensures ImpliedProb(-110) == 11.0 / 21.0
    ensures ImpliedProb(110) == 10.0 / 21.0
  {
  }

  /** Opposite prices of the same magnitude imply complementary probabilities. */
  lemma OppositePricesComplement(magnitude: int)
    requires magnitude > 0
    ensures ImpliedProb(-magnitude) + ImpliedProb(magnitude) == 1.0
  {
    var m := magnitude as real;
    assert ImpliedProb(-magnitude) == m / (m + 100.0);
    assert ImpliedProb(magnitude) == 100.0 / (m + 100.0);
  }

  /** A favourite's price implies at least one half, an underdog's at most one half. */
  lemma ImpliedProbSide(odds: int)
    requires ValidOdds(odds)
    ensures odds < 0 ==> ImpliedProb(odds) >= 0.5
    ensures odds > 0 ==> ImpliedProb(odds) <= 0.5
  {
  }

  /** Over valid prices, a higher price never implies a higher probability. */
  lemma ImpliedProbAntitone(lower: int, higher: int)
    requires ValidOdds(lower) && ValidOdds(higher)
    requires lower <= higher
    ensures ImpliedProb(higher) <= ImpliedProb(lower)
  {
    if higher < 0 {
      // m / (m + 100) grows with m = -odds
      var a, b := (-higher) as real, (-lower) as real;
      assert a <= b;
      assert a / (a + 100.0) <= b / (b + 100.0) by {
        assert a / (a + 100.0) == 1.0 - 100.0 / (a + 100.0);
        assert b / (b + 100.0) == 1.0 - 100.0 / (b + 100.0);
        DivAntitone(100.0, a + 100.0, b + 100.0);
      }
    } else if lower > 0 {
      DivAntitone(100.0, lower as real + 100.0, higher as real + 100.0);
    } else {
      ImpliedProbSide(lower);
      ImpliedProbSide(higher);
    }
  }
}
