/**
 * From the simulated totals of one game to a betting edge: the fraction of
 * totals above the market line, its complement, the edge of each side over
 * the market's implied probability, and the side with the larger edge.
 */
module EdgeEvaluator {

  import opened Arith
  import opened Odds

  datatype Side = Over | Under

  /** The side chosen for a game and that side's edge. */
  datatype Pick = Pick(side: Side, edge: real)

  /** Everything the evaluation of one game derives from its simulated totals. */
  datatype SimResult = SimResult(
    projTotal: real,
    overProb: real,
    underProb: real,
    edgeOver: real,
    edgeUnder: real,
    side: Side,
    edge: real)

  /** Number of simulated totals strictly above the line. */
  function CountAbove(totals: seq<int>, line: real): (n: nat)
    ensures n <= |totals|
    ensures n == |totals| <==> forall i :: 0 <= i < |totals| ==> totals[i] as real > line
    ensures n == 0 <==> forall i :: 0 <= i < |totals| ==> totals[i] as real <= line
  {
    if totals == [] then 0
    else
      var init, last := totals[..|totals| - 1], totals[|totals| - 1];
      assert forall i :: 0 <= i < |init| ==> init[i] == totals[i];
      CountAbove(init, line) + (if last as real > line then 1 else 0)
  }

  /** Raising the line never puts more totals above it. */
  lemma {:induction false} CountAboveAntitone(totals: seq<int>, lower: real, higher: real)
    requires lower <= higher
    ensures CountAbove(totals, higher) <= CountAbove(totals, lower)
    decreases |totals|
  {
    if totals != [] {
      CountAboveAntitone(totals[..|totals| - 1], lower, higher);
    }
  }

  function Sum(totals: seq<int>): int {
    if totals == [] then 0 else Sum(totals[..|totals| - 1]) + totals[|totals| - 1]
  }

  lemma {:induction false} SumBounds(totals: seq<int>, lo: int, hi: int)
    requires forall i :: 0 <= i < |totals| ==> lo <= totals[i] <= hi
    ensures lo as real * |totals| as real <= Sum(totals) as real <= hi as real * |totals| as real
    decreases |totals|
  {
    if totals != [] {
      var init := totals[..|totals| - 1];
      assert forall i :: 0 <= i < |init| ==> init[i] == totals[i];
      SumBounds(init, lo, hi);
      var m := |init| as real;
      assert |totals| as real == m + 1.0;
      assert lo as real * (m + 1.0) == lo as real * m + lo as real;
      assert hi as real * (m + 1.0) == hi as real * m + hi as real;
      assert Sum(totals) as real == Sum(init) as real + totals[|totals| - 1] as real;
    } else {
      assert lo as real * 0.0 == 0.0 == hi as real * 0.0;
    }
  }

  /** Fraction of simulated totals strictly above the market line. */
  function OverProb(totals: seq<int>, line: real): (p: real)
    requires |totals| > 0
    ensures 0.0 <= p <= 1.0
    ensures p == 1.0 <==> forall i :: 0 <= i < |totals| ==> totals[i] as real > line
    ensures p == 0.0 <==> forall i :: 0 <= i < |totals| ==> totals[i] as real <= line
  {
    var n, count := |totals| as real, CountAbove(totals, line) as real;
    Fraction(count, n);
    count / n
  }

  /** Raising the line never raises the probability of going over it. */
  lemma OverProbAntitone(totals: seq<int>, lower: real, higher: real)
    requires |totals| > 0
    requires lower <= higher
    ensures OverProb(totals, higher) <= OverProb(totals, lower)
  {
    CountAboveAntitone(totals, lower, higher);
    DivMonotone(CountAbove(totals, higher) as real, CountAbove(totals, lower) as real, |totals| as real);
  }

  /** The sample mean, the point projection of the total. */
  function Mean(totals: seq<int>): (mean: real)
    requires |totals| > 0
    ensures mean * |totals| as real == Sum(totals) as real
  {
    Sum(totals) as real / |totals| as real
  }

  /** The sample mean lies within any bounds that hold for every sample. */
  lemma MeanBetween(totals: seq<int>, lo: int, hi: int)
    requires |totals| > 0
    requires forall i :: 0 <= i < |totals| ==> lo <= totals[i] <= hi
    ensures lo as real <= Mean(totals) <= hi as real
  {
    SumBounds(totals, lo, hi);
    DivBetween(lo as real, hi as real, Sum(totals) as real, |totals| as real);
  }

  /** The larger edge wins; on a tie the pick is Over. */
  function SelectSide(edgeOver: real, edgeUnder: real): (pick: Pick)
    ensures pick.side == Over <==> edgeOver >= edgeUnder
    ensures pick.edge == (if pick.side == Over then edgeOver else edgeUnder)
    ensures pick.edge >= edgeOver && pick.edge >= edgeUnder
  {
    if edgeOver >= edgeUnder then Pick(Over, edgeOver) else Pick(Under, edgeUnder)
  }

  /**
   * Evaluates one game against its market: `totals` are the simulated
   * combined scores, `line` the market total, `oddsOver`/`oddsUnder` the
   * two prices.
   */
  function Evaluate(totals: seq<int>, line: real, oddsOver: int, oddsUnder: int): (r: SimResult)
    requires |totals| > 0
    ensures r.projTotal == Mean(totals)
    ensures r.overProb == CountAbove(totals, line) as real / |totals| as real
    ensures r.underProb == (|totals| - CountAbove(totals, line)) as real / |totals| as real
    ensures 0.0 <= r.overProb <= 1.0 && 0.0 <= r.underProb <= 1.0
    ensures r.overProb + r.underProb == 1.0
    ensures r.edgeOver == r.overProb - ImpliedProb(oddsOver)
    ensures r.edgeUnder == r.underProb - ImpliedProb(oddsUnder)
    ensures r.side == Over <==> r.edgeOver >= r.edgeUnder
    ensures r.edge == (if r.side == Over then r.edgeOver else r.edgeUnder)
    ensures r.edge >= r.edgeOver && r.edge >= r.edgeUnder
    ensures -0.5 <= r.edge < 1.0
  {
    var overP := OverProb(totals, line);
    var underP := 1.0 - overP;
    var n, count := |totals| as real, CountAbove(totals, line) as real;
    DivComplement(count, n);
    var edgeOver := overP - ImpliedProb(oddsOver);
    var edgeUnder := underP - ImpliedProb(oddsUnder);
    var pick := SelectSide(edgeOver, edgeUnder);
    SimResult(Mean(totals), overP, underP, edgeOver, edgeUnder, pick.side, pick.edge)
  }

  /**
   * A negative edge is a valid outcome: half the totals over a line priced
   * -110 both ways leaves both sides at -1/42, and the tie goes to Over.
   */
  lemma NegativeEdgeExample()
    ensures var r := Evaluate([40, 50], 45.5, -110, -110);
            r.edge == -1.0 / 42.0 && r.edgeOver == r.edgeUnder && r.side == Over
  {
    assert CountAbove([40], 45.5) == 0;
    assert CountAbove([40, 50], 45.5) == 1 by {
      assert [40, 50][..1] == [40];
    }
    ImpliedProbExamples();
  }
}
