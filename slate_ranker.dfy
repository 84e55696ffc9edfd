/**
 * The slate scan: one result row per game, the rows sorted by edge
 * (descending, stable), ranks 1..n written into the rows, and the first three
 * ranked rows taken as the payload's items.
 */
module SlateRanker {

  import opened Wrappers
  import opened StableSort
  import opened ScoringRate
  import opened EdgeEvaluator

  /** Number of ranked rows the payload carries. */
  const TopCount: nat := 3

  /** One scheduled game with its per-team inputs and its market. */
  datatype Game = Game(
    gameId: string,
    startEt: string,
    venue: string,
    away: string,
    home: string,
    paceAway: real,
    paceHome: real,
    epaAway: real,
    epaHome: real,
    redzoneTdAway: real,
    redzoneTdHome: real,
    weatherMult: real,
    marketTotal: real,
    marketOddsOver: int,
    marketOddsUnder: int)

  /** Both paces are non-zero, so that plays per game can be computed. */
  predicate HasPaces(g: Game) {
    g.paceAway != 0.0 && g.paceHome != 0.0
  }

  /** The evaluation of a game against its own market, given its simulated totals. */
  function EvaluateGame(g: Game, totals: seq<int>): SimResult
    requires |totals| > 0
  {
    Evaluate(totals, g.marketTotal, g.marketOddsOver, g.marketOddsUnder)
  }

  /** Expected points of the away and the home team: the means the sampler draws around. */
  function TeamMeans(g: Game): (means: (real, real))
    requires HasPaces(g)
    ensures means.0 == TeamMeanPoints(g.paceAway, g.epaAway, g.redzoneTdAway, g.weatherMult)
    ensures means.1 == TeamMeanPoints(g.paceHome, g.epaHome, g.redzoneTdHome, g.weatherMult)
    ensures 0.0 <= g.redzoneTdAway <= 1.0 && 0.0 <= g.weatherMult ==> means.0 >= 0.0
    ensures 0.0 <= g.redzoneTdHome <= 1.0 && 0.0 <= g.weatherMult ==> means.1 >= 0.0
  {
    var away := TeamMeanPoints(g.paceAway, g.epaAway, g.redzoneTdAway, g.weatherMult);
    var home := TeamMeanPoints(g.paceHome, g.epaHome, g.redzoneTdHome, g.weatherMult);
    assert 0.0 <= g.redzoneTdAway <= 1.0 && 0.0 <= g.weatherMult ==> away >= 0.0 by {
      if 0.0 <= g.redzoneTdAway <= 1.0 && 0.0 <= g.weatherMult {
        TeamMeanBounds(g.paceAway, g.epaAway, g.redzoneTdAway, g.weatherMult);
      }
    }
    assert 0.0 <= g.redzoneTdHome <= 1.0 && 0.0 <= g.weatherMult ==> home >= 0.0 by {
      if 0.0 <= g.redzoneTdHome <= 1.0 && 0.0 <= g.weatherMult {
        TeamMeanBounds(g.paceHome, g.epaHome, g.redzoneTdHome, g.weatherMult);
      }
    }
    (TeamMeanPoints(g.paceAway, g.epaAway, g.redzoneTdAway, g.weatherMult),
     TeamMeanPoints(g.paceHome, g.epaHome, g.redzoneTdHome, g.weatherMult))
  }

  /**
   * One output row. Every field is fixed when the row is made except the
   * rank, which the ranking loop writes in place afterwards.
   */
  class Row {
    const gameId: string
    const startEt: string
    const venue: string
    const away: string
    const home: string
    const projTotal: real
    const marketTotal: real
    const overProb: real
    const underProb: real
    const edgePct: real
    const suggestedSide: Side
    var rank: Option<nat>

    /** The row reports game `g` evaluated as `r`, with figures rounded by `round`. */
    predicate Reports(g: Game, r: SimResult, round: (real, int) -> real) {
      && gameId == g.gameId && startEt == g.startEt && venue == g.venue
      && away == g.away && home == g.home
      && projTotal == round(r.projTotal, 1) && marketTotal == g.marketTotal
      && overProb == round(r.overProb, 4) && underProb == round(r.underProb, 4)
      && edgePct == round(r.edge, 4) && suggestedSide == r.side
    }

    constructor (g: Game, r: SimResult, round: (real, int) -> real)
      ensures Reports(g, r, round)
      ensures rank == None
    {
      gameId, startEt, venue, away, home := g.gameId, g.startEt, g.venue, g.away, g.home;
      projTotal, marketTotal := round(r.projTotal, 1), g.marketTotal;
      overProb, underProb := round(r.overProb, 4), round(r.underProb, 4);
      edgePct, suggestedSide := round(r.edge, 4), r.side;
      rank := None;
    }
  }

  /** The sort key of a row: its (rounded) edge. */
  function EdgeKey(row: Row): real {
    row.edgePct
  }

  function RealLe(a: real, b: real): bool {
    a <= b
  }

  lemma RealLeTotalOrder()
    ensures TotalOrder(RealLe)
  {
  }

  /**
   * Evaluates every game of the slate in order: `sims[i]` are the totals
   * simulated for `slate[i]`. Also returns the team means each game's
   * simulation was drawn around.
   */
  method ScanSlate(slate: seq<Game>, sims: seq<seq<int>>, round: (real, int) -> real)
    returns (means: seq<(real, real)>, rows: seq<Row>)
    requires |sims| == |slate|
    requires forall i :: 0 <= i < |slate| ==> HasPaces(slate[i]) && |sims[i]| > 0
    ensures |means| == |rows| == |slate|
    ensures forall i :: 0 <= i < |slate| ==> means[i] == TeamMeans(slate[i])
    ensures forall i :: 0 <= i < |slate| ==>
              fresh(rows[i]) && rows[i].rank == None
              && rows[i].Reports(slate[i], EvaluateGame(slate[i], sims[i]), round)
    ensures Distinct(rows)
  {
    means, rows := [], [];
    var i := 0;
    while i < |slate|
      invariant 0 <= i <= |slate|
      invariant |means| == |rows| == i
      invariant forall m :: 0 <= m < i ==> means[m] == TeamMeans(slate[m])
      invariant forall m :: 0 <= m < i ==>
                  fresh(rows[m]) && rows[m].rank == None
                  && rows[m].Reports(slate[m], EvaluateGame(slate[m], sims[m]), round)
      invariant Distinct(rows)
    {
      var g := slate[i];
      var row := new Row(g, EvaluateGame(g, sims[i]), round);
      means := means + [TeamMeans(g)];
      rows := rows + [row];
      i := i + 1;
    }
  }

  /** Writes rank i + 1 into the row at position i. */
  method AssignRanks(rows: array<Row>)
    requires Distinct(rows[..])
    modifies set i | 0 <= i < rows.Length :: rows[i]
    ensures rows[..] == old(rows[..])
    ensures forall i :: 0 <= i < rows.Length ==> rows[i].rank == Some(i + 1)
  {
    var i := 0;
    while i < rows.Length
      invariant 0 <= i <= rows.Length
      invariant forall m :: 0 <= m < i ==> rows[m].rank == Some(m + 1)
    {
      rows[i].rank := Some(i + 1);
      i := i + 1;
    }
  }

  /** The payload's items: the first TopCount rows, or all of them if there are fewer. */
  function TopItems(ranked: seq<Row>): (items: seq<Row>)
    ensures |items| == if |ranked| < TopCount then |ranked| else TopCount
    ensures forall i :: 0 <= i < |items| ==> items[i] == ranked[i]
  {
    if |ranked| < TopCount then ranked else ranked[..TopCount]
  }

  /** What sorting by edge promises: descending, a permutation, slate order kept within each edge. */
  lemma SortedByEdge(rows: seq<Row>)
    ensures SortedDesc(Sort(rows, EdgeKey, RealLe), EdgeKey, RealLe)
    ensures multiset(Sort(rows, EdgeKey, RealLe)) == multiset(rows)
    ensures forall k :: WithKey(Sort(rows, EdgeKey, RealLe), EdgeKey, k) == WithKey(rows, EdgeKey, k)
  {
    RealLeTotalOrder();
    SortSorted(rows, EdgeKey, RealLe);
    forall k
      ensures WithKey(Sort(rows, EdgeKey, RealLe), EdgeKey, k) == WithKey(rows, EdgeKey, k)
    {
      SortStable(rows, EdgeKey, RealLe, k);
    }
  }

  /** Sorting distinct rows gives distinct rows, all drawn from the input. */
  lemma SortedRowsDistinct(rows: seq<Row>)
    requires Distinct(rows)
    ensures Distinct(Sort(rows, EdgeKey, RealLe))
    ensures forall o :: o in Sort(rows, EdgeKey, RealLe) ==> o in rows
  {
    var sorted := Sort(rows, EdgeKey, RealLe);
    DistinctPermutation(rows, sorted);
    forall o | o in sorted
      ensures o in rows
    {
      assert o in multiset(sorted);
    }
  }

  /**
   * Sorts the rows by edge, highest first, keeping slate order among equal
   * edges, and numbers them 1..n in that order.
   */
  method RankRows(rows: seq<Row>) returns (ranked: array<Row>)
    requires Distinct(rows)
    modifies set r | r in rows
    ensures fresh(ranked)
    ensures ranked[..] == Sort(rows, EdgeKey, RealLe)
    ensures SortedDesc(ranked[..], EdgeKey, RealLe)
    ensures multiset(ranked[..]) == multiset(rows)
    ensures forall k :: WithKey(ranked[..], EdgeKey, k) == WithKey(rows, EdgeKey, k)
    ensures forall i :: 0 <= i < ranked.Length ==> ranked[i].rank == Some(i + 1)
  {
    ranked := new Row[|rows|](i requires 0 <= i < |rows| => rows[i]);
    assert ranked[..] == rows;
    SortInPlace(ranked, EdgeKey, RealLe);
    ghost var sorted := ranked[..];
    SortedByEdge(rows);
    SortedRowsDistinct(rows);
    AssignRanks(ranked);
    assert ranked[..] == sorted;
  }

  /**
   * The whole scan of a slate: evaluate every game, rank the rows, take the
   * payload's items.
   */
  method Scan(slate: seq<Game>, sims: seq<seq<int>>, round: (real, int) -> real)
    returns (means: seq<(real, real)>, rows: seq<Row>, ranked: array<Row>, items: seq<Row>)
    requires |sims| == |slate|
    requires forall i :: 0 <= i < |slate| ==> HasPaces(slate[i]) && |sims[i]| > 0
    ensures |means| == |rows| == |slate|
    ensures forall i :: 0 <= i < |slate| ==> means[i] == TeamMeans(slate[i])
    ensures forall i :: 0 <= i < |slate| ==>
              rows[i].Reports(slate[i], EvaluateGame(slate[i], sims[i]), round)
    ensures ranked[..] == Sort(rows, EdgeKey, RealLe)
    ensures SortedDesc(ranked[..], EdgeKey, RealLe)
    ensures multiset(ranked[..]) == multiset(rows)
    ensures forall k :: WithKey(ranked[..], EdgeKey, k) == WithKey(rows, EdgeKey, k)
    ensures forall i :: 0 <= i < ranked.Length ==> ranked[i].rank == Some(i + 1)
    ensures items == TopItems(ranked[..])
    ensures forall i :: 0 <= i < |items| ==> items[i].rank == Some(i + 1)
  {
    means, rows := ScanSlate(slate, sims, round);
    ranked := RankRows(rows);
    items := TopItems(ranked[..]);
  }
}
