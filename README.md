# NFL totals scan: a verified Dafny model

This project models the deterministic core of `scripts/gambler_scan_nfl.py`. That script:

- turns per-team pace, efficiency (EPA) and red-zone touchdown rate into expected points;
- simulates combined game totals;
- compares the fraction of totals over the market line with the probability implied by the American odds prices;
- picks the side with the larger edge, ranks the games of the slate by edge, and publishes the top three;
- records the run in a manifest of past runs, keyed by run key.

The model covers every step of that pipeline except the random sampling itself. The simulated totals of each game are an input.

Modules, one per part of the program:

- `ScoringRate` (`scoring_rate.dfy`): `plays_from_pace`, `pts_per_play`, the per-team mean points and the Gamma shape guard. This is arithmetic over `real`, with Python's `int()` truncation written out.
- `Odds` (`odds.dfy`): `implied_prob`.
- `EdgeEvaluator` (`edge_evaluator.dfy`): the over/under probabilities, the two edges and the side selection for one game.
- `StableSort` (`stable_sort.dfy`): Python's stable `list.sort(key=..., reverse=True)`. It is specified as an insertion from the back, with an in-place array method proved equal to that specification. Lemmas state that the result is sorted, is a permutation and keeps the order within each key, and that these three facts determine it.
- `SlateRanker` (`slate_ranker.dfy`): the loop that appends one row per game, the sort of the rows by `edge_pct`, the loop that writes ranks 1..n into the rows, and `rows[:3]`. A row is a class, because the rank is written into it in place after the sort.
- `RunManifest` (`run_manifest.dfy`): the manifest upsert. It drops the entries with the run's key, appends the new entry, sorts stably by `generated_at` descending (Python string order, missing timestamps as `""`) and points `latest` at the new entry. The manifest is a class whose `Upsert` method changes its three fields.
- `Arith` (`arith.dfy`) and `Wrappers` (`wrappers.dfy`): helper lemmas about ordered multiplication and division of reals, and `Option`.

Two behaviours of the code are worth stating outright:

- **Odds of 0.** Odds of 0 lie outside the American-odds convention, where every price has magnitude at least 100. The code's `implied_prob(0)` is `100/(0+100) = 1.0`, and no price divides by zero. `Odds.ImpliedProb` is therefore total, and it equals 1 exactly at 0.
- **Which entry `latest` names.** The code always points `latest` at the entry just written. `RunManifest.UpsertNewestFirst` shows that this entry heads the list exactly when it is strictly newer than every entry kept. When the new entry's timestamp equals the newest kept one, it goes after the kept entries with that timestamp, so `latest` does not head the list.

## Model

| member | source | states |
|---|---|---|
| ScoringRate.Trunc | scripts/gambler_scan_nfl.py:28 | `int()` truncates toward zero: the result is within one of its argument, on the side of zero, for either sign |
| ScoringRate.PlaysFromPace | scripts/gambler_scan_nfl.py:27-28 | plays always lie in [45, 80]; for a quotient q of possession time over seconds per play with 46 ≤ q < 80, plays are the whole part of q, and plays strictly inside the range are always the whole part of q; q ≥ 80 gives 80 and q < 46 gives 45 |
| ScoringRate.PlaysNonIncreasing | scripts/gambler_scan_nfl.py:27-28 | for a positive pace, more seconds per play never gives more plays |
| ScoringRate.BaseRate | scripts/gambler_scan_nfl.py:31 | the base rate is at least 0.40; negative efficiency gives exactly 0.40 and positive efficiency gives 0.40 + 3·epa |
| ScoringRate.PtsPerPlay | scripts/gambler_scan_nfl.py:30-32 | with non-positive efficiency, points per play depend on the red-zone rate alone: 0.40·(0.9 + 0.2·rz) |
| ScoringRate.PtsPerPlayWithinTenPercent | scripts/gambler_scan_nfl.py:30-32 | for a red-zone rate in [0, 1], the red-zone factor keeps points per play within ±10% of the base rate, and points per play are positive |
| ScoringRate.PtsPerPlayMonotone | scripts/gambler_scan_nfl.py:30-32 | higher efficiency never lowers points per play |
| ScoringRate.TeamMeanPoints | scripts/gambler_scan_nfl.py:55-58 | a team's mean points, plays times points per play times the weather multiplier per 100 plays, are non-negative for a non-negative red-zone rate and multiplier |
| ScoringRate.TeamMeanBounds | scripts/gambler_scan_nfl.py:53-58 | a team's mean points lie between what 45 plays and what 80 plays at its rate give, and are non-negative |
| ScoringRate.TeamMeanMonotoneInEpa | scripts/gambler_scan_nfl.py:53-58 | raising a team's efficiency, all else fixed, never lowers its mean points |
| ScoringRate.TeamMeanNonIncreasingInPace | scripts/gambler_scan_nfl.py:53-58 | a slower pace, all else fixed, never raises a team's mean points |
| ScoringRate.GammaShape | scripts/gambler_scan_nfl.py:59-60 | the Gamma shape is mean over dispersion or the floor 1e-6, whichever is larger, so it is always strictly positive |
| Odds.ImpliedProb | scripts/gambler_scan_nfl.py:34-35 | the implied probability lies in (0, 1]; it is 1 exactly for odds 0; otherwise it solves p·(100 + abs(odds)) = abs(odds) for a negative price and p·(odds + 100) = 100 for a non-negative one |
| Odds.ImpliedProbStrictlyBetween | scripts/gambler_scan_nfl.py:34-35 | every non-zero price implies a probability strictly between 0 and 1 |
| Odds.ImpliedProbExamples | scripts/gambler_scan_nfl.py:34-35 | ±100 imply 1/2; −110 implies 11/21 and +110 implies 10/21 |
| Odds.OppositePricesComplement | scripts/gambler_scan_nfl.py:34-35 | −m and +m imply probabilities that sum to 1 |
| Odds.ImpliedProbSide | scripts/gambler_scan_nfl.py:34-35 | a valid favourite's price implies at least 1/2, and an underdog's at most 1/2 |
| Odds.ImpliedProbAntitone | scripts/gambler_scan_nfl.py:34-35 | over valid prices, a higher price never implies a higher probability |
| EdgeEvaluator.CountAbove | scripts/gambler_scan_nfl.py:64 | the number of totals strictly above the line is at most the sample size; it equals the size iff all are above and is 0 iff none is |
| EdgeEvaluator.CountAboveAntitone | scripts/gambler_scan_nfl.py:64 | raising the line never puts more totals above it |
| EdgeEvaluator.OverProb | scripts/gambler_scan_nfl.py:64 | the over probability lies in [0, 1]; it is 1 iff every total beats the line and 0 iff none does |
| EdgeEvaluator.OverProbAntitone | scripts/gambler_scan_nfl.py:64 | raising the line never raises the over probability |
| EdgeEvaluator.Mean | scripts/gambler_scan_nfl.py:77 | the projected total is the sample mean: times the sample size it gives the sum of the simulated totals |
| EdgeEvaluator.MeanBetween | scripts/gambler_scan_nfl.py:77 | the projected total, the sample mean, lies within any bounds that hold for every simulated total |
| EdgeEvaluator.SelectSide | scripts/gambler_scan_nfl.py:69-72 | the side is Over iff its edge is at least the Under edge (a tie goes to Over); the edge reported is the chosen side's; it is the larger of the two |
| EdgeEvaluator.Evaluate | scripts/gambler_scan_nfl.py:62-72 | over/under probabilities are count/N and (N − count)/N, lie in [0, 1] and sum to 1; each edge is its probability minus the implied probability of its price; the side and edge follow the Over-on-tie selection; the edge lies in [−1/2, 1) |
| EdgeEvaluator.NegativeEdgeExample | scripts/gambler_scan_nfl.py:64-72 | with half the totals over a line priced −110 both ways, both edges are −1/42 and the tie picks Over |
| SlateRanker.TeamMeans | scripts/gambler_scan_nfl.py:53-58 | each game's away and home means are the team mean points of that team's own inputs and the shared weather multiplier, and are non-negative for a red-zone rate in [0, 1] and a non-negative multiplier |
| SlateRanker.Row.constructor | scripts/gambler_scan_nfl.py:74-80 | a new row copies the game's identity and market total, holds the rounded projection, probabilities and edge and the chosen side, and has no rank yet |
| SlateRanker.ScanSlate | scripts/gambler_scan_nfl.py:51-80 | one new, unranked row per game, in slate order, each reporting that game's evaluation, plus the team means the sampler would be given for each game |
| SlateRanker.AssignRanks | scripts/gambler_scan_nfl.py:83-84 | the row at position i gets rank i + 1; the array order is unchanged |
| SlateRanker.SortedByEdge | scripts/gambler_scan_nfl.py:82 | the rows sorted by rounded edge are in non-increasing edge order, are a permutation of the rows, and keep slate order among equal edges |
| SlateRanker.RankRows | scripts/gambler_scan_nfl.py:82-84 | the ranked array is the stable descending sort of the rows by edge (sorted, a permutation, slate order kept on ties), and position i has rank i + 1 |
| SlateRanker.TopItems | scripts/gambler_scan_nfl.py:99 | the items are the first min(n, 3) ranked rows, in rank order |
| SlateRanker.Scan | scripts/gambler_scan_nfl.py:51-99 | the whole scan: one row per game reporting its evaluation; the ranked rows are the stable descending sort by edge with ranks 1..n; the items are the first three ranked rows, ranked 1, 2, 3 |
| StableSort.Sort | scripts/gambler_scan_nfl.py:82 | the sorted sequence has the input's length and elements, counted with multiplicity |
| StableSort.SortSorted | scripts/gambler_scan_nfl.py:82 | for a total preorder on keys, the result has non-increasing keys |
| StableSort.SortStable | scripts/gambler_scan_nfl.py:82 | elements with equal keys appear in the result in their input order |
| StableSort.SortUnique | scripts/gambler_scan_nfl.py:82 | for a total order on keys, any sequence with non-increasing keys and the input's per-key order is the sort's result |
| StableSort.SortInPlace | scripts/gambler_scan_nfl.py:82 | sorting an array in place leaves exactly the specified stable descending sort of its old contents |
| RunManifest.LexLe | scripts/gambler_scan_nfl.py:132 | Python's string comparison: a prefix comes no later than the longer string, a smaller first character comes first, and a string ordered before another never has a larger first character |
| RunManifest.LexLeTotalOrder | scripts/gambler_scan_nfl.py:132 | string comparison of timestamps is a total order: total, transitive and antisymmetric |
| RunManifest.GeneratedKey | scripts/gambler_scan_nfl.py:132 | the sort key is the entry's timestamp when it has one; an entry without one sorts as `""`, no later than any timestamp, so after every timestamped entry |
| RunManifest.NewEntry | scripts/gambler_scan_nfl.py:120-127 | the run's entry carries the run key, sport, season, week, the path `signals/top3_<key>.json` and the run's timestamp |
| RunManifest.Without | scripts/gambler_scan_nfl.py:130 | no entry with the run's key survives the filter |
| RunManifest.WithoutCount | scripts/gambler_scan_nfl.py:130 | the filter keeps every entry with another key, keyless ones included, as often as it occurred, and none with the run's key |
| RunManifest.UpsertEntries | scripts/gambler_scan_nfl.py:130-132 | the upserted list is a permutation of the kept entries plus the new one: one longer than what the key filter keeps, with the same elements counted with multiplicity |
| RunManifest.SortByTime | scripts/gambler_scan_nfl.py:132 | sorting a copy of the list in place gives exactly the stable newest-first sort by timestamp key |
| RunManifest.UpsertSingleEntryForKey | scripts/gambler_scan_nfl.py:129-132 | after an upsert, the new entry occurs exactly once and is the only entry with its key |
| RunManifest.UpsertKeepsOthers | scripts/gambler_scan_nfl.py:130-132 | after an upsert, every entry with another key is kept as often as before, and nothing besides those and the new entry appears |
| RunManifest.UpsertSortedByTime | scripts/gambler_scan_nfl.py:132 | after an upsert, entries are newest first by timestamp string, and entries with equal timestamps keep their previous order |
| RunManifest.UpsertNewestFirst | scripts/gambler_scan_nfl.py:131-134 | the new entry, which `latest` names, heads the entries iff it is strictly newer than every entry kept from other runs |
| RunManifest.UpsertKeepsKeysUnique | scripts/gambler_scan_nfl.py:129-132 | if no two entries shared a key before an upsert, none do after it: each run is listed at most once |
| RunManifest.KeyedAtMostOnce | scripts/gambler_scan_nfl.py:129-132 | in a list with unique keys, an entry with a key occurs at most once |
| RunManifest.UpsertSameKeyTwice | scripts/gambler_scan_nfl.py:129-132 | upserting two runs under one key in turn gives exactly what upserting only the second would |
| RunManifest.Manifest.constructor | scripts/gambler_scan_nfl.py:110-119 | a manifest starts from the loaded entries, latest pointer and update time (all empty for a missing or unreadable file) |
| RunManifest.Manifest.Upsert | scripts/gambler_scan_nfl.py:119-135 | the entries become the upsert of the run's entry (its key, sport, season, week, path `signals/top3_<key>.json` and timestamp); `latest` is that entry; `updated_at` is the run's timestamp; unique keys stay unique |

## Left out

- The configuration read from the environment (lines 9-22 and 48-49) is not modelled. Season, week, sport, run key, sample count and dispersion are parameters instead. The default run key format `{season}-w{week:02d}` is left out; the key is an input string.
- The clock (lines 14-15) is not modelled. The run's timestamp is an input string, and the same string serves as the entry's `generated_at` and the manifest's `updated_at`.
- The random sampling is not modelled: the seeded generator, the Gamma and Poisson draws (lines 25 and 59-62) and the distribution of the simulated totals. Each game's totals are an input; only the Gamma shape guard is modelled.
- Floating point is not modelled. Arithmetic is exact over `real`, so `under_p = 1.0 - over_p` sums to 1 exactly.
- Python's `round` is not modelled. It is a caller-supplied function `round(x, digits)`. The rows store rounded figures, and rows are sorted by the stored, rounded `edge_pct`, as in the code.
- An empty sample (N = 0) is not modelled; in the code it yields NaN. The model requires each game's totals to be non-empty.
- Zero divisors are excluded by preconditions. A pace of 0 raises `ZeroDivisionError` in the code, and `ScoringRate.PlaysFromPace` requires a non-zero pace. A dispersion of 0 also raises, and `ScoringRate.GammaShape` requires a non-zero one.
- The payload's metadata (`broadcast_key`, season, week, sport, `generated_at`, `source`, `origin`; lines 86-98) is not modelled; only its `items` field is.
- The file I/O is not modelled. This covers writing the dated payload, the manifest and `latest.json` (lines 104-107, 137-141), the `SKIP_LATEST` flag and the final message (lines 139-143).
- Manifest loading is reduced to the constructor's arguments. The JSON parsing and the fallback to an empty manifest on a missing or unreadable file (lines 110-117) are not modelled.
- Old manifest entries: fields the code only carries along (sport, season, week, path) have fixed types here, so old entries with other shapes are not represented. A `generated_at` that is present but not a string, which would make Python's comparison raise, is not represented. Keys other than `entries`, `latest` and `updated_at` in a loaded manifest are not represented.
- The code sorts its list of row dictionaries in place. The model sorts a fresh array filled from the sequence of `Row` objects; the rows themselves are shared, so ranks written through the array are seen through the sequence.
