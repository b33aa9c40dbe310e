# Fantasy-cycling dashboard: the sequential core of `script.js`

This project models the non-rendering logic of the dashboard page. The page
loads a season snapshot of riders and shows charts and tables:

- **Efficiency ranking.** The cyclists are sorted in place by cost per
  point. The string "Infinity" sorts after every number. The first 50 are
  kept.
- **Tally.** One loop sums cost and points and counts riders per role.
- **League chart.** The team names come from two hard-coded stage tables
  and the league, without duplicates. A lookup maps a team name to a table
  key: an exact key, else a case-insensitive partial match, else the name
  itself.
- **Dream team.** The display order is the best 2 all-rounders, 2
  climbers, 1 sprinter and 3 unclassed riders by points. The first rider not
  yet listed follows. The pie chart sums points per role.
- **MVP and MIP.** The MVP is the rider who added the most points on the
  latest date. The MIP is the rider with the largest relative gain, where a
  jump from zero outranks every percentage.
- **Trajectory selection.** The options are "top10", "all" or a single name.
- **`sortTable`.** A restart-at-first-inversion bubble sort on the rows of
  the rider table. It flips to descending when the rows are already
  ascending.

The modules follow that structure:

| module | file | content |
|---|---|---|
| `Strings` | strings.dfy | JavaScript `<` on strings, `toLowerCase`, `includes` |
| `Ordering` | ordering.dfy | sort keys with `Infinity`, the stable sort behind `Array.prototype.sort`, `slice(0, n)` |
| `Collections` | collections.dfy | `[...new Set(s)]`, objects used as ordered dictionaries that sum per key |
| `Riders` | riders.dfy | the snapshot's rider record |
| `Efficiency` | efficiency.dfy | the sort by cost per point, the top 50, the tally loop |
| `League` | league.dfy | `getUniqueTeamNames`, `findExactOrClosestMatch`, the two tables |
| `DreamTeam` | dreamteam.dfy | the dream-team display order and `roleData` |
| `Standouts` | standouts.dfy | `calculateMVPandMIP` |
| `Trajectory` | trajectory.dfy | the selection in `updateTrajectoryChart` |
| `TableSort` | tablesort.dfy | `sortTable` |

Code that updates state step by step is modelled as methods with loops. This
covers the tally loop, the `roleData` loop, the MVP/MIP loops and
`sortTable`'s loops. The tally, `roleData` and MVP/MIP methods are proved
against functions of their inputs, and lemmas state what those functions
mean. `sortTable` has no such function: its contract states directly that
the rows end in order and are a permutation of the input, and lemmas about
the order predicates (`TableSort.AdjacentInOrderIsInOrder`,
`TableSort.SwapInversions`) carry the proof. The in-place sorts work
on `array`s, as the script sorts the shared `cyclists` array and the table
rows in place. The filter/sort/slice chains and the name lookups are
functions.

Identity and order are modelled as follows:

- JavaScript objects used as dictionaries keep their key insertion order.
  They are modelled as a key sequence plus a value map (`Collections.Dict`).
- The dream-team riders are compared by object identity (`includes`). They
  are modelled as picks that carry their position in `dreamTeam.riders`.
- `Array.prototype.sort` is stable. It is modelled by a stable insertion
  sort, `Ordering.SortBy`, on a key whose order is that of the comparator.
  The comparator `b.points - a.points` becomes the key `-points`.

## Model

| member | source | states |
|---|---|---|
| Strings.LessIrreflexive | script.js:726 | no date string is later than itself |
| Strings.LessTransitive | script.js:726 | "later than" on date strings is transitive |
| Strings.LessTrichotomy | script.js:845-855 | two strings are equal or one sorts before the other, so string comparison is a total order |
| Strings.Lower | script.js:341-343 | `toLowerCase` keeps the length, leaves no upper-case letter, and changes a character only by turning an upper-case letter into its lower case |
| Strings.LowerIdempotent | script.js:341-343 | lower-casing an already lower-cased string changes nothing |
| Strings.LowerIgnoresCase | script.js:341-343 | strings that differ only in the case of their letters have the same lower case |
| Strings.Includes | script.js:341-343 | `includes` holds exactly when the needle occurs at some position of the haystack |
| Strings.IncludesNoLonger | script.js:341-343 | a string that includes another is at least as long |
| Strings.IncludesHead | script.js:341-343 | a string that includes a non-empty one contains its first character |
| Ordering.SortByPermutation | script.js:26-30 | the sort only rearranges: the result is a permutation of the input |
| Ordering.SortBySorted | script.js:26-30 | the sorted array is non-decreasing by the comparator's key |
| Ordering.SortByStable | script.js:26-30 | elements with equal keys keep their relative input order |
| Ordering.Take | script.js:33 | `slice(0, n)` is the prefix of length min(n, length) |
| Ordering.SortInPlace | script.js:26-30 | `sort` rearranges the array in place into the stable sorted order |
| Collections.Dedup | script.js:332 | `[...new Set(s)]` holds each element of `s` and nothing else, without repetitions |
| Collections.DedupFirstOccurrenceOrder | script.js:332 | the de-duplicated elements appear in the order of their first occurrences |
| Collections.DedupOfDistinct | script.js:332 | a sequence without repetitions is unchanged by de-duplication |
| Collections.DedupAbsorbs | script.js:327-332 | appending names already present adds nothing to the de-duplicated list |
| Collections.AddToValid | script.js:42 | `obj[k] = (obj[k] \|\| 0) + v` keeps the keys distinct and adds `k` to the key set |
| Collections.GroupedKeys | script.js:39-42 | the object built by the loop has each key of the input once, in first-seen order |
| Collections.GroupedValues | script.js:39-42 | the value under each key is the sum of the values of the elements with that key |
| Collections.GroupedTotal | script.js:39-42 | the values under all keys add up to the sum over all elements |
| Collections.SumWhereCounts | script.js:42 | with 1 added per element, a key's value is the number of elements with that key |
| Collections.SumOfOnes | script.js:42 | with 1 added per element, the values total the number of elements |
| Efficiency.EfficiencyRanking | script.js:25-33 | the ranking is a permutation, non-decreasing by cost per point, every "Infinity" after every finite value, ties in input order, and the top 50 no worse than any rider left out |
| Efficiency.Tally | script.js:35-42 | total cost and total points are the sums over all cyclists; `roles` counts the cyclists of each role, lists every role once in first-seen order, and its counts add up to the number of cyclists |
| Efficiency.LoadDashboard | script.js:26-42 | the shared array ends sorted; `top50Cyclists` is its first 50; the tally is taken over the sorted array |
| League.UniqueTeamNames | script.js:326-333 | every name of the two tables and the league appears exactly once, in first-occurrence order of the concatenation, and nothing else appears |
| League.UniqueTeamNamesOfKnownNames | script.js:326-333 | when the second table and the league only repeat names of the first table, the result is the first table's key list |
| League.TableKeysUnion | script.js:313-324 | the two hard-coded tables have the same four keys, so with no league teams the names are the first table's keys |
| League.LooseMatchIgnoresCase | script.js:341-343 | the loose match is case-insensitive: keys and search keys with the same lower case match alike |
| League.LooseMatchSymmetric | script.js:341-343 | the loose match is symmetric in key and search key, and every string matches itself |
| League.FirstMatch | script.js:341-344 | `find` stops at the first key that matches loosely, with no earlier key matching, or reports that none does |
| League.FindExactOrClosestMatch | script.js:337-345 | an exact key is returned as is; otherwise the first key that loosely matches is returned (unless it is the empty key); otherwise the search key; the result is always the search key or a key of the object |
| League.ExactLookup | script.js:313-318 | "Team Fiestina" is a key of the first table and maps to itself |
| League.FragmentLookup | script.js:341-344 | "team" maps to "Team Name", the first key containing it case-insensitively |
| League.UnrelatedLookup | script.js:341-345 | "Vuelta" matches no key of the first table in either direction and comes back unchanged |
| DreamTeam.Picks | script.js:536 | each rider becomes a pick at its own position; picks are distinct, as the riders are distinct objects |
| DreamTeam.OfRole | script.js:524-527 | the role filter keeps exactly the riders of that role, without repeating any |
| DreamTeam.FirstNotIn | script.js:536 | `find` gives the first rider not already listed, with every earlier rider listed, or reports that there is none |
| DreamTeam.GroupFacts | script.js:524-534 | one role's slice holds min(n, riders of the role) riders, all of that role, highest points first, and no rider of the role left out has more points than one shown |
| DreamTeam.LineupFacts | script.js:524-534 | the lineup has at most 8 riders, none repeated, all from the team; per role exactly min(slice length, riders of the role); each role's riders highest points first; no rider left out outscores a listed rider of the same role |
| DreamTeam.OrderDreamTeam | script.js:529-539 | `orderedRiders` is the lineup with at most one rider appended, at most 9 in all, none repeated, all from the team; a rider is appended exactly when some rider is not in the lineup, and it is the first such rider |
| DreamTeam.RoleData | script.js:553-556 | `roleData` lists each role of the ordered riders once, holds under each role the sum of the points of its riders, and its values total the points of all ordered riders |
| Standouts.LatestDate | script.js:724-727 | `latestDate` is the greatest last-entry date over all riders, or '' when there are none |
| Standouts.CalculateMvpAndMip | script.js:720-755 | the nested loops compute the MVP and MIP records defined by the fold over all history steps in loop order |
| Standouts.ScanHistory | script.js:729-752 | the inner loop over one rider's history applies the MVP and MIP update to each step in turn |
| Standouts.UpdateMvp | script.js:731-737 | the inner loop's MVP test for one pair of entries is the MVP update of that step |
| Standouts.UpdateMip | script.js:739-750 | the inner loop's MIP tests for one pair of entries are the MIP update of that step |
| Standouts.ScanStep | script.js:729-752 | one more history entry adds exactly one step to the MVP and the MIP fold |
| Standouts.MvpAfterAppend | script.js:729-752 | scanning two runs of steps one after the other is scanning their concatenation (MVP) |
| Standouts.MipAfterAppend | script.js:729-752 | scanning two runs of steps one after the other is scanning their concatenation (MIP) |
| Standouts.MvpIsFirstLargestGain | script.js:731-737 | the MVP is the first step on the latest date with the strictly largest positive gain, or the empty record when no step on that date gained |
| Standouts.MipIsFirstLargestIncrease | script.js:739-750 | with some jump from zero, the MIP is the first such jump with the largest gain in points, flagged `fromZero`; otherwise the first step from a positive value with the strictly largest positive percentage, or the empty record |
| Standouts.FromZeroIsKept | script.js:741-749 | once a jump from zero is recorded, the record stays one, its points never decrease, and no percentage step replaces it |
| Standouts.BestIsNew | script.js:734-737 | a new step that beats every earlier eligible step becomes the first best |
| Standouts.BestIsKept | script.js:734-737 | a new step that does not beat the first best leaves it in place |
| Trajectory.WithNameCount | script.js:767 | the name filter keeps every rider with that name as often as it occurs, and no other rider |
| Trajectory.WithNameAppend | script.js:767 | the name filter keeps the riders' order: filtering a concatenation concatenates the filtered parts |
| Trajectory.HasHistoryPermutation | script.js:761-763 | reordering the riders keeps every history non-empty |
| Trajectory.LatestDateOrderFree | script.js:761-763 | the latest date does not depend on the order of the riders, so the "top10" sort does not change it |
| Trajectory.TopTenFacts | script.js:760-763 | the "top10" riders are those with the most points: the sort is a permutation, highest points first, ties in their previous order, and no rider left out has more points than one shown |
| Trajectory.UpdateTrajectory | script.js:757-773 | "top10" sorts the shared array by points, highest first, and shows its first ten; "all" shows every rider; another option shows the riders of that name; MVP and MIP are computed over the whole array as it then is |
| TableSort.ColumnKeyOrder | script.js:837-855 | in columns 3, 4 and 5 one cell is less than another exactly when its `parseFloat` is smaller; in every other column exactly when its lower-cased text sorts first |
| TableSort.ColumnInOrder | script.js:837-855 | a body ordered on a column has its numeric cells non-decreasing (ascending) or non-increasing (descending), and its lower-cased texts likewise |
| TableSort.CellLessIrreflexive | script.js:845-855 | no cell value is less than itself |
| TableSort.CellLessTransitive | script.js:845-855 | the comparison of cell values is transitive |
| TableSort.CellLessTotal | script.js:845-855 | two cell values are equal or one is less than the other |
| TableSort.OutOfOrderAsymmetric | script.js:845-855 | of two adjacent rows at most one order is "out of order" in a given direction |
| TableSort.AdjacentInOrderIsInOrder | script.js:831-856 | a pass that finds no adjacent pair out of order means the whole body is ordered in that direction |
| TableSort.SwapInversions | script.js:857-858 | moving row i+1 before row i when they are out of order removes exactly one pair out of order, so the sort terminates |
| TableSort.CountOutSwap | script.js:857-858 | swapping two later rows does not change how many of them a row is out of order with |
| TableSort.SwapNext | script.js:857-858 | moving row i+1 before row i exchanges the two rows, keeps the header and the multiset of rows, and removes exactly one pair out of order |
| TableSort.FindOutOfOrder | script.js:831-856 | the inner scan stops at the first body row that is out of order with the next, every earlier row being in order with its next, or finds that none is |
| TableSort.SortRows | script.js:825-867 | the header row stays in place and the rows are only rearranged; a body not already ascending ends ascending, one already ascending ends descending |
| TableSort.SortTable | script.js:823-868 | `sortTable(columnIndex)` sorts on that column's cells as compared by `ColumnKey`: the header stays, the rows are only rearranged, a body not ascending ends ascending and an ascending one ends descending |

## Left out

- Rendering: the jQuery, Chart.js and Plotly code, HTML templates, the
  legends and the tabs are UI and are not modelled.
- Network I/O: the `$.getJSON` fetch with its error path, and
  `updateVisitCount`, are not modelled. The snapshot is a parameter.
- The calendar loop over dates with `Date`/`setDate`, and the display of
  dates through `toLocaleDateString`, depend on `Date` and are not modelled.
- Display arithmetic is not modelled: averages, `toFixed`, points per
  name length and relative performance percentages. Numbers are reals,
  which have no rounding. This includes the percentage in the MIP, and it
  means the model has no NaN and no infinities other than the "Infinity"
  key.
- `parseFloat` on cell text is a parameter of `TableSort.ColumnKey`. The
  model gives every cell a number, so `parseFloat("∞") = NaN` in the cost
  per point column is not modelled. With NaN the comparisons are all
  false, and those rows are never swapped.
- `TableSort.SortTable` takes the text of the sorted column's cell as a
  function of the row. The DOM lookup
  `getElementsByTagName("TD")[columnIndex]` is not modelled, and rows are
  assumed to have that cell.
- `TableSort.CellLess` orders numbers before labels. That order is never
  used, because a column's keys are all of one kind.
- `Strings.Lower` lower-cases only the ASCII letters. Unicode case mapping
  is not modelled.
- `Strings.Less` compares characters as code points. JavaScript compares
  UTF-16 code units; the two differ only outside the Basic Multilingual
  Plane.
- `Collections.Dict` keeps keys in insertion order. JavaScript lists
  integer-like keys first, in numeric order; role and team names are not
  integer-like.
- `Efficiency.EfficiencyRanking`: the cost per point is taken as already
  converted, `Infinity` or a number. `parseFloat` of the JSON field is
  not modelled.
- `createLeagueScoresChart` beyond the name union and the lookup is chart
  data and is not modelled, and neither are the duplicate definitions of
  `createCustomLegend` and `createRelativePerformanceChart`.
- `createTrendPredictionChart` is called but not defined in the source,
  and is not part of this model.
- cyclist_analyzer.py is not modelled. `select_dream_team_optimized` is an
  LP solve in an external solver, and `main` fetches and prints. The solver
  filters on the role label 'All-rounder' (cyclist_analyzer.py:24), while
  the page filters on 'All Rounder' (script.js:524). Riders labelled the
  first way would never reach the page's all-rounder slice.
- config.py holds constants only (team size 9, role counts 2/2/1/3). They
  agree with `DreamTeam.Cap`.
- `League.UniqueTeamNames` takes `league_scores` as an array of teams.
  `createRelativePerformanceChart` reads `leagueScores.current`
  (script.js:943-945), so the field may be an object instead. Then
  `leagueScores.map` (script.js:330) throws. That form is not modelled.
- `Standouts.CalculateMvpAndMip` requires every rider to have a non-empty
  point history. The script reads the last entry of each history and fails
  on an empty one.
- Tie-breaking for the MVP and MIP depends on the order of the shared
  array. After "top10" has been selected, that array is sorted by points.
  The model states this (`Trajectory.UpdateTrajectory`), and it does not
  compare the records for different orders.
