# Fair pairing for a cultural exchange, as a binary linear program

`optim_distances.py` pairs up the attendees of a gift exchange. It makes the total
distance between partners as large as possible. The script works in four steps:

1. It lists every unordered pair of attendees as a candidate (`itertools.combinations`).
2. It gives each pair the negated geodesic distance between the two homes as its cost.
3. It builds a pair-by-attendee incidence matrix (`MultiLabelBinarizer`). From it comes
   the coverage constraint Aᵀx = 1 over binary x.
4. It asks `scipy.optimize.milp` for a minimum-cost x and prints the selected pairs with
   their distances.

This project models that computation as pure Dafny functions and proves the
properties the formulation relies on:

- the candidates are each unordered pair once, n(n-1)/2 of them;
- costs line up with pairs;
- every matrix row has two ones and every column n - 1;
- the constraint holds exactly for perfect matchings;
- an odd roster is infeasible and an even one is not;
- the solver's answer is the perfect matching of largest total distance;
- decoding reports every attendee once, with the true distances.

Modules:

- `Combinations` (`combinations.dfy`): `combinations(xs, 2)`.
- `Labels` (`labels.dfy`): Python's `<` on `str`, and the sorted distinct labels a
  `MultiLabelBinarizer` keeps as its classes.
- `Milp` (`milp.dfy`): the binary linear program and the solver's contract. `Solve` is a
  reference solver that meets the contract by enumerating every binary vector.
- `OptimDistances` (`optim_distances.dfy`): the script itself. It covers costs, the
  matrix, coverage, decoding, the whole run and what it prints.

Modelling choices:

- The `ATTENDEES` dictionary is a value `Attendees(names, located)`. It holds the keys in
  insertion order plus the map from each name to its coordinates.
- The geodesic distance is a parameter `dist: (Coord, Coord) -> real`.
- The solution vector is a `seq<bool>`.

## Model

| member | source | states |
|---|---|---|
| Combinations.Pairs | optim_distances.py:40 | there are n(n-1)/2 candidate pairs |
| Combinations.PairAt | optim_distances.py:40 | every candidate is (xs[i], xs[j]) for positions i < j |
| Combinations.PairListed | optim_distances.py:40 | every pair of positions i < j is listed |
| Combinations.PairsDistinct | optim_distances.py:40 | over distinct names no candidate is listed twice |
| Combinations.PairForward | optim_distances.py:40 | a candidate always has the earlier roster name first |
| Combinations.PairsInOrder | optim_distances.py:40 | candidates come in lexicographic order of their positions (i, j), the order `combinations` documents |
| Combinations.UnorderedPairOnce | optim_distances.py:40 | each unordered pair {a, b} of attendees is listed exactly once, in one orientation |
| OptimDistances.CandidatesJoinTwoAttendees | optim_distances.py:40 | each candidate joins two different attendees of the roster |
| OptimDistances.PairDistances | optim_distances.py:24-42 | one cost per pair; cost k is `get_neg_distance_between_points` of pair k's locations, minus their distance (`NegDistance`) |
| OptimDistances.Costs | optim_distances.py:41-42 | the cost vector has one entry per candidate pair |
| Labels.BelowTotal | optim_distances.py:43 | Python's string `<` orders any two different names one way or the other |
| Labels.BelowTransitive | optim_distances.py:43 | string `<` is transitive |
| Labels.Insert | optim_distances.py:43 | inserting a label keeps the class list strictly sorted and adds exactly that label |
| Labels.Classes | optim_distances.py:43 | the binarizer classes are strictly sorted and are exactly the labels seen |
| Labels.ClassesOfDistinct | optim_distances.py:43 | distinct labels give one class per label |
| Labels.SortedUnique | optim_distances.py:43 | the column order is determined by the set of labels |
| Labels.ColumnOrder | optim_distances.py:43 | a's column comes before b's exactly when a sorts before b |
| OptimDistances.PairLabels | optim_distances.py:43 | a name is a label of the fitted data exactly when some candidate pair contains it |
| OptimDistances.AttendeeColumns | optim_distances.py:43 | one column per attendee, in strictly sorted name order |
| OptimDistances.IncidenceRow | optim_distances.py:43 | a one-hot row: entry k is 0 or 1, and 1 exactly when the attendee of column k is in the pair |
| OptimDistances.Incidence | optim_distances.py:43 | one row per candidate pair and one column per label; entry (i, k) is 1 exactly when the attendee of column k is in pair i, else 0 |
| OptimDistances.RowHits | optim_distances.py:43 | a row has a one for each of its pair's names that has a column |
| OptimDistances.RowHasTwoOnes | optim_distances.py:43 | every row of the attendee matrix is 0/1 with exactly two ones |
| OptimDistances.LeadingDegree | optim_distances.py:40-43 | among the pairs led by xs[0], xs[0] is in n-1 pairs and every other name in one |
| OptimDistances.Partners | optim_distances.py:40-43 | each attendee is in n - 1 candidate pairs |
| OptimDistances.ColumnHasPartners | optim_distances.py:43 | every column of the attendee matrix has n - 1 ones |
| OptimDistances.Coverage | optim_distances.py:51 | the constraint has one row per candidate and one column per attendee, with bounds 1 and 1 |
| OptimDistances.ColumnDotIsDegree | optim_distances.py:51 | entry k of Aᵀx counts the selected pairs holding the attendee of column k |
| OptimDistances.DegreeZero | optim_distances.py:51 | an attendee's count is 0 exactly when no selected pair holds them |
| OptimDistances.DegreeOne | optim_distances.py:51 | an attendee's count is 1 exactly when one selected pair, and no other, holds them |
| OptimDistances.Handshake | optim_distances.py:46-51 | the counts of all attendees add up to twice the number of selected pairs |
| OptimDistances.CoverageIsPerfectMatching | optim_distances.py:46-51 | a binary x meets Aᵀx = 1 exactly when it selects a perfect matching |
| OptimDistances.FeasibleSelectsHalf | optim_distances.py:46-51 | a feasible x selects n/2 pairs |
| OptimDistances.OddRosterInfeasible | optim_distances.py:46-51 | an odd roster admits no feasible binary vector |
| OptimDistances.EvenRosterFeasible | optim_distances.py:46-51 | an even roster admits a feasible vector (neighbours in roster order) |
| Milp.VectorsComplete | optim_distances.py:49 | the reference solver's enumeration contains every binary vector |
| Milp.Best | optim_distances.py:53-54 | None exactly when no vector is feasible; otherwise a feasible vector of least cost |
| Milp.Solve | optim_distances.py:53-54 | the result is feasible and no feasible binary vector costs less; infeasible exactly when none is feasible |
| OptimDistances.Argwhere | optim_distances.py:57 | the selected indices, each exactly once, in increasing order; as many as the selected pairs |
| OptimDistances.Report | optim_distances.py:58-60 | one reported match per selected index |
| OptimDistances.Decode | optim_distances.py:57-60 | the output loop reports one match per selected pair |
| OptimDistances.DecodeSelects | optim_distances.py:57-60 | every reported match is a selected pair with its cost negated back, and every selected pair is reported |
| OptimDistances.NegationRoundTrip | optim_distances.py:24-60 | a reported distance is the true distance of its pair, since negating the cost undoes the negation |
| OptimDistances.ReportTotal | optim_distances.py:57-60 | the reported distances add up to minus the objective over the decoded prefix |
| OptimDistances.DecodeTotal | optim_distances.py:57-60 | the reported distances add up to minus the objective c·x |
| OptimDistances.DecodedMatching | optim_distances.py:57-60 | a perfect matching decodes to n/2 pairs with every attendee in exactly one |
| OptimDistances.PairAttendees | optim_distances.py:40-57 | the run reports no pairing exactly when no binary vector meets the coverage constraint; otherwise it reports the decoding of an optimal vector |
| OptimDistances.NoPairingIffOdd | optim_distances.py:40-57 | the run finds no pairing exactly when the roster is odd |
| OptimDistances.PairingIsPerfectMatching | optim_distances.py:40-60 | an even roster gets a pairing of n/2 candidate pairs, every attendee once, each with its true distance |
| OptimDistances.PairingMaximisesDistance | optim_distances.py:40-60 | no perfect matching has a larger total distance than the reported one |
| OptimDistances.BinarizerClassesAreColumns | optim_distances.py:40-43 | with two or more attendees the binarizer's classes are the sorted attendee names |
| OptimDistances.LoneAttendeeSlipsThrough | optim_distances.py:43-54 | with one attendee the matrix as built has no column, so the empty selection meets it although nobody is paired |
| OptimDistances.Printed | optim_distances.py:53-61 | nothing is printed exactly for an odd or empty roster; an even roster prints n/2 pairs, every attendee once, each with its true distance |

## Left out

- Geocoding (`Nominatim(...).geocode`, lines 13-22) is a network service. The roster with its coordinates is an input; a failed lookup (`None`) is not modelled.
- The hard-coded six-name roster is replaced by an arbitrary roster parameter.
- The geodesic distance (`geopy.distance.distance(...).km`) is a parameter. Distances are reals, not IEEE doubles.
- `milp`'s branch and bound, its time limit and its numeric status codes are not modelled. `Milp.Solve` is a reference that meets the solver's contract by enumeration. Among equally good optima it returns the first in its enumeration order, while `milp`'s choice is unspecified. A solver timeout is not modelled.
- `Milp.Solve`: the contract covers only binary vectors, because integrality and `Bounds(0, 1)` restrict x to them. The floating-point test `solution.x == 1` becomes a boolean.
- `Milp.Solve` never fails, so the model has no error path for a solver crash.
- Printing (line 61) is reduced to the list of matches. The `: <25` padding and the `int(distance)` truncation of the printed km are not modelled.
- The program's directed giver/receiver script, with its constraint against mutual swaps, is not modelled.
- `OptimDistances.Printed`: when the solver reports infeasibility, `solution.x` is `None`, so the script prints nothing for an odd roster. In the model the empty roster prints nothing too. That rests on the empty-cost-vector behaviour below, which is not modelled. `milp` most likely raises on an empty `c`, so a roster of fewer than two names would end in an exception rather than in empty output. Only the model's `PairAttendees` keeps an infeasible roster apart, with `NoPairing`.
- `OptimDistances.PairAttendees`: the run builds its matrix with one column per attendee (`AttendeeColumns`), not with the classes that line 43 fits on the pairs. The two agree for every roster of two or more names (`BinarizerClassesAreColumns`). They differ only for a one-name roster, which the model reports as `NoPairing` while the matrix as written is met by the empty selection (see Findings). So `NoPairingIffOdd`, `Printed`, `Coverage` and `PairingIsPerfectMatching` describe the corrected run on that one roster.
- `OptimDistances.PairAttendees`: what `milp` does with an empty cost vector is not modelled. That covers rosters of fewer than two names, where there are no candidate pairs. `Milp.Solve` returns the empty selection there, so the empty roster gives `Pairing([])`. The empty-roster half of `Printed`'s contract rests on that.

## Findings

| source | as written | input that shows it | evidently intended | confidence | as-written member | corrected member |
|---|---|---|---|---|---|---|
| optim_distances.py:43 | the binarizer is fitted on the candidate pairs, so an attendee who is in no pair gets no column and no coverage row | a roster of one attendee: no pairs, no columns, and the empty selection meets Aᵀx = 1 although the attendee is unpaired | one column per attendee, so a lone attendee makes the program infeasible like any odd roster | not executed; low, since scipy may reject the empty problem and the shipped roster has six names | OptimDistances.LoneAttendeeSlipsThrough | OptimDistances.AttendeeColumns |
