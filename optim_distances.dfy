/** optim_distances.py: pair up the attendees of a gift exchange so that the total
    distance between partners is as large as possible, stated as a binary linear
    program over the candidate pairs. */
module OptimDistances {
  import opened Combinations
  import opened Labels
  import opened Milp

  type Name = string

  /** A geocoded location: latitude and longitude in degrees. */
  datatype Coord = Coord(lat: real, lon: real)

  /** The `ATTENDEES` dictionary: the names in insertion order and each name's location. */
  datatype Attendees = Attendees(names: seq<Name>, located: map<Name, Coord>)

  /** The keys of a dictionary are distinct and each one has its value. */
  predicate Valid(att: Attendees) {
    && Distinct(att.names)
    && (forall a | a in att.names :: a in att.located)
    && (forall a | a in att.located :: a in att.names)
  }

  /** One reported pair and its distance in km. */
  datatype Match = Match(pair: (Name, Name), km: real)

  /** The outcome of the run: the selected pairs, or no pairing at all. */
  datatype Outcome = Pairing(matches: seq<Match>) | NoPairing

  predicate Contains(p: (Name, Name), a: Name) {
    p.0 == a || p.1 == a
  }

  // ---------------------------------------------------------------------------
  // Candidate pairs and their costs

  /** `possible_pairs`: every unordered pair of attendees, in roster order. */
  function PossiblePairs(att: Attendees): seq<(Name, Name)> {
    Pairs(att.names)
  }

  /** Each candidate pair joins two different attendees. */
  lemma CandidatesJoinTwoAttendees(att: Attendees, i: nat)
    requires Valid(att) && i < |PossiblePairs(att)|
    ensures PossiblePairs(att)[i].0 != PossiblePairs(att)[i].1
    ensures PossiblePairs(att)[i].0 in att.names && PossiblePairs(att)[i].1 in att.names
  {
    PairAt(att.names, i);
  }

  /** `get_neg_distance_between_points`: minus the distance in km. */
  function NegDistance(dist: (Coord, Coord) -> real, a: Coord, b: Coord): real {
    -dist(a, b)
  }

  predicate Located(located: map<Name, Coord>, pairs: seq<(Name, Name)>) {
    forall k | 0 <= k < |pairs| :: pairs[k].0 in located && pairs[k].1 in located
  }

  /** `pair_distances`: one cost per candidate pair, index for index. */
  function PairDistances(located: map<Name, Coord>, dist: (Coord, Coord) -> real,
                         pairs: seq<(Name, Name)>): (c: seq<real>)
    requires Located(located, pairs)
    ensures |c| == |pairs|
    ensures forall k | 0 <= k < |pairs| ::
      c[k] == NegDistance(dist, located[pairs[k].0], located[pairs[k].1])
  {
    if pairs == [] then []
    else
      var last := pairs[|pairs| - 1];
      PairDistances(located, dist, pairs[..|pairs| - 1])
        + [NegDistance(dist, located[last.0], located[last.1])]
  }

  function Costs(att: Attendees, dist: (Coord, Coord) -> real): (c: seq<real>)
    requires Valid(att)
    ensures |c| == |PossiblePairs(att)|
  {
    var pairs := PossiblePairs(att);
    assert Located(att.located, pairs) by {
      forall k | 0 <= k < |pairs| ensures pairs[k].0 in att.located && pairs[k].1 in att.located {
        CandidatesJoinTwoAttendees(att, k);
      }
    }
    PairDistances(att.located, dist, pairs)
  }

  // ---------------------------------------------------------------------------
  // The attendee matrix

  /** One row of the matrix: 1 in the columns of the pair's two attendees. */
  function IncidenceRow(p: (Name, Name), cols: seq<Name>): (row: seq<int>)
    ensures |row| == |cols|
    ensures forall k | 0 <= k < |cols| :: row[k] in {0, 1} && (row[k] == 1 <==> Contains(p, cols[k]))
  {
    seq(|cols|, k requires 0 <= k < |cols| => if Contains(p, cols[k]) then 1 else 0)
  }

  /** The one-hot matrix: entry (i, k) is 1 exactly when the attendee of column k is in
      pair i, and 0 otherwise. */
  function Incidence(pairs: seq<(Name, Name)>, cols: seq<Name>): (a: seq<seq<int>>)
    ensures |a| == |pairs|
    ensures forall i | 0 <= i < |pairs| :: |a[i]| == |cols|
    ensures forall i, k | 0 <= i < |pairs| && 0 <= k < |cols| ::
      a[i][k] in {0, 1} && (a[i][k] == 1 <==> Contains(pairs[i], cols[k]))
  {
    seq(|pairs|, i requires 0 <= i < |pairs| => IncidenceRow(pairs[i], cols))
  }

  /** The labels of all pairs, in order: what the binarizer is fitted on. */
  function PairLabels(pairs: seq<(Name, Name)>): (r: seq<Name>)
    ensures forall y :: y in r <==> exists k :: 0 <= k < |pairs| && Contains(pairs[k], y)
  {
    if pairs == [] then []
    else
      var m := |pairs|;
      var r := PairLabels(pairs[..m - 1]) + [pairs[m - 1].0, pairs[m - 1].1];
      assert forall y :: (exists k :: 0 <= k < m && Contains(pairs[k], y)) ==> y in r by {
        forall y | exists k :: 0 <= k < m && Contains(pairs[k], y) ensures y in r {
          var k :| 0 <= k < m && Contains(pairs[k], y);
          if k < m - 1 { assert Contains(pairs[..m - 1][k], y); }
        }
      }
      r
  }

  /** Columns as the source builds them: `MultiLabelBinarizer` fitted on the pairs. */
  function BinarizerClasses(pairs: seq<(Name, Name)>): seq<Name> {
    Classes(PairLabels(pairs))
  }

  /** Columns as intended: one per attendee, in sorted-name order. */
  function AttendeeColumns(att: Attendees): (cols: seq<Name>)
    requires Valid(att)
    ensures |cols| == |att.names|
    ensures StrictlySorted(cols) && Distinct(cols)
    ensures forall a :: a in cols <==> a in att.names
  {
    ClassesOfDistinct(att.names);
    var cols := Classes(att.names);
    assert Distinct(cols) by {
      forall i, j | 0 <= i < j < |cols| ensures cols[i] != cols[j] {
        BelowIrreflexive(cols[i]);
      }
    }
    cols
  }

  /** `attendee_matrix`: one row per candidate pair, one column per attendee. */
  function AttendeeMatrix(att: Attendees): seq<seq<int>>
    requires Valid(att)
  {
    Incidence(PossiblePairs(att), AttendeeColumns(att))
  }

  /** `everybody_attends_once`: Aᵀx = 1, lower and upper bound both 1. */
  function Coverage(att: Attendees): (con: Constraint)
    requires Valid(att)
    ensures Shaped(con) && |con.a| == |PossiblePairs(att)| && con.width == |att.names|
    ensures con.lb == 1 && con.ub == 1
  {
    Constraint(AttendeeMatrix(att), |AttendeeColumns(att)|, 1, 1)
  }

  function Sum(s: seq<int>): int {
    if s == [] then 0 else Sum(s[..|s| - 1]) + s[|s| - 1]
  }

  /** A row holds a 1 for each of the pair's names that has a column. */
  lemma {:induction false} RowHits(p: (Name, Name), cols: seq<Name>)
    requires Distinct(cols) && p.0 != p.1
    ensures Sum(IncidenceRow(p, cols)) == Bit(p.0 in cols) + Bit(p.1 in cols)
    decreases |cols|
  {
    if cols != [] {
      var m := |cols|;
      var init := cols[..m - 1];
      RowHits(p, init);
      assert IncidenceRow(p, cols)[..m - 1] == IncidenceRow(p, init);
      assert cols == init + [cols[m - 1]];
      assert cols[m - 1] !in init;
    }
  }

  /** Every row of the attendee matrix has exactly two ones. */
  lemma RowHasTwoOnes(att: Attendees, i: nat)
    requires Valid(att) && i < |PossiblePairs(att)|
    ensures |AttendeeMatrix(att)[i]| == |att.names|
    ensures forall k | 0 <= k < |att.names| :: AttendeeMatrix(att)[i][k] in {0, 1}
    ensures Sum(AttendeeMatrix(att)[i]) == 2
  {
    var cols := AttendeeColumns(att);
    CandidatesJoinTwoAttendees(att, i);
    RowHits(PossiblePairs(att)[i], cols);
  }

  // ---------------------------------------------------------------------------
  // Degrees: how many selected pairs an attendee is in

  /** The number of selected pairs that contain a. */
  function Degree(pairs: seq<(Name, Name)>, x: seq<bool>, a: Name): (d: nat)
    requires |x| == |pairs|
    ensures d <= Selected(x)
  {
    if pairs == [] then 0
    else
      var m := |pairs|;
      Degree(pairs[..m - 1], x[..m - 1], a) + Bit(x[m - 1] && Contains(pairs[m - 1], a))
  }

  /** Entry k of Aᵀx counts the selected pairs of the attendee in column k. */
  lemma {:induction false} ColumnDotIsDegree(pairs: seq<(Name, Name)>, cols: seq<Name>, k: nat, x: seq<bool>)
    requires |x| == |pairs| && k < |cols|
    ensures ColumnDot(Incidence(pairs, cols), k, x) == Degree(pairs, x, cols[k])
    decreases |pairs|
  {
    if pairs != [] {
      var m := |pairs|;
      assert Incidence(pairs, cols)[..m - 1] == Incidence(pairs[..m - 1], cols);
      ColumnDotIsDegree(pairs[..m - 1], cols, k, x[..m - 1]);
    }
  }

  /** x picks pair i for attendee a. */
  ghost predicate Picks(pairs: seq<(Name, Name)>, x: seq<bool>, a: Name, i: int)
    requires |x| == |pairs|
  {
    0 <= i < |pairs| && x[i] && Contains(pairs[i], a)
  }

  /** Degree 0 means that no selected pair holds a. */
  lemma {:induction false} DegreeZero(pairs: seq<(Name, Name)>, x: seq<bool>, a: Name)
    requires |x| == |pairs|
    ensures Degree(pairs, x, a) == 0 <==> forall i :: !Picks(pairs, x, a, i)
    decreases |pairs|
  {
    if pairs != [] {
      var m := |pairs|;
      var p', x' := pairs[..m - 1], x[..m - 1];
      DegreeZero(p', x', a);
      assert Degree(pairs, x, a) == Degree(p', x', a) + (if Picks(pairs, x, a, m - 1) then 1 else 0);
      forall i | i != m - 1 ensures Picks(pairs, x, a, i) == Picks(p', x', a, i) {}
    }
  }

  /** x picks pair i for a and no other pair. */
  ghost predicate PicksOnly(pairs: seq<(Name, Name)>, x: seq<bool>, a: Name, i: int)
    requires |x| == |pairs|
  {
    Picks(pairs, x, a, i) && forall j :: Picks(pairs, x, a, j) ==> j == i
  }

  /** Degree 1 means that exactly one selected pair holds a. */
  lemma {:induction false} DegreeOne(pairs: seq<(Name, Name)>, x: seq<bool>, a: Name)
    requires |x| == |pairs|
    ensures Degree(pairs, x, a) == 1 <==> exists i :: PicksOnly(pairs, x, a, i)
    decreases |pairs|
  {
    if pairs != [] {
      var m := |pairs|;
      var p', x' := pairs[..m - 1], x[..m - 1];
      DegreeZero(p', x', a);
      if Picks(pairs, x, a, m - 1) {
        if Degree(p', x', a) == 0 {
          forall j | Picks(pairs, x, a, j) ensures j == m - 1 {
            if j != m - 1 { assert Picks(p', x', a, j); }
          }
          assert PicksOnly(pairs, x, a, m - 1);
        } else {
          var i0 :| Picks(p', x', a, i0);
          assert Picks(pairs, x, a, i0) && i0 != m - 1;
          forall i ensures !PicksOnly(pairs, x, a, i) {
            assert Picks(pairs, x, a, i0) && Picks(pairs, x, a, m - 1);
          }
        }
      } else {
        DegreeOne(p', x', a);
        assert forall j :: Picks(pairs, x, a, j) == Picks(p', x', a, j);
        assert forall i :: PicksOnly(pairs, x, a, i) == PicksOnly(p', x', a, i);
      }
    }
  }

  /** The total of the degrees of the attendees in cols. */
  function DegreeTotal(pairs: seq<(Name, Name)>, x: seq<bool>, cols: seq<Name>): int
    requires |x| == |pairs|
  {
    if cols == [] then 0
    else DegreeTotal(pairs, x, cols[..|cols| - 1]) + Degree(pairs, x, cols[|cols| - 1])
  }

  /** Removing the last pair removes its row's ones from the total. */
  lemma {:induction false} DegreeTotalLast(pairs: seq<(Name, Name)>, x: seq<bool>, cols: seq<Name>)
    requires |x| == |pairs| > 0
    ensures DegreeTotal(pairs, x, cols) ==
      DegreeTotal(pairs[..|pairs| - 1], x[..|x| - 1], cols)
        + (if x[|x| - 1] then Sum(IncidenceRow(pairs[|pairs| - 1], cols)) else 0)
    decreases |cols|
  {
    if cols != [] {
      var n := |cols|;
      DegreeTotalLast(pairs, x, cols[..n - 1]);
      assert IncidenceRow(pairs[|pairs| - 1], cols)[..n - 1] == IncidenceRow(pairs[|pairs| - 1], cols[..n - 1]);
    }
  }

  /** Handshake: each selected pair adds 2 to the degree total. */
  lemma {:induction false} Handshake(pairs: seq<(Name, Name)>, x: seq<bool>, cols: seq<Name>)
    requires |x| == |pairs| && Distinct(cols)
    requires forall i | 0 <= i < |pairs| ::
      pairs[i].0 != pairs[i].1 && pairs[i].0 in cols && pairs[i].1 in cols
    ensures DegreeTotal(pairs, x, cols) == 2 * Selected(x)
    decreases |pairs|
  {
    if pairs == [] {
      DegreeTotalEmpty(cols);
    } else {
      var m := |pairs|;
      DegreeTotalLast(pairs, x, cols);
      RowHits(pairs[m - 1], cols);
      Handshake(pairs[..m - 1], x[..m - 1], cols);
    }
  }

  lemma {:induction false} DegreeTotalEmpty(cols: seq<Name>)
    ensures DegreeTotal([], [], cols) == 0
    decreases |cols|
  {
    if cols != [] { DegreeTotalEmpty(cols[..|cols| - 1]); }
  }

  /** When every degree is 1 the total is the number of attendees. */
  lemma {:induction false} DegreeTotalOfOnes(pairs: seq<(Name, Name)>, x: seq<bool>, cols: seq<Name>)
    requires |x| == |pairs|
    requires forall k | 0 <= k < |cols| :: Degree(pairs, x, cols[k]) == 1
    ensures DegreeTotal(pairs, x, cols) == |cols|
    decreases |cols|
  {
    if cols != [] { DegreeTotalOfOnes(pairs, x, cols[..|cols| - 1]); }
  }

  /** Every variable selected: Aᵀ applied to it sums each column. */
  function AllSelected(m: nat): seq<bool> {
    seq(m, i => true)
  }

  lemma {:induction false} DegreeSplit(p: seq<(Name, Name)>, q: seq<(Name, Name)>,
                                       x: seq<bool>, y: seq<bool>, a: Name)
    requires |x| == |p| && |y| == |q|
    ensures Degree(p + q, x + y, a) == Degree(p, x, a) + Degree(q, y, a)
    decreases |q|
  {
    if q == [] {
      assert p + q == p && x + y == x;
    } else {
      var n := |q|;
      assert (p + q)[..|p + q| - 1] == p + q[..n - 1];
      assert (x + y)[..|x + y| - 1] == x + y[..n - 1];
      DegreeSplit(p, q[..n - 1], x, y[..n - 1], a);
    }
  }

  /** When every pair holds a and all are selected, a's degree is the number of pairs. */
  lemma {:induction false} DegreeAllContain(ps: seq<(Name, Name)>, a: Name)
    requires forall k | 0 <= k < |ps| :: Contains(ps[k], a)
    ensures Degree(ps, AllSelected(|ps|), a) == |ps|
    decreases |ps|
  {
    if ps != [] {
      var m := |ps|;
      assert AllSelected(m)[..m - 1] == AllSelected(m - 1);
      DegreeAllContain(ps[..m - 1], a);
    }
  }

  /** Of the pairs that start with xs[0], all hold xs[0] and exactly one holds each
      later name. */
  lemma LeadingDegree(xs: seq<Name>, a: Name)
    requires Distinct(xs) && a in xs
    ensures Degree(Leading(xs), AllSelected(|xs| - 1), a) == if a == xs[0] then |xs| - 1 else 1
  {
    var lead, ones := Leading(xs), AllSelected(|xs| - 1);
    if a == xs[0] {
      DegreeAllContain(lead, a);
    } else {
      var m :| 0 <= m < |xs| && xs[m] == a;
      assert Picks(lead, ones, a, m - 1);
      forall j | Picks(lead, ones, a, j) ensures j == m - 1 {
        assert xs[j + 1] == a;
      }
      assert PicksOnly(lead, ones, a, m - 1);
      DegreeOne(lead, ones, a);
    }
  }

  /** Each attendee is in n - 1 candidate pairs, one per possible partner. */
  lemma {:induction false} Partners(xs: seq<Name>, a: Name)
    requires Distinct(xs) && a in xs
    ensures Degree(Pairs(xs), AllSelected(|Pairs(xs)|), a) == |xs| - 1
    decreases |xs|
  {
    if |xs| >= 2 {
      var tail := xs[1..];
      var lead, rest := Leading(xs), Pairs(tail);
      assert Pairs(xs) == lead + rest;
      assert AllSelected(|Pairs(xs)|) == AllSelected(|lead|) + AllSelected(|rest|);
      DegreeSplit(lead, rest, AllSelected(|lead|), AllSelected(|rest|), a);
      LeadingDegree(xs, a);
      if a == xs[0] {
        forall k | 0 <= k < |rest| ensures !Contains(rest[k], a) {
          PairAt(tail, k);
        }
        DegreeZero(rest, AllSelected(|rest|), a);
      } else {
        assert a in tail;
        Partners(tail, a);
      }
    }
  }

  /** Every column of the attendee matrix has n - 1 ones. */
  lemma ColumnHasPartners(att: Attendees, k: nat)
    requires Valid(att) && k < |att.names|
    ensures ColumnDot(AttendeeMatrix(att), k, AllSelected(|PossiblePairs(att)|)) == |att.names| - 1
  {
    var pairs, cols := PossiblePairs(att), AttendeeColumns(att);
    ColumnDotIsDegree(pairs, cols, k, AllSelected(|pairs|));
    assert cols[k] in att.names;
    Partners(att.names, cols[k]);
  }

  // ---------------------------------------------------------------------------
  // The coverage constraint is a perfect matching

  /** Every attendee is in exactly one selected pair. */
  predicate PerfectMatching(names: seq<Name>, pairs: seq<(Name, Name)>, x: seq<bool>)
    requires |x| == |pairs|
  {
    forall a | a in names :: Degree(pairs, x, a) == 1
  }

  /** A binary vector meets Aᵀx = 1 exactly when it selects a perfect matching. */
  lemma CoverageIsPerfectMatching(att: Attendees, x: seq<bool>)
    requires Valid(att) && |x| == |PossiblePairs(att)|
    ensures Satisfies(Coverage(att), x) <==> PerfectMatching(att.names, PossiblePairs(att), x)
  {
    var pairs, cols := PossiblePairs(att), AttendeeColumns(att);
    forall k | 0 <= k < |cols| ensures ColumnDot(AttendeeMatrix(att), k, x) == Degree(pairs, x, cols[k]) {
      ColumnDotIsDegree(pairs, cols, k, x);
    }
    if PerfectMatching(att.names, pairs, x) {
      assert forall k | 0 <= k < |cols| :: cols[k] in att.names;
    }
    if Satisfies(Coverage(att), x) {
      forall a | a in att.names ensures Degree(pairs, x, a) == 1 {
        assert a in cols;
        var k :| 0 <= k < |cols| && cols[k] == a;
      }
    }
  }

  /** A feasible vector selects exactly half as many pairs as there are attendees. */
  lemma FeasibleSelectsHalf(att: Attendees, x: seq<bool>)
    requires Valid(att) && |x| == |PossiblePairs(att)|
    requires Satisfies(Coverage(att), x)
    ensures 2 * Selected(x) == |att.names|
  {
    var pairs, cols := PossiblePairs(att), AttendeeColumns(att);
    CoverageIsPerfectMatching(att, x);
    assert Distinct(cols);
    forall i | 0 <= i < |pairs| ensures pairs[i].0 != pairs[i].1 && pairs[i].0 in cols && pairs[i].1 in cols {
      CandidatesJoinTwoAttendees(att, i);
    }
    Handshake(pairs, x, cols);
    assert forall k | 0 <= k < |cols| :: cols[k] in att.names;
    DegreeTotalOfOnes(pairs, x, cols);
  }

  /** A roster of odd size admits no feasible binary vector. */
  lemma OddRosterInfeasible(att: Attendees)
    requires Valid(att) && |att.names| % 2 == 1
    ensures forall x: seq<bool> | |x| == |PossiblePairs(att)| :: !Satisfies(Coverage(att), x)
  {
    forall x: seq<bool> | |x| == |PossiblePairs(att)| ensures !Satisfies(Coverage(att), x) {
      if Satisfies(Coverage(att), x) {
        FeasibleSelectsHalf(att, x);
      }
    }
  }

  /** The pair (xs[i], xs[i + 1]) for an even position i. */
  ghost predicate Neighbours(xs: seq<Name>, p: (Name, Name)) {
    exists i :: 0 <= i < |xs| - 1 && i % 2 == 0 && p == (xs[i], xs[i + 1])
  }

  /** The only neighbour pair holding xs[m] is the one at the even position below m. */
  lemma NeighbourAt(xs: seq<Name>, p: (Name, Name), m: nat)
    requires Distinct(xs) && m < |xs| && Neighbours(xs, p) && Contains(p, xs[m])
    ensures m - m % 2 + 1 < |xs| && p == (xs[m - m % 2], xs[m - m % 2 + 1])
  {
    var e :| 0 <= e < |xs| - 1 && e % 2 == 0 && p == (xs[e], xs[e + 1]);
    assert e == m || e + 1 == m;
  }

  /** The neighbour pair of xs[m] is a candidate pair. */
  lemma NeighbourListed(xs: seq<Name>, m: nat) returns (k: nat)
    requires |xs| % 2 == 0 && m < |xs|
    ensures m - m % 2 + 1 < |xs|
    ensures k < |Pairs(xs)| && Pairs(xs)[k] == (xs[m - m % 2], xs[m - m % 2 + 1])
    ensures Neighbours(xs, Pairs(xs)[k])
  {
    var e := m - m % 2;
    assert e % 2 == 0 && e + 1 < |xs| by {
      if m % 2 == 0 { assert m + 1 != |xs|; }
    }
    PairListed(xs, e, e + 1);
    k :| 0 <= k < |Pairs(xs)| && Pairs(xs)[k] == (xs[e], xs[e + 1]);
  }

  /** Over distinct names, equal candidate pairs sit at the same index. */
  lemma SamePairSameIndex(xs: seq<Name>, j: nat, k: nat)
    requires Distinct(xs) && j < |Pairs(xs)| && k < |Pairs(xs)| && Pairs(xs)[j] == Pairs(xs)[k]
    ensures j == k
  {
    PairsDistinct(xs);
  }

  /** Selecting the neighbour pairs of an even roster gives every attendee degree 1. */
  lemma NeighbourDegree(xs: seq<Name>, x: seq<bool>, a: Name)
    requires Distinct(xs) && |xs| % 2 == 0 && a in xs
    requires |x| == |Pairs(xs)|
    requires forall k | 0 <= k < |x| :: x[k] == Neighbours(xs, Pairs(xs)[k])
    ensures Degree(Pairs(xs), x, a) == 1
  {
    var pairs := Pairs(xs);
    var m :| 0 <= m < |xs| && xs[m] == a;
    var k := NeighbourListed(xs, m);
    assert Picks(pairs, x, a, k);
    forall j | Picks(pairs, x, a, j) ensures j == k {
      NeighbourAt(xs, pairs[j], m);
      SamePairSameIndex(xs, j, k);
    }
    assert PicksOnly(pairs, x, a, k);
    DegreeOne(pairs, x, a);
  }

  /** A roster of even size admits a feasible vector: pair each attendee with its neighbour. */
  lemma EvenRosterFeasible(att: Attendees)
    requires Valid(att) && |att.names| % 2 == 0
    ensures exists x: seq<bool> :: |x| == |PossiblePairs(att)| && Satisfies(Coverage(att), x)
  {
    var xs, pairs := att.names, PossiblePairs(att);
    var x := seq(|pairs|, k requires 0 <= k < |pairs| => Neighbours(xs, pairs[k]));
    forall a | a in xs ensures Degree(pairs, x, a) == 1 {
      NeighbourDegree(xs, x, a);
    }
    CoverageIsPerfectMatching(att, x);
  }

  // ---------------------------------------------------------------------------
  // Decoding the solution

  /** `np.argwhere(x == 1).flatten()`: the selected indices in increasing order. */
  function Argwhere(x: seq<bool>): (idx: seq<nat>)
    ensures |idx| == Selected(x)
    ensures forall s, t | 0 <= s < t < |idx| :: idx[s] < idx[t]
    ensures forall t | 0 <= t < |idx| :: idx[t] < |x| && x[idx[t]]
    ensures forall i | 0 <= i < |x| && x[i] :: i in idx
  {
    if x == [] then []
    else
      var m := |x|;
      Argwhere(x[..m - 1]) + (if x[m - 1] then [m - 1] else [])
  }

  /** The reported pairs with their distances: -cost of each selected pair. */
  function Report(pairs: seq<(Name, Name)>, costs: seq<real>, idx: seq<nat>): (ms: seq<Match>)
    requires |costs| == |pairs|
    requires forall t | 0 <= t < |idx| :: idx[t] < |pairs|
    ensures |ms| == |idx|
  {
    seq(|idx|, t requires 0 <= t < |idx| => Match(pairs[idx[t]], -costs[idx[t]]))
  }

  /** The script's output loop: each selected pair with its cost negated back, one match
      per selected pair and none for an unselected one. */
  function Decode(pairs: seq<(Name, Name)>, costs: seq<real>, x: seq<bool>): (ms: seq<Match>)
    requires |costs| == |pairs| == |x|
    ensures |ms| == Selected(x)
  {
    Report(pairs, costs, Argwhere(x))
  }

  /** m is a selected pair reported with its cost negated back. */
  ghost predicate FromSelected(pairs: seq<(Name, Name)>, costs: seq<real>, x: seq<bool>, m: Match)
    requires |costs| == |pairs| == |x|
  {
    exists i :: 0 <= i < |x| && x[i] && m == Match(pairs[i], -costs[i])
  }

  /** Every decoded match is a selected pair with its cost negated back, and every selected
      pair is decoded. */
  lemma DecodeSelects(pairs: seq<(Name, Name)>, costs: seq<real>, x: seq<bool>)
    requires |costs| == |pairs| == |x|
    ensures forall t | 0 <= t < |Decode(pairs, costs, x)| ::
      FromSelected(pairs, costs, x, Decode(pairs, costs, x)[t])
    ensures forall i | 0 <= i < |x| && x[i] :: Match(pairs[i], -costs[i]) in Decode(pairs, costs, x)
  {
    var idx, ms := Argwhere(x), Decode(pairs, costs, x);
    forall i | 0 <= i < |x| && x[i] ensures Match(pairs[i], -costs[i]) in ms {
      var t :| 0 <= t < |idx| && idx[t] == i;
      assert ms[t] == Match(pairs[i], -costs[i]);
    }
    forall t | 0 <= t < |ms| ensures FromSelected(pairs, costs, x, ms[t]) {
      var i := idx[t];
      assert 0 <= i < |x| && x[i] && ms[t] == Match(pairs[i], -costs[i]);
    }
  }

  /** The reported distance is the distance between the pair's two locations: negating
      the cost back undoes the negation in `get_neg_distance_between_points`. */
  lemma NegationRoundTrip(att: Attendees, dist: (Coord, Coord) -> real, x: seq<bool>, t: nat)
    requires Valid(att) && |x| == |PossiblePairs(att)|
    requires t < |Decode(PossiblePairs(att), Costs(att, dist), x)|
    ensures var m := Decode(PossiblePairs(att), Costs(att, dist), x)[t];
      && m.pair == PossiblePairs(att)[Argwhere(x)[t]]
      && m.pair.0 in att.located && m.pair.1 in att.located
      && m.km == dist(att.located[m.pair.0], att.located[m.pair.1])
  {
    CandidatesJoinTwoAttendees(att, Argwhere(x)[t]);
  }

  function TotalKm(ms: seq<Match>): real {
    if ms == [] then 0.0 else TotalKm(ms[..|ms| - 1]) + ms[|ms| - 1].km
  }

  lemma ReportAppend(pairs: seq<(Name, Name)>, costs: seq<real>, idx: seq<nat>, i: nat)
    requires |costs| == |pairs| && i < |pairs|
    requires forall t | 0 <= t < |idx| :: idx[t] < |pairs|
    ensures Report(pairs, costs, idx + [i]) == Report(pairs, costs, idx) + [Match(pairs[i], -costs[i])]
  {
  }

  /** The reported distances add up to minus the objective. */
  lemma {:induction false} ReportTotal(pairs: seq<(Name, Name)>, costs: seq<real>, x: seq<bool>)
    requires |costs| == |pairs| && |x| <= |pairs|
    ensures TotalKm(Report(pairs, costs, Argwhere(x))) == -Dot(costs[..|x|], x)
    decreases |x|
  {
    if x != [] {
      var m := |x|;
      var x' := x[..m - 1];
      ReportTotal(pairs, costs, x');
      var idx' := Argwhere(x');
      assert costs[..m][..m - 1] == costs[..m - 1];
      if x[m - 1] {
        assert Argwhere(x) == idx' + [m - 1];
        ReportAppend(pairs, costs, idx', m - 1);
        var after := Report(pairs, costs, idx' + [m - 1]);
        assert after[..|after| - 1] == Report(pairs, costs, idx');
      } else {
        assert Argwhere(x) == idx';
      }
    }
  }

  lemma DecodeTotal(pairs: seq<(Name, Name)>, costs: seq<real>, x: seq<bool>)
    requires |costs| == |pairs| == |x|
    ensures TotalKm(Decode(pairs, costs, x)) == -Dot(costs, x)
  {
    ReportTotal(pairs, costs, x);
    assert costs[..|x|] == costs;
  }

  /** Every attendee is in exactly one of the reported pairs. */
  ghost predicate EachOnce(names: seq<Name>, ms: seq<Match>) {
    && (forall a | a in names :: exists t :: 0 <= t < |ms| && Contains(ms[t].pair, a))
    && (forall a, t1, t2 | a in names && 0 <= t1 < |ms| && 0 <= t2 < |ms| &&
          Contains(ms[t1].pair, a) && Contains(ms[t2].pair, a) :: t1 == t2)
  }

  /** Every reported pair is a candidate pair, reported with the distance between its
      two attendees' locations. */
  ghost predicate TrueDistances(att: Attendees, dist: (Coord, Coord) -> real, ms: seq<Match>) {
    forall t | 0 <= t < |ms| ::
      && ms[t].pair in PossiblePairs(att)
      && ms[t].pair.0 in att.located && ms[t].pair.1 in att.located
      && ms[t].km == dist(att.located[ms[t].pair.0], att.located[ms[t].pair.1])
  }

  /** A perfect matching decodes to a list of pairs in which every attendee appears
      exactly once, half as many pairs as attendees. */
  lemma DecodedMatching(att: Attendees, costs: seq<real>, x: seq<bool>)
    requires Valid(att) && |x| == |PossiblePairs(att)| == |costs|
    requires PerfectMatching(att.names, PossiblePairs(att), x)
    ensures 2 * |Decode(PossiblePairs(att), costs, x)| == |att.names|
    ensures EachOnce(att.names, Decode(PossiblePairs(att), costs, x))
  {
    var pairs := PossiblePairs(att);
    var idx := Argwhere(x);
    var ms := Decode(pairs, costs, x);
    CoverageIsPerfectMatching(att, x);
    FeasibleSelectsHalf(att, x);
    forall a | a in att.names
      ensures exists t :: 0 <= t < |ms| && Contains(ms[t].pair, a)
      ensures forall t1, t2 | 0 <= t1 < |ms| && 0 <= t2 < |ms| &&
        Contains(ms[t1].pair, a) && Contains(ms[t2].pair, a) :: t1 == t2
    {
      DegreeOne(pairs, x, a);
      var i :| PicksOnly(pairs, x, a, i);
      var t :| 0 <= t < |idx| && idx[t] == i;
      assert Contains(ms[t].pair, a);
      forall t1, t2 | 0 <= t1 < |ms| && 0 <= t2 < |ms| &&
        Contains(ms[t1].pair, a) && Contains(ms[t2].pair, a)
        ensures t1 == t2
      {
        assert Picks(pairs, x, a, idx[t1]) && Picks(pairs, x, a, idx[t2]);
      }
    }
  }

  // ---------------------------------------------------------------------------
  // The whole run

  /** Build the candidates, the costs and the constraint, solve, and decode. */
  function PairAttendees(att: Attendees, dist: (Coord, Coord) -> real): (r: Outcome)
    requires Valid(att)
    ensures r.NoPairing? <==>
      forall y: seq<bool> | |y| == |PossiblePairs(att)| :: !Satisfies(Coverage(att), y)
    ensures r.Pairing? ==>
      exists x :: IsOptimal(Costs(att, dist), Coverage(att), x) &&
                  r.matches == Decode(PossiblePairs(att), Costs(att, dist), x)
  {
    var pairs := PossiblePairs(att);
    var costs := Costs(att, dist);
    match Solve(costs, Coverage(att))
    case Infeasible => NoPairing
    case Optimal(x) => Pairing(Decode(pairs, costs, x))
  }

  /** The run reports no pairing exactly when the roster has an odd number of attendees. */
  lemma NoPairingIffOdd(att: Attendees, dist: (Coord, Coord) -> real)
    requires Valid(att)
    ensures PairAttendees(att, dist).NoPairing? <==> |att.names| % 2 == 1
  {
    if |att.names| % 2 == 1 {
      OddRosterInfeasible(att);
    } else {
      EvenRosterFeasible(att);
    }
  }

  /** A reported pairing pairs every attendee exactly once, with n/2 pairs, each a
      candidate pair reported with its true distance. */
  lemma PairingIsPerfectMatching(att: Attendees, dist: (Coord, Coord) -> real)
    requires Valid(att) && |att.names| % 2 == 0
    ensures PairAttendees(att, dist).Pairing?
    ensures 2 * |PairAttendees(att, dist).matches| == |att.names|
    ensures EachOnce(att.names, PairAttendees(att, dist).matches)
    ensures TrueDistances(att, dist, PairAttendees(att, dist).matches)
  {
    var pairs, costs := PossiblePairs(att), Costs(att, dist);
    NoPairingIffOdd(att, dist);
    var x := Solve(costs, Coverage(att)).x;
    var ms := Decode(pairs, costs, x);
    assert PairAttendees(att, dist).matches == ms;
    CoverageIsPerfectMatching(att, x);
    DecodedMatching(att, costs, x);
    forall t | 0 <= t < |ms|
      ensures ms[t].pair in pairs
      ensures ms[t].pair.0 in att.located && ms[t].pair.1 in att.located
      ensures ms[t].km == dist(att.located[ms[t].pair.0], att.located[ms[t].pair.1])
    {
      NegationRoundTrip(att, dist, x, t);
    }
  }

  /** No perfect matching of candidate pairs has a larger total distance than the
      reported one. */
  lemma PairingMaximisesDistance(att: Attendees, dist: (Coord, Coord) -> real, y: seq<bool>)
    requires Valid(att) && PairAttendees(att, dist).Pairing?
    requires |y| == |PossiblePairs(att)| && PerfectMatching(att.names, PossiblePairs(att), y)
    ensures TotalKm(Decode(PossiblePairs(att), Costs(att, dist), y))
      <= TotalKm(PairAttendees(att, dist).matches)
  {
    var pairs, costs := PossiblePairs(att), Costs(att, dist);
    var x := Solve(costs, Coverage(att)).x;
    CoverageIsPerfectMatching(att, y);
    DecodeTotal(pairs, costs, x);
    DecodeTotal(pairs, costs, y);
  }

  // ---------------------------------------------------------------------------
  // The columns of the binarizer

  /** With two or more attendees the binarizer's classes are the sorted attendee names. */
  lemma BinarizerClassesAreColumns(att: Attendees)
    requires Valid(att) && |att.names| >= 2
    ensures BinarizerClasses(PossiblePairs(att)) == AttendeeColumns(att)
  {
    var xs, pairs := att.names, PossiblePairs(att);
    forall y ensures y in PairLabels(pairs) <==> y in xs {
      if y in xs {
        var m :| 0 <= m < |xs| && xs[m] == y;
        var other := if m == 0 then 1 else 0;
        if m < other { PairListed(xs, m, other); } else { PairListed(xs, other, m); }
        var k :| 0 <= k < |pairs| && (pairs[k] == (xs[m], xs[other]) || pairs[k] == (xs[other], xs[m]));
        assert Contains(pairs[k], y);
      }
      if y in PairLabels(pairs) {
        var k :| 0 <= k < |pairs| && Contains(pairs[k], y);
        CandidatesJoinTwoAttendees(att, k);
      }
    }
    SortedUnique(BinarizerClasses(pairs), AttendeeColumns(att));
  }

  /** As written, a lone attendee gets no column: the binarizer sees no pair, the
      constraint has no row, and the empty selection meets it although nobody is paired. */
  lemma LoneAttendeeSlipsThrough(a: Name, at: Coord)
    ensures var att := Attendees([a], map[a := at]);
      var pairs := PossiblePairs(att);
      var asWritten := Constraint(Incidence(pairs, BinarizerClasses(pairs)), |BinarizerClasses(pairs)|, 1, 1);
      && Valid(att)
      && pairs == [] && BinarizerClasses(pairs) == []
      && Shaped(asWritten) && Satisfies(asWritten, [])
      && !PerfectMatching(att.names, pairs, [])
      && !Satisfies(Coverage(att), [])
  {
    var att := Attendees([a], map[a := at]);
    var pairs := PossiblePairs(att);
    assert pairs == [];
    assert PairLabels(pairs) == [];
    assert Degree(pairs, [], a) == 0;
    OddRosterInfeasible(att);
  }

  // ---------------------------------------------------------------------------
  // What the script prints

  /** The printed pairs. When `milp` finds no solution `solution.x` is None, `None == 1`
      is False, and `np.argwhere` selects nothing, so nothing is printed: an odd roster
      prints nothing, just like the empty roster, and an even one prints a perfect matching. */
  function Printed(att: Attendees, dist: (Coord, Coord) -> real): (r: seq<Match>)
    requires Valid(att)
    ensures r == [] <==> |att.names| % 2 == 1 || |att.names| == 0
    ensures |att.names| % 2 == 0 ==>
      && 2 * |r| == |att.names|
      && EachOnce(att.names, r)
      && TrueDistances(att, dist, r)
  {
    NoPairingIffOdd(att, dist);
    match PairAttendees(att, dist)
    case NoPairing => []
    case Pairing(ms) =>
      PairingIsPerfectMatching(att, dist);
      ms
  }
}
