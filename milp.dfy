/** The binary linear program handed to `scipy.optimize.milp`: minimise c·x over
    0/1 vectors x (`integrality=1`, `Bounds(0, 1)`) subject to one
    `LinearConstraint(A.T, lb, ub)`, i.e. lb <= (Aᵀx)[k] <= ub for every column k of A.
    The solver itself is given by its contract; `Solve` is a reference that meets it by
    enumerating every binary vector. */
module Milp {

  /** Solver output: an optimal binary vector, or the report that none is feasible. */
  datatype Solution = Optimal(x: seq<bool>) | Infeasible

  /** `LinearConstraint(a.T, lb, ub)`; `width` is the number of columns of a. */
  datatype Constraint = Constraint(a: seq<seq<int>>, width: nat, lb: int, ub: int)

  /** Every row of the matrix has `width` entries. */
  predicate Shaped(con: Constraint) {
    forall i | 0 <= i < |con.a| :: |con.a[i]| == con.width
  }

  function Bit(b: bool): int { if b then 1 else 0 }

  /** Number of selected variables. */
  function Selected(x: seq<bool>): (r: nat)
    ensures r <= |x|
  {
    if x == [] then 0 else Selected(x[..|x| - 1]) + Bit(x[|x| - 1])
  }

  /** The objective c·x. */
  function Dot(c: seq<real>, x: seq<bool>): real
    requires |c| == |x|
  {
    if x == [] then 0.0
    else Dot(c[..|c| - 1], x[..|x| - 1]) + (if x[|x| - 1] then c[|c| - 1] else 0.0)
  }

  /** Entry k of Aᵀx: the sum of column k over the selected rows. */
  function ColumnDot(a: seq<seq<int>>, k: nat, x: seq<bool>): int
    requires |x| == |a|
    requires forall i | 0 <= i < |a| :: k < |a[i]|
  {
    if x == [] then 0
    else ColumnDot(a[..|a| - 1], k, x[..|x| - 1]) + (if x[|x| - 1] then a[|a| - 1][k] else 0)
  }

  /** x meets every row of the constraint. */
  predicate Satisfies(con: Constraint, x: seq<bool>)
    requires Shaped(con) && |x| == |con.a|
  {
    forall k | 0 <= k < con.width :: con.lb <= ColumnDot(con.a, k, x) <= con.ub
  }

  /** What `milp` promises of a returned vector: it is feasible and no feasible binary
      vector has a smaller objective. */
  ghost predicate IsOptimal(c: seq<real>, con: Constraint, x: seq<bool>)
    requires Shaped(con) && |c| == |con.a|
  {
    && |x| == |c|
    && Satisfies(con, x)
    && forall y: seq<bool> | |y| == |c| && Satisfies(con, y) :: Dot(c, x) <= Dot(c, y)
  }

  /** Every vector of `vs` extended by the bit b. */
  function Extend(vs: seq<seq<bool>>, b: bool): seq<seq<bool>> {
    seq(|vs|, i requires 0 <= i < |vs| => vs[i] + [b])
  }

  /** All 2^m binary vectors of length m. */
  function Vectors(m: nat): (r: seq<seq<bool>>)
    ensures forall i | 0 <= i < |r| :: |r[i]| == m
  {
    if m == 0 then [[]]
    else
      var shorter := Vectors(m - 1);
      Extend(shorter, false) + Extend(shorter, true)
  }

  /** Extending a listed vector by b gives a listed vector. */
  lemma ExtendHas(vs: seq<seq<bool>>, b: bool, w: seq<bool>)
    requires w in vs
    ensures w + [b] in Extend(vs, b)
  {
    var i :| 0 <= i < |vs| && vs[i] == w;
    assert Extend(vs, b)[i] == w + [b];
  }

  /** The enumeration misses no vector. */
  lemma {:induction false} VectorsComplete(v: seq<bool>)
    ensures v in Vectors(|v|)
  {
    if v != [] {
      var m := |v|;
      var w := v[..m - 1];
      VectorsComplete(w);
      var prev := Vectors(m - 1);
      ExtendHas(prev, v[m - 1], w);
      assert v == w + [v[m - 1]];
      assert Vectors(m) == Extend(prev, false) + Extend(prev, true);
    }
  }

  /** The first feasible vector of vs with the least objective, or None if none is feasible. */
  function Best(c: seq<real>, con: Constraint, vs: seq<seq<bool>>): (r: Option)
    requires Shaped(con) && |c| == |con.a|
    requires forall v | v in vs :: |v| == |c|
    ensures r.None? <==> forall v | v in vs :: !Satisfies(con, v)
    ensures r.Some? ==> r.x in vs && Satisfies(con, r.x)
    ensures r.Some? ==> forall v | v in vs && Satisfies(con, v) :: Dot(c, r.x) <= Dot(c, v)
  {
    if vs == [] then None
    else
      var rest := Best(c, con, vs[1..]);
      if !Satisfies(con, vs[0]) then rest
      else if rest.None? || Dot(c, vs[0]) <= Dot(c, rest.x) then Some(vs[0])
      else rest
  }

  datatype Option = None | Some(x: seq<bool>)

  /** The solver: an optimal binary vector when the constraint can be met at all. */
  function Solve(c: seq<real>, con: Constraint): (r: Solution)
    requires Shaped(con) && |c| == |con.a|
    ensures r.Optimal? ==> IsOptimal(c, con, r.x)
    ensures r.Infeasible? <==> forall y: seq<bool> | |y| == |c| :: !Satisfies(con, y)
  {
    var vs := Vectors(|c|);
    match Best(c, con, vs)
    case None =>
      assert forall y: seq<bool> | |y| == |c| :: !Satisfies(con, y) by {
        forall y: seq<bool> | |y| == |c| ensures !Satisfies(con, y) { VectorsComplete(y); }
      }
      Infeasible
    case Some(x) =>
      assert forall y: seq<bool> | |y| == |c| && Satisfies(con, y) :: Dot(c, x) <= Dot(c, y) by {
        forall y: seq<bool> | |y| == |c| && Satisfies(con, y) ensures Dot(c, x) <= Dot(c, y) {
          VectorsComplete(y);
        }
      }
      Optimal(x)
  }
}
