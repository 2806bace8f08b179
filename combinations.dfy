/** Candidate generation: `itertools.combinations(xs, 2)`, the pairs (xs[i], xs[j])
    with i < j, listed in lexicographic order of the index pair (i, j). */
module Combinations {

  /** No element occurs twice (the keys of a dictionary). */
  predicate Distinct<T(==)>(xs: seq<T>) {
    forall i, j | 0 <= i < j < |xs| :: xs[i] != xs[j]
  }

  /** The pairs whose first component is xs[0]: (xs[0], xs[1]), ..., (xs[0], xs[|xs| - 1]). */
  function Leading<T>(xs: seq<T>): seq<(T, T)>
    requires |xs| > 0
  {
    seq(|xs| - 1, k requires 0 <= k < |xs| - 1 => (xs[0], xs[k + 1]))
  }

  /** `combinations(xs, 2)`: one entry per pair of positions, n(n-1)/2 of them. */
  function Pairs<T>(xs: seq<T>): (r: seq<(T, T)>)
    ensures |r| == |xs| * (|xs| - 1) / 2
    decreases |xs|
  {
    if |xs| < 2 then []
    else
      var rest := Pairs(xs[1..]);
      var n := |xs|;
      assert n * (n - 1) == 2 * (n - 1) + (n - 1) * (n - 2);
      Leading(xs) + rest
  }

  /** Every entry is (xs[i], xs[j]) for some positions i < j. */
  lemma {:induction false} PairAt<T>(xs: seq<T>, k: nat)
    requires k < |Pairs(xs)|
    ensures exists i, j :: 0 <= i < j < |xs| && Pairs(xs)[k] == (xs[i], xs[j])
    decreases |xs|
  {
    if k < |xs| - 1 {
      assert Pairs(xs)[k] == (xs[0], xs[k + 1]);
    } else {
      var tail := xs[1..];
      var k' := k - (|xs| - 1);
      PairAt(tail, k');
      var i, j :| 0 <= i < j < |tail| && Pairs(tail)[k'] == (tail[i], tail[j]);
      assert Pairs(xs)[k] == (xs[i + 1], xs[j + 1]);
    }
  }

  /** Every pair of positions i < j is listed. */
  lemma {:induction false} PairListed<T>(xs: seq<T>, i: nat, j: nat)
    requires i < j < |xs|
    ensures exists k :: 0 <= k < |Pairs(xs)| && Pairs(xs)[k] == (xs[i], xs[j])
    decreases |xs|
  {
    if i == 0 {
      assert Pairs(xs)[j - 1] == (xs[0], xs[j]);
    } else {
      var tail := xs[1..];
      PairListed(tail, i - 1, j - 1);
      var k' :| 0 <= k' < |Pairs(tail)| && Pairs(tail)[k'] == (tail[i - 1], tail[j - 1]);
      assert Pairs(xs)[|xs| - 1 + k'] == (xs[i], xs[j]);
    }
  }

  /** Over distinct elements no pair is listed twice. */
  lemma {:induction false} PairsDistinct<T>(xs: seq<T>)
    requires Distinct(xs)
    ensures Distinct(Pairs(xs))
    decreases |xs|
  {
    if |xs| >= 2 {
      var tail := xs[1..];
      var lead := Leading(xs);
      PairsDistinct(tail);
      forall k1, k2 | 0 <= k1 < k2 < |Pairs(xs)|
        ensures Pairs(xs)[k1] != Pairs(xs)[k2]
      {
        if k2 >= |lead| {
          var k2' := k2 - |lead|;
          PairAt(tail, k2');
          var i, j :| 0 <= i < j < |tail| && Pairs(tail)[k2'] == (tail[i], tail[j]);
          if k1 < |lead| {
            assert Pairs(xs)[k1].0 == xs[0] != xs[i + 1] == Pairs(xs)[k2].0;
          } else {
            assert Pairs(tail)[k1 - |lead|] != Pairs(tail)[k2'];
          }
        }
      }
    }
  }

  /** A listed pair always has its earlier element first. */
  lemma PairForward<T>(xs: seq<T>, k: nat, i: nat, j: nat)
    requires Distinct(xs) && k < |Pairs(xs)| && i < |xs| && j < |xs|
    requires Pairs(xs)[k] == (xs[i], xs[j])
    ensures i < j
  {
    PairAt(xs, k);
  }

  /** Every unordered pair {a, b} of distinct elements is listed exactly once, as (a, b)
      or as (b, a), with the earlier element first. */
  lemma UnorderedPairOnce<T>(xs: seq<T>, a: T, b: T)
    requires Distinct(xs) && a in xs && b in xs && a != b
    ensures exists k :: 0 <= k < |Pairs(xs)| && (Pairs(xs)[k] == (a, b) || Pairs(xs)[k] == (b, a))
    ensures forall k1, k2 ::
      (0 <= k1 < |Pairs(xs)| && 0 <= k2 < |Pairs(xs)| &&
       (Pairs(xs)[k1] == (a, b) || Pairs(xs)[k1] == (b, a)) &&
       (Pairs(xs)[k2] == (a, b) || Pairs(xs)[k2] == (b, a))) ==> k1 == k2
  {
    var ia :| 0 <= ia < |xs| && xs[ia] == a;
    var ib :| 0 <= ib < |xs| && xs[ib] == b;
    PairsDistinct(xs);
    if ia < ib {
      PairListed(xs, ia, ib);
      forall k | 0 <= k < |Pairs(xs)| && Pairs(xs)[k] == (b, a) ensures false {
        PairForward(xs, k, ib, ia);
      }
    } else {
      PairListed(xs, ib, ia);
      forall k | 0 <= k < |Pairs(xs)| && Pairs(xs)[k] == (a, b) ensures false {
        PairForward(xs, k, ia, ib);
      }
    }
  }

  /** An entry of the leading block is (xs[0], xs[k + 1]). */
  lemma LeadingEntry<T>(xs: seq<T>, k: nat, i: nat, j: nat)
    requires Distinct(xs) && k < |xs| - 1 && i < |xs| && j < |xs|
    requires Pairs(xs)[k] == (xs[i], xs[j])
    ensures i == 0 && j == k + 1
  {
    assert Pairs(xs)[k] == Leading(xs)[k];
  }

  /** An entry past the leading block is the matching entry of the tail's pairs. */
  lemma TailEntry<T>(xs: seq<T>, k: nat, i: nat, j: nat)
    requires Distinct(xs) && |xs| - 1 <= k < |Pairs(xs)| && i < j < |xs|
    requires Pairs(xs)[k] == (xs[i], xs[j])
    ensures 1 <= i && Pairs(xs[1..])[k - (|xs| - 1)] == (xs[1..][i - 1], xs[1..][j - 1])
  {
    var tail := xs[1..];
    assert Pairs(xs)[k] == Pairs(tail)[k - (|xs| - 1)];
    PairAt(tail, k - (|xs| - 1));
    var a, b :| 0 <= a < b < |tail| && Pairs(tail)[k - (|xs| - 1)] == (tail[a], tail[b]);
    assert xs[i] == xs[a + 1];
  }

  /** The pairs come in lexicographic order of their positions: an earlier entry has the
      smaller first position, or the same first position and the smaller second one. */
  lemma {:induction false} PairsInOrder<T>(xs: seq<T>, k1: nat, k2: nat, i1: nat, j1: nat, i2: nat, j2: nat)
    requires Distinct(xs) && k1 < k2 < |Pairs(xs)|
    requires i1 < j1 < |xs| && i2 < j2 < |xs|
    requires Pairs(xs)[k1] == (xs[i1], xs[j1]) && Pairs(xs)[k2] == (xs[i2], xs[j2])
    ensures i1 < i2 || (i1 == i2 && j1 < j2)
    decreases |xs|
  {
    var lead := |xs| - 1;
    if k2 < lead {
      LeadingEntry(xs, k1, i1, j1);
      LeadingEntry(xs, k2, i2, j2);
    } else if k1 < lead {
      LeadingEntry(xs, k1, i1, j1);
      TailEntry(xs, k2, i2, j2);
    } else {
      TailEntry(xs, k1, i1, j1);
      TailEntry(xs, k2, i2, j2);
      PairsInOrder(xs[1..], k1 - lead, k2 - lead, i1 - 1, j1 - 1, i2 - 1, j2 - 1);
    }
  }
}
