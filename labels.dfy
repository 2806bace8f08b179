/** Column labels of the attendee matrix: the sorted distinct labels that a
    `MultiLabelBinarizer` keeps as its classes, with Python's `<` on `str`
    (code point by code point, a proper prefix first). */
module Labels {

  /** Python's `a < b` on strings. */
  predicate Below(a: string, b: string)
    decreases |a|
  {
    |b| > 0 && (|a| == 0 || a[0] < b[0] || (a[0] == b[0] && Below(a[1..], b[1..])))
  }

  lemma {:induction false} BelowIrreflexive(a: string)
    ensures !Below(a, a)
    decreases |a|
  {
    if |a| > 0 { BelowIrreflexive(a[1..]); }
  }

  lemma {:induction false} BelowAsymmetric(a: string, b: string)
    ensures Below(a, b) ==> !Below(b, a)
    decreases |a|
  {
    if |a| > 0 && |b| > 0 && a[0] == b[0] { BelowAsymmetric(a[1..], b[1..]); }
  }

  /** Two different names are always ordered one way or the other. */
  lemma {:induction false} BelowTotal(a: string, b: string)
    ensures a == b || Below(a, b) || Below(b, a)
    decreases |a|
  {
    if |a| > 0 && |b| > 0 && a[0] == b[0] {
      BelowTotal(a[1..], b[1..]);
      if a[1..] == b[1..] {
        assert a == [a[0]] + a[1..] && b == [b[0]] + b[1..];
      }
    }
  }

  lemma {:induction false} BelowTransitive(a: string, b: string, c: string)
    requires Below(a, b) && Below(b, c)
    ensures Below(a, c)
    decreases |a|
  {
    if |a| > 0 && a[0] == b[0] && b[0] == c[0] { BelowTransitive(a[1..], b[1..], c[1..]); }
  }

  predicate StrictlySorted(s: seq<string>) {
    forall i, j | 0 <= i < j < |s| :: Below(s[i], s[j])
  }

  /** Inserts x into a strictly sorted list unless it is already there. */
  function Insert(x: string, s: seq<string>): (r: seq<string>)
    requires StrictlySorted(s)
    ensures StrictlySorted(r)
    ensures forall y :: y in r <==> y == x || y in s
    ensures |r| == if x in s then |s| else |s| + 1
  {
    if s == [] then [x]
    else if x == s[0] then s
    else if Below(x, s[0]) then
      assert forall j | 0 < j < |s| :: Below(x, s[j]) by {
        forall j | 0 < j < |s| ensures Below(x, s[j]) {
          BelowTransitive(x, s[0], s[j]);
        }
      }
      BelowIrreflexive(x);
      [x] + s
    else
      BelowTotal(x, s[0]);
      BelowIrreflexive(s[0]);
      var r := [s[0]] + Insert(x, s[1..]);
      assert forall j | 0 < j < |r| :: Below(s[0], r[j]) by {
        forall j | 0 < j < |r| ensures Below(s[0], r[j]) {
          assert r[j] in Insert(x, s[1..]);
          if r[j] != x {
            var i :| 0 <= i < |s[1..]| && s[1..][i] == r[j];
            assert s[i + 1] == r[j];
          }
        }
      }
      r
  }

  /** The sorted distinct labels of a list (`MultiLabelBinarizer().fit(...).classes_`). */
  function Classes(labels: seq<string>): (r: seq<string>)
    ensures StrictlySorted(r)
    ensures forall y :: y in r <==> y in labels
    ensures |r| <= |labels|
  {
    if labels == [] then [] else Insert(labels[0], Classes(labels[1..]))
  }

  /** Over distinct labels no label is dropped, so there is one class per label. */
  lemma {:induction false} ClassesOfDistinct(labels: seq<string>)
    requires forall i, j | 0 <= i < j < |labels| :: labels[i] != labels[j]
    ensures |Classes(labels)| == |labels|
  {
    if labels != [] {
      ClassesOfDistinct(labels[1..]);
      assert labels[0] !in labels[1..];
    }
  }

  /** A strictly sorted list is determined by its elements: the class order is unique. */
  lemma {:induction false} SortedUnique(s: seq<string>, t: seq<string>)
    requires StrictlySorted(s) && StrictlySorted(t)
    requires forall y :: y in s <==> y in t
    ensures s == t
    decreases |s|
  {
    assert s != [] ==> s[0] in t;
    assert t != [] ==> t[0] in s;
    if s != [] && t != [] {
      assert s[0] in t && t[0] in s;
      var i :| 0 <= i < |t| && t[i] == s[0];
      var j :| 0 <= j < |s| && s[j] == t[0];
      if i != 0 && j != 0 {
        BelowAsymmetric(t[0], s[0]);
        assert false;
      }
      assert s[0] == t[0];
      forall y ensures y in s[1..] <==> y in t[1..] {
        if y in s[1..] {
          var k :| 0 <= k < |s[1..]| && s[1..][k] == y;
          BelowIrreflexive(y);
          assert s[k + 1] == y && y != s[0];
          assert y in t;
          var m :| 0 <= m < |t| && t[m] == y;
          assert t[1..][m - 1] == y;
        }
        if y in t[1..] {
          var k :| 0 <= k < |t[1..]| && t[1..][k] == y;
          BelowIrreflexive(y);
          assert t[k + 1] == y && y != t[0];
          assert y in s;
          var m :| 0 <= m < |s| && s[m] == y;
          assert s[1..][m - 1] == y;
        }
      }
      SortedUnique(s[1..], t[1..]);
    }
  }

  /** The column that holds label a. */
  function Column(cols: seq<string>, a: string): (k: nat)
    requires a in cols
    ensures k < |cols| && cols[k] == a
  {
    if cols[0] == a then 0 else 1 + Column(cols[1..], a)
  }

  /** With strictly sorted columns, the column map is the name order: a's column comes
      before b's exactly when a sorts before b. */
  lemma ColumnOrder(cols: seq<string>, a: string, b: string)
    requires StrictlySorted(cols) && a in cols && b in cols
    ensures Below(a, b) <==> Column(cols, a) < Column(cols, b)
  {
    var i, j := Column(cols, a), Column(cols, b);
    BelowIrreflexive(a);
    BelowAsymmetric(a, b);
    if j < i { assert Below(cols[j], cols[i]); }
  }
}
