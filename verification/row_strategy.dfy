/** Row strategy of gauss_rankin (lines 450-479): the remaining rows are
    visited by increasing number of entries, ties by row index (a
    `std::multimap` keyed by size, filled in row order), and the first row
    that yields a pivot is chosen. With the policy
    PrivilegiateNoColumnPivoting a first pass looks for a row whose head
    already sits in the pivot column with an odd coefficient. */
module RowStrategy {
  import opened Arith
  import opened SparseRow
  import opened PivotSearch

  /** Row a is visited before row b. */
  predicate Precedes(rows: seq<Row>, a: nat, b: nat)
    requires a < |rows| && b < |rows|
  {
    |rows[a]| < |rows[b]| || (|rows[a]| == |rows[b]| && a < b)
  }

  predicate InRange(order: seq<nat>, n: nat)
  {
    forall t :: 0 <= t < |order| ==> order[t] < n
  }

  predicate SizeOrdered(rows: seq<Row>, order: seq<nat>)
    requires InRange(order, |rows|)
  {
    forall s, t :: 0 <= s < t < |order| ==> Precedes(rows, order[s], order[t])
  }

  /** `psizes.insert(psizes.end(), (size, i))`: i goes after every row that
      is no larger. */
  function InsertBySize(rows: seq<Row>, order: seq<nat>, i: nat): (r: seq<nat>)
    requires i < |rows| && InRange(order, |rows|)
    ensures InRange(r, |rows|)
    ensures |r| == |order| + 1
    ensures forall q :: q in r <==> q in order || q == i
  {
    if |order| == 0 then [i]
    else if Precedes(rows, i, order[0]) then [i] + order
    else
      assert order == [order[0]] + order[1..];
      [order[0]] + InsertBySize(rows, order[1..], i)
  }

  /** Inserting a new row keeps the order sorted. */
  lemma {:induction false} InsertSorted(rows: seq<Row>, order: seq<nat>, i: nat)
    requires i < |rows| && InRange(order, |rows|)
    requires SizeOrdered(rows, order) && i !in order
    ensures SizeOrdered(rows, InsertBySize(rows, order, i))
    decreases |order|
  {
    var r := InsertBySize(rows, order, i);
    if |order| > 0 {
      assert order == [order[0]] + order[1..];
      if Precedes(rows, i, order[0]) {
        forall s, t | 0 <= s < t < |r|
          ensures Precedes(rows, r[s], r[t])
        {
          if s == 0 && t > 1 {
            assert Precedes(rows, order[0], order[t - 1]);
          }
        }
      } else {
        var rest := InsertBySize(rows, order[1..], i);
        assert SizeOrdered(rows, order[1..]);
        InsertSorted(rows, order[1..], i);
        assert r == [order[0]] + rest;
        forall s, t | 0 <= s < t < |r|
          ensures Precedes(rows, r[s], r[t])
        {
          if s == 0 {
            var x := rest[t - 1];
            assert x in rest;
            if x != i {
              var u :| 0 <= u < |order[1..]| && order[1..][u] == x;
              assert Precedes(rows, order[0], order[u + 1]);
            } else {
              assert i != order[0];
            }
          } else {
            assert r[s] == rest[s - 1] && r[t] == rest[t - 1];
          }
        }
      }
    }
  }

  /** The multimap of lines 454-456 for rows k .. n-1, in iteration order. */
  function SizeOrder(rows: seq<Row>, k: nat, n: nat): (r: seq<nat>)
    requires k <= n <= |rows|
    ensures InRange(r, |rows|) && SizeOrdered(rows, r)
    ensures forall q :: q in r <==> k <= q < n
    ensures |r| == n - k
    decreases n - k
  {
    if n == k then []
    else
      var prev := SizeOrder(rows, k, n - 1);
      InsertSorted(rows, prev, n - 1);
      InsertBySize(rows, prev, n - 1)
  }

  /** In a size order, visiting order is the order Precedes. */
  lemma OrderPosition(rows: seq<Row>, order: seq<nat>, s: nat, t: nat)
    requires InRange(order, |rows|) && SizeOrdered(rows, order)
    requires s < |order| && t < |order| && Precedes(rows, order[s], order[t])
    ensures s < t
  {
    if t < s {
    } else if t == s {
    }
  }

  /** The first position at or after j whose row satisfies P. */
  function FirstWhere(order: seq<nat>, j: nat, P: nat -> bool): (t: nat)
    requires j <= |order|
    ensures j <= t <= |order|
    ensures forall u :: j <= u < t ==> !P(order[u])
    ensures t < |order| ==> P(order[t])
    decreases |order| - j
  {
    if j == |order| then j
    else if P(order[j]) then j
    else FirstWhere(order, j + 1, P)
  }

  datatype Selection =
    | Selected(p: nat, c: int, rows: seq<Row>, indcol: nat, density: Density)
    | NoPivot

  /** No row from k on is empty or holds an odd coefficient: the row
      strategy finds no pivot. */
  predicate NoPivotFrom(rows: seq<Row>, k: nat)
  {
    forall q :: k <= q < |rows| ==> |rows[q]| > 0 && NoOdd(rows[q])
  }

  /** No row from k on has an odd head in column indcol. */
  predicate NoHitFrom(rows: seq<Row>, k: nat, indcol: nat)
  {
    forall q :: k <= q < |rows| ==> !SameColumnHit(rows[q], indcol)
  }

  /** Some row from k on is empty. */
  predicate EmptyFrom(rows: seq<Row>, k: nat)
  {
    exists q :: k <= q < |rows| && rows[q] == []
  }

  /** Every row from k on visited before row p is nonempty and even. */
  predicate NoPivotBefore(rows: seq<Row>, k: nat, p: nat)
    requires p < |rows|
  {
    forall q :: k <= q < |rows| && Precedes(rows, q, p) ==> |rows[q]| > 0 && NoOdd(rows[q])
  }

  /** No row from k on visited before row p has an odd head in column
      indcol. */
  predicate NoHitBefore(rows: seq<Row>, k: nat, p: nat, indcol: nat)
    requires p < |rows|
  {
    forall q :: k <= q < |rows| && Precedes(rows, q, p) ==> !SameColumnHit(rows[q], indcol)
  }

  /** SameColumnPivotingTrait with the policy on (lines 169-182): the
      position in the order of the first row SameColumnPivoting accepts,
      |order| when there is none. */
  function SameColumnAt(rows: seq<Row>, order: seq<nat>, indcol: nat): (t: nat)
    requires InRange(order, |rows|)
    ensures t <= |order|
    ensures forall u :: 0 <= u < t ==> !SameColumnHit(rows[order[u]], indcol)
    ensures t < |order| ==> SameColumnHit(rows[order[t]], indcol)
  {
    FirstWhere(order, 0, (q: nat) => q < |rows| && SameColumnPivoting(rows[q], indcol, -2, true).indpermut > -2)
  }

  /** The CherchePivot loop of lines 473-477: the position of the first row
      for which CherchePivot answers something other than -2. */
  function PivotAt(rows: seq<Row>, order: seq<nat>, indcol: nat, d: Density): (t: nat)
    requires InRange(order, |rows|)
    ensures t <= |order|
    ensures forall u :: 0 <= u < t ==> |rows[order[u]]| > 0 && NoOdd(rows[order[u]])
    ensures t < |order| ==> |rows[order[t]]| == 0 || !NoOdd(rows[order[t]])
  {
    FirstWhere(order, 0, (q: nat) => q < |rows| && CherchePivot(rows[q], indcol, d).pick.indpermut > -2)
  }

  /** A row visited before the row at position u sits at an earlier
      position. */
  lemma PrecedingPosition(rows: seq<Row>, k: nat, q: nat, u: nat)
    requires k <= q < |rows| && u < |rows| - k
    requires Precedes(rows, q, SizeOrder(rows, k, |rows|)[u])
    ensures exists v :: 0 <= v < u && SizeOrder(rows, k, |rows|)[v] == q
  {
    var order := SizeOrder(rows, k, |rows|);
    assert q in order;
    var v :| 0 <= v < |order| && order[v] == q;
    OrderPosition(rows, order, v, u);
  }

  /** Every row k .. |rows|-1 sits somewhere in the order. */
  lemma Visited(rows: seq<Row>, k: nat, q: nat)
    requires k <= q < |rows|
    ensures exists v :: 0 <= v < |rows| - k && SizeOrder(rows, k, |rows|)[v] == q
  {
    var order := SizeOrder(rows, k, |rows|);
    assert q in order;
  }

  /** SameColumnPivotingTrait with the policy on (lines 169-182), over the
      rows k .. |rows|-1: NoPivot when it returns false. */
  function SameColumnPass(rows: seq<Row>, k: nat, indcol: nat, d: Density): (s: Selection)
    requires k < |rows|
    ensures s.NoPivot? <==> NoHitFrom(rows, k, indcol)
    ensures s.Selected? ==>
              && k <= s.p < |rows| && SameColumnHit(rows[s.p], indcol)
              && s.c == indcol && s.rows == rows && s.indcol == indcol + 1 && s.density == d
              && NoHitBefore(rows, k, s.p, indcol)
  {
    var order := SizeOrder(rows, k, |rows|);
    var t := SameColumnAt(rows, order, indcol);
    if t < |order| then
      var p := order[t];
      var pick := SameColumnPivoting(rows[p], indcol, -2, true);
      assert p in order;
      assert forall q :: k <= q < |rows| && Precedes(rows, q, p) ==> !SameColumnHit(rows[q], indcol) by {
        forall q | k <= q < |rows| && Precedes(rows, q, p)
          ensures !SameColumnHit(rows[q], indcol)
        {
          PrecedingPosition(rows, k, q, t);
        }
      }
      Selected(p, pick.indpermut, rows, pick.indcol, d)
    else
      assert forall q :: k <= q < |rows| ==> !SameColumnHit(rows[q], indcol) by {
        forall q | k <= q < |rows|
          ensures !SameColumnHit(rows[q], indcol)
        {
          Visited(rows, k, q);
        }
      }
      NoPivot
  }

  /** The pivot row r was made from row by placing an odd entry at the
      head, relabelled with column indcol. */
  ghost predicate PivotedRow(r: Row, row: Row, indcol: nat)
  {
    |r| > 0 && r[0].col == indcol && IsOdd(r[0].coeff) && SameCoeffs(r, row)
  }

  /** On a sorted row of the active submatrix the pivot search is the
      exchange of columns indcol and c. */
  ghost predicate ColumnExchange(r: Row, row: Row, indcol: nat, c: int)
  {
    Sorted(row) && ColsFrom(row, indcol) ==> c >= indcol && Sorted(r) && SwapsColumns(r, row, indcol, c)
  }

  /** c is the column of the sparsest odd entry of the row. */
  ghost predicate SparsestColumn(row: Row, d: Density, c: int)
  {
    forall j: nat :: IsSparsestOdd(row, d, j) ==> c == row[j].col
  }

  /** CherchePivot's contract in the terms of the row strategy. */
  lemma CherchePivotOutcome(row: Row, indcol: nat, d: Density)
    requires |row| > 0 && !NoOdd(row)
    ensures CherchePivot(row, indcol, d).pick.indpermut >= 0
    ensures CherchePivot(row, indcol, d).pick.indcol == indcol + 1
    ensures PivotedRow(CherchePivot(row, indcol, d).pick.row, row, indcol)
    ensures ColumnExchange(CherchePivot(row, indcol, d).pick.row, row, indcol, CherchePivot(row, indcol, d).pick.indpermut)
    ensures SparsestColumn(row, d, CherchePivot(row, indcol, d).pick.indpermut)
  {
    var r := CherchePivot(row, indcol, d);
    var j: nat :| IsSparsestOdd(row, d, j);
  }

  /** The CherchePivot loop of lines 473-477 over the rows k .. |rows|-1:
      the first row in size order that is empty (answer -1) or holds an odd
      coefficient (a pivot column); NoPivot when every answer is -2. */
  function DensityPass(rows: seq<Row>, k: nat, indcol: nat, d: Density): (s: Selection)
    requires k < |rows|
    ensures s.NoPivot? <==> NoPivotFrom(rows, k)
    ensures s.Selected? ==>
              && k <= s.p < |rows| && |s.rows| == |rows| && s.rows == rows[s.p := s.rows[s.p]]
              && (s.c == -1 || s.c >= 0)
              && NoPivotBefore(rows, k, s.p)
    ensures s.Selected? && s.c == -1 ==>
              rows[s.p] == [] && s.rows == rows && s.indcol == indcol && s.density == d
    ensures s.Selected? && s.c >= 0 ==>
              && s.indcol == indcol + 1
              && PivotedRow(s.rows[s.p], rows[s.p], indcol)
              && ColumnExchange(s.rows[s.p], rows[s.p], indcol, s.c)
              && SparsestColumn(rows[s.p], d, s.c)
  {
    var order := SizeOrder(rows, k, |rows|);
    var u := PivotAt(rows, order, indcol, d);
    if u == |order| then
      assert forall q :: k <= q < |rows| ==> |rows[q]| > 0 && NoOdd(rows[q]) by {
        forall q | k <= q < |rows|
          ensures |rows[q]| > 0 && NoOdd(rows[q])
        {
          Visited(rows, k, q);
        }
      }
      NoPivot
    else
      var p := order[u];
      var sr := CherchePivot(rows[p], indcol, d);
      assert forall q :: k <= q < |rows| && Precedes(rows, q, p) ==> |rows[q]| > 0 && NoOdd(rows[q]) by {
        forall q | k <= q < |rows| && Precedes(rows, q, p)
          ensures |rows[q]| > 0 && NoOdd(rows[q])
        {
          PrecedingPosition(rows, k, q, u);
        }
      }
      assert p in order;
      assert |rows[p]| > 0 ==> sr.pick.indpermut >= 0 by {
        if |rows[p]| > 0 {
          CherchePivotOutcome(rows[p], indcol, d);
        }
      }
      Selected(p, sr.pick.indpermut, rows[p := sr.pick.row], sr.pick.indcol, sr.density)
  }

  /** One attempt of the row strategy at step k (lines 469-477): with the
      policy on, the same-column pass first; then the density pass. NoPivot
      when every remaining row is nonempty and even. */
  function TrySelect(rows: seq<Row>, k: nat, indcol: nat, d: Density, sameColumnFirst: bool): (s: Selection)
    requires k < |rows|
    ensures s.NoPivot? <==> NoPivotFrom(rows, k)
    ensures s.Selected? ==>
              && k <= s.p < |rows| && |s.rows| == |rows| && s.rows == rows[s.p := s.rows[s.p]]
              && (s.c == -1 || s.c >= 0)
    ensures s.Selected? && s.c == -1 ==>
              rows[s.p] == [] && s.rows == rows && s.indcol == indcol && s.density == d
    ensures s.Selected? && s.c >= 0 ==>
              && s.indcol == indcol + 1
              && PivotedRow(s.rows[s.p], rows[s.p], indcol)
              && ColumnExchange(s.rows[s.p], rows[s.p], indcol, s.c)
    // the policy's pass, when some row qualifies
    ensures sameColumnFirst && !NoHitFrom(rows, k, indcol) ==>
              && s.Selected? && SameColumnHit(rows[s.p], indcol)
              && s.c == indcol && s.rows == rows && s.indcol == indcol + 1 && s.density == d
              && NoHitBefore(rows, k, s.p, indcol)
    // the density pass otherwise
    ensures s.Selected? && (!sameColumnFirst || NoHitFrom(rows, k, indcol)) ==>
              && NoPivotBefore(rows, k, s.p)
              && (s.c >= 0 ==> SparsestColumn(rows[s.p], d, s.c))
    ensures EmptyFrom(rows, k) && (!sameColumnFirst || NoHitFrom(rows, k, indcol)) ==>
              s.Selected? && s.c == -1
  {
    var first := if sameColumnFirst then SameColumnPass(rows, k, indcol, d) else NoPivot;
    if first.Selected? then
      SameColumnSelection(rows, k, indcol, first);
      first
    else
      DensityPass(rows, k, indcol, d)
  }

  /** A row the same-column pass accepts already is its own pivot row:
      the column exchange is the identity. */
  lemma SameColumnSelection(rows: seq<Row>, k: nat, indcol: nat, s: Selection)
    requires s.Selected? && s.p < |rows| && SameColumnHit(rows[s.p], indcol)
    requires s.c == indcol && s.rows == rows && s.indcol == indcol + 1
    ensures |rows[s.p]| > 0 && !NoOdd(rows[s.p])
    ensures PivotedRow(s.rows[s.p], rows[s.p], indcol)
    ensures ColumnExchange(s.rows[s.p], rows[s.p], indcol, s.c)
  {
    assert forall c :: Swap(indcol, indcol, c) == c;
    assert IsOdd(rows[s.p][0].coeff);
  }
}
