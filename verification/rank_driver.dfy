/** gauss_rankin (lines 393-551) and prime_power_rankin (554-569): the
    elimination that computes, for a sparse matrix over Z/2^E, the ranks
    modulo 2, 4, ..., 2^E. Rows are visited with the row strategy; when no
    remaining row holds an odd coefficient, the rank modulo the current
    power of two is recorded and the remaining rows are divided by two. */
module RankDriver {
  import opened Arith
  import opened SparseRow
  import opened ModularInverse
  import opened PivotSearch
  import opened Elimination
  import opened RowStrategy

  /** An entry of the input matrix before reduction modulo 2^E. */
  datatype Term = Term(col: nat, value: int)

  type InputRow = seq<Term>

  predicate InputSorted(row: InputRow)
  {
    forall i, j :: 0 <= i < j < |row| ==> row[i].col < row[j].col
  }

  /** The value the input row holds in column c (0 when absent). */
  function Value(row: InputRow, c: nat): int
  {
    if |row| == 0 then 0
    else if row[0].col == c then row[0].value
    else Value(row[1..], c)
  }

  /** Every column of the input row is at least b. */
  predicate InputColsFrom(row: InputRow, b: nat)
  {
    forall i :: 0 <= i < |row| ==> row[i].col >= b
  }

  /** One entry of the initial pass (lines 419-429): `(UInt_t)value &
      TWOKMONE` is the two's-complement value reduced modulo 2^E, which is
      Euclidean `%`; a zero residue is dropped. */
  function MaskEntry(t: Term, m: nat): (r: Row)
    requires m >= 1
  {
    if t.value % m == 0 then [] else [Entry(t.col, t.value % m)]
  }

  /** The initial pass over one row (lines 415-432). */
  function MaskRow(row: InputRow, m: nat): (r: Row)
    requires m >= 1
    ensures Reduced(r, m)
  {
    if |row| == 0 then []
    else MaskEntry(row[0], m) + MaskRow(row[1..], m)
  }

  /** Reduction drops entries and keeps columns. */
  lemma {:induction false} MaskRowCols(row: InputRow, m: nat, b: nat)
    requires m >= 1 && InputColsFrom(row, b)
    ensures ColsFrom(MaskRow(row, m), b)
    decreases |row|
  {
    if |row| > 0 {
      assert InputColsFrom(row[1..], b);
      MaskRowCols(row[1..], m, b);
    }
  }

  /** A sorted input row reduces to the sorted row of its residues. */
  lemma MaskRowView(row: InputRow, m: nat)
    requires m >= 1 && InputSorted(row)
    ensures Sorted(MaskRow(row, m))
    ensures forall c :: Coeff(MaskRow(row, m), c) == Value(row, c) % m
  {
    MaskRowSorted(row, m);
    forall c
      ensures Coeff(MaskRow(row, m), c) == Value(row, c) % m
    {
      MaskRowCoeff(row, m, c);
    }
  }

  lemma {:induction false} MaskRowSorted(row: InputRow, m: nat)
    requires m >= 1 && InputSorted(row)
    ensures Sorted(MaskRow(row, m))
    decreases |row|
  {
    if |row| > 0 {
      var rest := MaskRow(row[1..], m);
      assert InputSorted(row[1..]) && InputColsFrom(row[1..], row[0].col + 1);
      MaskRowSorted(row[1..], m);
      if row[0].value % m != 0 {
        MaskRowCols(row[1..], m, row[0].col + 1);
        SortedCons(Entry(row[0].col, row[0].value % m), rest);
      }
    }
  }

  /** A row stays sorted when an entry left of all its columns is put in
      front. */
  lemma SortedCons(entry: Entry, rest: Row)
    requires Sorted(rest) && ColsFrom(rest, entry.col + 1)
    ensures Sorted([entry] + rest)
  {
    var r := [entry] + rest;
    forall i, j | 0 <= i < j < |r|
      ensures r[i].col < r[j].col
    {
      assert r[j] == rest[j - 1];
      if i > 0 {
        assert r[i] == rest[i - 1];
      }
    }
  }

  lemma {:induction false} MaskRowCoeff(row: InputRow, m: nat, c: nat)
    requires m >= 1 && InputSorted(row)
    ensures Coeff(MaskRow(row, m), c) == Value(row, c) % m
    decreases |row|
  {
    if |row| > 0 {
      var rest := MaskRow(row[1..], m);
      assert InputSorted(row[1..]) && InputColsFrom(row[1..], row[0].col + 1);
      MaskRowCoeff(row[1..], m, c);
      if row[0].col == c {
        MaskRowCols(row[1..], m, c + 1);
        CoeffBelow(rest, c, c + 1);
        InputValueBelow(row[1..], c);
      }
      if row[0].value % m != 0 {
        var r := [Entry(row[0].col, row[0].value % m)] + rest;
        assert r[1..] == rest;
      } else {
        assert MaskRow(row, m) == [] + rest;
        assert [] + rest == rest;
        if row[0].col == c {
          assert Value(row, c) == row[0].value;
        } else {
          assert Value(row, c) == Value(row[1..], c);
        }
      }
    }
  }

  /** A sorted input row holds no value left of its columns. */
  lemma {:induction false} InputValueBelow(row: InputRow, c: nat)
    requires InputColsFrom(row, c + 1)
    ensures Value(row, c) == 0
    decreases |row|
  {
    if |row| > 0 {
      assert InputColsFrom(row[1..], c + 1);
      InputValueBelow(row[1..], c);
    }
  }

  /** Reduction distributes over concatenation. */
  lemma {:induction false} MaskRowConcat(a: InputRow, b: InputRow, m: nat)
    requires m >= 1
    ensures MaskRow(a + b, m) == MaskRow(a, m) + MaskRow(b, m)
    decreases |a|
  {
    if |a| == 0 {
      assert a + b == b;
    } else {
      assert (a + b)[1..] == a[1..] + b;
      MaskRowConcat(a[1..], b, m);
    }
  }

  /** The reduced row is empty exactly when every value vanishes modulo m. */
  lemma {:induction false} MaskRowEmpty(row: InputRow, m: nat)
    requires m >= 1
    ensures |MaskRow(row, m)| == 0 <==> forall i :: 0 <= i < |row| ==> row[i].value % m == 0
    decreases |row|
  {
    if |row| > 0 {
      assert forall i :: 0 < i < |row| ==> row[1..][i - 1] == row[i];
      MaskRowEmpty(row[1..], m);
    }
  }

  /** Every value of the input row has an even residue modulo m. */
  predicate EvenResidues(row: InputRow, m: nat)
    requires m >= 1
  {
    forall i :: 0 <= i < |row| ==> !IsOdd(row[i].value % m)
  }

  /** The reduced row has no odd coefficient exactly when every residue is
      even. */
  lemma {:induction false} MaskRowEven(row: InputRow, m: nat)
    requires m >= 1
    ensures NoOdd(MaskRow(row, m)) <==> EvenResidues(row, m)
    decreases |row|
  {
    if |row| > 0 {
      var tail := row[1..];
      MaskRowEven(tail, m);
      var head := MaskEntry(row[0], m);
      assert MaskRow(row, m) == head + MaskRow(tail, m);
      NoOddConcat(head, MaskRow(tail, m));
      assert NoOdd(head) <==> !IsOdd(row[0].value % m) by {
        if row[0].value % m != 0 {
          assert head[0].coeff == row[0].value % m;
        }
      }
      EvenResiduesCons(row, m);
    }
  }

  lemma EvenResiduesCons(row: InputRow, m: nat)
    requires m >= 1 && |row| > 0
    ensures EvenResidues(row, m) <==> !IsOdd(row[0].value % m) && EvenResidues(row[1..], m)
  {
    assert forall i :: 0 < i < |row| ==> row[1..][i - 1] == row[i];
  }

  lemma NoOddConcat(a: Row, b: Row)
    ensures NoOdd(a + b) <==> NoOdd(a) && NoOdd(b)
  {
    assert forall i :: 0 <= i < |a| ==> (a + b)[i] == a[i];
    assert forall i :: 0 <= i < |b| ==> (a + b)[|a| + i] == b[i];
  }

  /** Number of entries in column c over all rows. */
  function TotalCount(rows: seq<Row>, c: nat): nat
  {
    if |rows| == 0 then 0 else TotalCount(rows[..|rows| - 1], c) + Count(rows[|rows| - 1], c)
  }

  lemma MaskRowSnoc(tmp: InputRow, k: nat, m: nat)
    requires k < |tmp| && m >= 1
    ensures MaskRow(tmp[..k + 1], m) == MaskRow(tmp[..k], m) + MaskEntry(tmp[k], m)
  {
    assert tmp[..k + 1] == tmp[..k] + [tmp[k]];
    MaskRowConcat(tmp[..k], [tmp[k]], m);
    assert MaskRow([tmp[k]], m) == MaskEntry(tmp[k], m) + MaskRow([], m) by {
      assert [tmp[k]][1..] == [];
    }
  }

  /** Counting one more entry keeps the density table in step. */
  lemma DensityStep(d': Density, d: Density, row: Row, entry: Entry)
    requires forall c :: Get(d', c) == Get(d, c) + Count(row, c)
    ensures forall c :: Get(Bump(d', entry.col, 1), c) == Get(d, c) + Count(row + [entry], c)
  {
    CountAppend(row, entry);
  }

  lemma CountAppend(row: Row, entry: Entry)
    ensures forall c :: Count(row + [entry], c) == Count(row, c) + (if entry.col == c then 1 else 0)
  {
    forall c
      ensures Count(row + [entry], c) == Count(row, c) + (if entry.col == c then 1 else 0)
    {
      CountConcat(row, [entry], c);
    }
  }

  /** One row of the initial pass (lines 415-429): the reduced row, each
      kept entry counted in the density table. */
  method MaskInto(tmp: InputRow, m: nat, d: Density) returns (toto: Row, d': Density)
    requires m >= 1
    ensures toto == MaskRow(tmp, m)
    ensures forall c :: Get(d', c) == Get(d, c) + Count(toto, c)
  {
    toto := [];
    d' := d;
    var k := 0;
    while k < |tmp|
      invariant k <= |tmp|
      invariant toto == MaskRow(tmp[..k], m)
      invariant forall c :: Get(d', c) == Get(d, c) + Count(toto, c)
    {
      MaskRowSnoc(tmp, k, m);
      var r := tmp[k].value % m;
      if r != 0 {
        var entry := Entry(tmp[k].col, r);
        DensityStep(d', d, toto, entry);
        d' := Bump(d', tmp[k].col, 1);
        toto := toto + [entry];
      }
      k := k + 1;
    }
    assert tmp[..k] == tmp;
  }

  /** The initial pass of lines 413-432: every row reduced modulo 2^E with
      zero residues dropped, and the column densities counted. */
  method InitialPass(input: seq<InputRow>, e: nat) returns (rows: seq<Row>, d: Density)
    ensures |rows| == |input|
    ensures forall i :: 0 <= i < |input| ==> rows[i] == MaskRow(input[i], Pow2(e))
    ensures forall c :: Get(d, c) == TotalCount(rows, c)
  {
    var m := Pow2(e);
    rows := [];
    d := map[];
    var jj := 0;
    while jj < |input|
      invariant jj <= |input| && |rows| == jj
      invariant forall i :: 0 <= i < jj ==> rows[i] == MaskRow(input[i], m)
      invariant forall c :: Get(d, c) == TotalCount(rows, c)
    {
      var toto;
      toto, d := MaskInto(input[jj], m, d);
      assert (rows + [toto])[..jj] == rows;
      rows := rows + [toto];
      jj := jj + 1;
    }
  }

  /** `second >>= 1` on every entry of a row (lines 482-484, 530-531). On a
      row without odd coefficients this divides the vector by two. */
  function HalveRow(row: Row): (r: Row)
    ensures |r| == |row|
    ensures forall i :: 0 <= i < |row| ==> r[i].col == row[i].col
    ensures NoOdd(row) ==> forall c :: 2 * Coeff(r, c) == Coeff(row, c)
    ensures NoOdd(row) ==> forall i :: 0 <= i < |row| ==> 2 * r[i].coeff == row[i].coeff
  {
    if |row| == 0 then []
    else
      var rest := HalveRow(row[1..]);
      [Entry(row[0].col, row[0].coeff / 2)] + rest
  }

  /** Rows k .. |rows|-1 halved, the rows above untouched. */
  function HalveRows(rows: seq<Row>, k: nat): (r: seq<Row>)
    ensures |r| == |rows|
    ensures forall q :: 0 <= q < |rows| ==> r[q] == if q < k then rows[q] else HalveRow(rows[q])
  {
    seq(|rows|, q requires 0 <= q < |rows| => if q < k then rows[q] else HalveRow(rows[q]))
  }

  /** A halved row keeps the shape of an active row. */
  lemma HalveActive(row: Row, k: nat, e: nat)
    requires Active(row, k, Pow2(e)) && NoOdd(row) && e >= 1
    ensures Active(HalveRow(row), k, Pow2(e - 1))
    ensures forall c :: Coeff(row, c) == Coeff(HalveRow(row), c) * 2
    ensures |HalveRow(row)| == |row|
  {
    assert Pow2(e) == 2 * Pow2(e - 1);
  }

  /** When no remaining row holds an odd coefficient, every one of them is
      nonempty and reduced, so the modulus is at least 4: the halving loop
      of lines 481-491 never runs below 2^1. */
  lemma NoPivotExponent(rows: seq<Row>, k: nat, indcol: nat, e: nat)
    requires k < |rows|
    requires forall q :: k <= q < |rows| ==> |rows[q]| > 0 && NoOdd(rows[q]) && Reduced(rows[q], Pow2(e))
    ensures e >= 2
  {
    var v := rows[k][0].coeff;
    assert !IsOdd(v) && 0 < v < Pow2(e);
  }

  /** Rows k .. |rows|-1 belong to the active submatrix at pivot step
      indcol modulo m. */
  predicate ActiveFrom(rows: seq<Row>, k: nat, indcol: nat, m: nat)
  {
    forall q :: k <= q < |rows| ==> Active(rows[q], indcol, m)
  }

  /** Rows k .. of `rows` are those of `halved` times 2^s, and are empty
      exactly when those are. */
  ghost predicate ScaledFrom(rows: seq<Row>, halved: seq<Row>, k: nat, s: nat)
    requires |halved| == |rows|
  {
    forall q :: k <= q < |rows| ==> RowScaled(rows[q], halved[q], s)
  }

  /** Row `row` is row h times 2^s, and empty exactly when h is. */
  ghost predicate RowScaled(row: Row, h: Row, s: nat)
  {
    (|h| == 0 <==> |row| == 0) && forall c :: Coeff(row, c) == Doubled(Coeff(h, c), s)
  }

  /** x doubled s times. */
  function Doubled(x: nat, s: nat): (r: nat)
    decreases s
  {
    if s == 0 then x else Doubled(2 * x, s - 1)
  }

  lemma {:induction false} DoubledIsProduct(x: nat, s: nat)
    ensures Doubled(x, s) == x * Pow2(s)
    decreases s
  {
    if s > 0 {
      DoubledIsProduct(2 * x, s - 1);
      assert Pow2(s) == 2 * Pow2(s - 1);
    }
  }

  lemma ScaledSelf(rows: seq<Row>, k: nat)
    ensures ScaledFrom(rows, rows, k, 0)
  {
    forall q | k <= q < |rows|
      ensures RowScaled(rows[q], rows[q], 0)
    {
    }
  }

  /** One halving of lines 481-484 keeps the rows active modulo 2^(e-1)
      and the scaling one power further. */
  lemma HalveStep(rows: seq<Row>, halved: seq<Row>, k: nat, indcol: nat, e: nat, s: nat)
    requires |halved| == |rows| && k < |rows|
    requires ActiveFrom(halved, k, indcol, Pow2(e)) && ScaledFrom(rows, halved, k, s)
    requires NoPivotFrom(halved, k)
    ensures e >= 2
    ensures ActiveFrom(HalveRows(halved, k), k, indcol, Pow2(e - 1))
    ensures ScaledFrom(rows, HalveRows(halved, k), k, s + 1)
    ensures forall q :: 0 <= q < k ==> HalveRows(halved, k)[q] == halved[q]
  {
    NoPivotExponent(halved, k, indcol, e);
    var next := HalveRows(halved, k);
    forall q | k <= q < |rows|
      ensures Active(next[q], indcol, Pow2(e - 1))
      ensures RowScaled(rows[q], next[q], s + 1)
    {
      HalveActive(halved[q], indcol, e);
      assert RowScaled(rows[q], halved[q], s);
      forall c
        ensures Coeff(rows[q], c) == Doubled(Coeff(next[q], c), s + 1)
      {
        assert Coeff(halved[q], c) == 2 * Coeff(next[q], c);
      }
    }
  }

  /** ranks' is ranks with n more records of x. */
  predicate Pushed(ranks': seq<nat>, ranks: seq<nat>, x: nat, n: nat)
  {
    && |ranks'| == |ranks| + n && ranks'[..|ranks|] == ranks
    && forall i :: |ranks| <= i < |ranks'| ==> ranks'[i] == x
  }

  lemma PushOne(ranks': seq<nat>, ranks: seq<nat>, x: nat, n: nat)
    requires Pushed(ranks', ranks, x, n)
    ensures Pushed(ranks' + [x], ranks, x, n + 1)
  {
    assert (ranks' + [x])[..|ranks|] == ranks'[..|ranks|];
  }

  /** The state of the halving loop of HalveUntilPivot after e - e'
      halvings of the rows k .. |rows|-1. */
  ghost predicate Halving(rows: seq<Row>, k: nat, indcol: nat, e: nat, ranks: seq<nat>,
                          halved: seq<Row>, e': nat, ranks': seq<nat>)
  {
    && k < |rows| && e' <= e && |halved| == |rows| && (e >= 1 ==> e' >= 1)
    && Pushed(ranks', ranks, indcol, e - e')
    && (forall q :: 0 <= q < k ==> halved[q] == rows[q])
    && ActiveFrom(halved, k, indcol, Pow2(e'))
    && ScaledFrom(rows, halved, k, e - e')
    && (e' == e ==> halved == rows)
    && (e' < e ==> NoPivotFrom(rows, k))
  }

  /** Before any halving. */
  lemma HalvingStart(rows: seq<Row>, k: nat, indcol: nat, e: nat, ranks: seq<nat>)
    requires k < |rows| && ActiveFrom(rows, k, indcol, Pow2(e))
    ensures Halving(rows, k, indcol, e, ranks, rows, e, ranks)
  {
    ScaledSelf(rows, k);
    assert ranks[..|ranks|] == ranks;
  }

  /** One more halving when no row offers a pivot. */
  lemma HalvingStep(rows: seq<Row>, k: nat, indcol: nat, e: nat, ranks: seq<nat>,
                    halved: seq<Row>, e': nat, ranks': seq<nat>)
    requires Halving(rows, k, indcol, e, ranks, halved, e', ranks')
    requires NoPivotFrom(halved, k)
    ensures e' >= 2
    ensures Halving(rows, k, indcol, e, ranks, HalveRows(halved, k), e' - 1, ranks' + [indcol])
  {
    HalveStep(rows, halved, k, indcol, e', e - e');
    PushOne(ranks', ranks, indcol, e - e');
  }

  /** The halving part of the `for(;;)` loop of lines 450-495: while the
      row strategy finds no pivot (TrySelect answers NoPivot exactly when
      NoPivotFrom holds), record the current rank and divide the remaining
      rows by two. */
  method HalveUntilPivot(rows: seq<Row>, k: nat, indcol: nat, e: nat, ranks: seq<nat>)
      returns (halved: seq<Row>, e': nat, ranks': seq<nat>)
    requires k < |rows| && ActiveFrom(rows, k, indcol, Pow2(e))
    ensures e' <= e && |halved| == |rows| && (e >= 1 ==> e' >= 1)
    ensures !NoPivotFrom(halved, k)
    ensures Pushed(ranks', ranks, indcol, e - e')
    ensures forall q :: 0 <= q < k ==> halved[q] == rows[q]
    ensures ActiveFrom(halved, k, indcol, Pow2(e'))
    ensures ScaledFrom(rows, halved, k, e - e')
    ensures e' == e ==> halved == rows
    ensures e' < e ==> NoPivotFrom(rows, k)
  {
    halved := rows;
    e' := e;
    ranks' := ranks;
    HalvingStart(rows, k, indcol, e, ranks);
    while NoPivotFrom(halved, k)
      invariant Halving(rows, k, indcol, e, ranks, halved, e', ranks')
      decreases e'
    {
      HalvingStep(rows, k, indcol, e, ranks, halved, e', ranks');
      halved := HalveRows(halved, k);
      e' := e' - 1;
      ranks' := ranks' + [indcol];
    }
  }

  /** Target row r is the elimination of row `cur` by the pivot row `piv`
      at pivot column k, the pivot taken from column c. */
  ghost predicate Eliminated(r: Row, cur: Row, piv: Row, k: nat, c: nat, e: nat)
  {
    && |piv| > 0 && IsOdd(piv[0].coeff) && piv[0].coeff < Pow2(e)
    && forall col :: Combines(Coeff(r, col), Coeff(cur, Swap(k, c, col)), Coeff(piv, col),
                             HeadCoeff(Coeff(cur, c), piv[0].coeff, e), Pow2(e))
  }

  /** The loop of lines 510-512: FaireElimination on every row below the
      pivot row k. */
  method EliminateBelow(e: nat, rows: seq<Row>, k: nat, indcol: nat, c: nat, d: Density)
      returns (out: seq<Row>, d': Density)
    requires k < |rows| && indcol >= 1 && c >= indcol - 1
    requires PivotRow(rows[k], indcol - 1, Pow2(e))
    requires forall l :: k < l < |rows| ==> Active(rows[l], indcol - 1, Pow2(e))
    ensures |out| == |rows| && out[..k + 1] == rows[..k + 1]
    ensures ActiveFrom(out, k + 1, indcol, Pow2(e))
    ensures EliminatedBelow(out, rows, k, indcol - 1, c, e)
  {
    out := rows;
    d' := d;
    var l := k + 1;
    while l < |rows|
      invariant k + 1 <= l <= |rows| && |out| == |rows|
      invariant forall q :: 0 <= q < |rows| && (q <= k || q >= l) ==> out[q] == rows[q]
      invariant forall q :: k < q < l ==> Active(out[q], indcol, Pow2(e))
      invariant forall q :: k < q < l ==> Eliminated(out[q], rows[q], rows[k], indcol - 1, c, e)
    {
      var u := FaireElimination(e, out[l], out[k], indcol, c, d');
      out := out[l := u.row];
      d' := u.density;
      l := l + 1;
    }
    assert out[..k + 1] == rows[..k + 1];
  }

  /** Every row below the pivot row k of `rows` became, in `out`, its
      elimination by that pivot row. */
  ghost predicate EliminatedBelow(out: seq<Row>, rows: seq<Row>, k: nat, indcol: nat, c: nat, e: nat)
    requires |out| == |rows| && k < |rows|
  {
    forall l :: k < l < |rows| ==> Eliminated(out[l], rows[l], rows[k], indcol, c, e)
  }

  /** The exchange of rows p and k (lines 497-503). */
  function SwapRows(rows: seq<Row>, p: nat, k: nat): (r: seq<Row>)
    requires p < |rows| && k < |rows|
    ensures |r| == |rows| && r[k] == rows[p] && r[p] == rows[k]
    ensures forall q :: 0 <= q < |rows| && q != p && q != k ==> r[q] == rows[q]
  {
    if p != k then rows[k := rows[p]][p := rows[k]] else rows
  }

  /** The row strategy at step k when some row has a pivot or is empty:
      TrySelect read for what the placing of the pivot needs. */
  function Choose(e: nat, rows: seq<Row>, k: nat, indcol: nat, d: Density, sameColumnFirst: bool): (s: Selection)
    requires k < |rows| && ActiveFrom(rows, k, indcol, Pow2(e)) && !NoPivotFrom(rows, k)
    ensures s.Selected? && k <= s.p < |rows| && |s.rows| == |rows| && s.rows == rows[s.p := s.rows[s.p]]
    ensures s.c == -1 || s.c >= indcol
    ensures s.c == -1 ==> s.indcol == indcol && rows[s.p] == [] && s.rows[s.p] == []
    ensures s.c >= 0 ==> && s.indcol == indcol + 1
                         && !NoOdd(rows[s.p])
                         && PivotRow(s.rows[s.p], indcol, Pow2(e))
                         && SwapsColumns(s.rows[s.p], rows[s.p], indcol, s.c)
    ensures EmptyFrom(rows, k) && (!sameColumnFirst || NoHitFrom(rows, k, indcol)) ==>
              s.c == -1
  {
    var s := TrySelect(rows, k, indcol, d, sameColumnFirst);
    if s.c != -1 then
      assert Active(rows[s.p], indcol, Pow2(e));
      SameCoeffsOdd(s.rows[s.p], rows[s.p]);
      s
    else
      s
  }

  method ChoosePivot(e: nat, halved: seq<Row>, k: nat, indcol: nat, d: Density, sameColumnFirst: bool)
      returns (work: seq<Row>, p: nat, c: int, pivot: Row, indcol': nat, d': Density)
    requires k < |halved| && ActiveFrom(halved, k, indcol, Pow2(e)) && !NoPivotFrom(halved, k)
    ensures k <= p < |halved| && work == SwapRows(halved, p, k)[k := pivot]
    ensures c == -1 || c >= indcol
    ensures c == -1 ==> indcol' == indcol && halved[p] == [] && pivot == []
    ensures c >= 0 ==> && indcol' == indcol + 1
                       && !NoOdd(halved[p])
                       && PivotRow(pivot, indcol, Pow2(e))
                       && SwapsColumns(pivot, halved[p], indcol, c)
    ensures EmptyFrom(halved, k) && (!sameColumnFirst || NoHitFrom(halved, k, indcol)) ==>
              c == -1
  {
    var s := Choose(e, halved, k, indcol, d, sameColumnFirst);
    p := s.p;
    c := s.c;
    indcol' := s.indcol;
    d' := s.density;
    pivot := s.rows[p];
    work := SwapRows(s.rows, p, k);
    SwapRowsUpdate(halved, p, k, pivot);
  }

  /** Replacing row p, then exchanging rows p and k, puts the new row at k. */
  lemma SwapRowsUpdate(rows: seq<Row>, p: nat, k: nat, row: Row)
    requires p < |rows| && k < |rows|
    ensures SwapRows(rows[p := row], p, k) == SwapRows(rows, p, k)[k := row]
  {
  }

  /** Lines 469-522 once a pivot exists: choose and place the pivot row,
      eliminate every row below it unless it is empty, then keep or release
      row k. */
  method PlacePivot(e: nat, halved: seq<Row>, k: nat, indcol: nat, d: Density,
                    sameColumnFirst: bool, preserveUpper: bool)
      returns (rows': seq<Row>, p: nat, c: int, pivot: Row, indcol': nat, d': Density)
    requires k < |halved| && ActiveFrom(halved, k, indcol, Pow2(e)) && !NoPivotFrom(halved, k)
    ensures k <= p < |halved| && |rows'| == |halved|
    ensures forall q :: 0 <= q < k ==> rows'[q] == halved[q]
    ensures c == -1 || c >= indcol
    ensures c == -1 ==> indcol' == indcol && halved[p] == [] && pivot == []
                        && forall l :: k < l < |halved| ==> rows'[l] == SwapRows(halved, p, k)[l]
    ensures c >= 0 ==> && indcol' == indcol + 1
                       && !NoOdd(halved[p])
                       && PivotRow(pivot, indcol, Pow2(e))
                       && SwapsColumns(pivot, halved[p], indcol, c)
                       && EliminatedBelow(rows'[k := pivot], SwapRows(halved, p, k)[k := pivot], k, indcol, c, e)
    ensures ActiveFrom(rows', k + 1, indcol', Pow2(e))
    ensures EmptyFrom(halved, k) && (!sameColumnFirst || NoHitFrom(halved, k, indcol)) ==>
              c == -1
    ensures rows'[k] == PreserveUpperMatrixRow(pivot, preserveUpper)
  {
    var work;
    work, p, c, pivot, indcol', d' := ChoosePivot(e, halved, k, indcol, d, sameColumnFirst);
    var out := work;
    if c != -1 {
      out, d' := EliminateBelow(e, work, k, indcol', c, d');
      assert out[k] == pivot && forall q :: 0 <= q < k ==> out[q] == work[q] by {
        assert forall q :: 0 <= q <= k ==> out[q] == out[..k + 1][q] && work[q] == work[..k + 1][q];
      }
    }
    rows' := out[k := PreserveUpperMatrixRow(pivot, preserveUpper)];
    assert rows'[k := pivot] == out;
  }

  /** The row at position l > k after exchanging rows p and k is one of the
      rows k .. |rows|-1, and every one of them other than row p lands at
      some position l > k. */
  lemma SwapKeepsBelow(rows: seq<Row>, p: nat, k: nat, q: nat)
    requires k <= p < |rows| && k <= q < |rows| && q != p
    ensures var l := if q == k then p else q;
            k < l < |rows| && SwapRows(rows, p, k)[l] == rows[q]
  {
  }

  lemma SwapFromBelow(rows: seq<Row>, p: nat, k: nat, l: nat)
    requires k <= p < |rows| && k < l < |rows|
    ensures exists q :: k <= q < |rows| && SwapRows(rows, p, k)[l] == rows[q]
  {
    if l == p {
      assert SwapRows(rows, p, k)[l] == rows[k];
    } else {
      assert SwapRows(rows, p, k)[l] == rows[l];
    }
  }

  /** One pass of the `for k` loop (lines 446-523): halve until some row
      offers a pivot, then choose, place and use it. */
  method PivotStep(rows: seq<Row>, k: nat, indcol: nat, e: nat, d: Density, ranks: seq<nat>,
                   sameColumnFirst: bool, preserveUpper: bool)
      returns (rows': seq<Row>, indcol': nat, e': nat, d': Density, ranks': seq<nat>)
    requires k < |rows| && ActiveFrom(rows, k, indcol, Pow2(e))
    ensures |rows'| == |rows| && forall q :: 0 <= q < k ==> rows'[q] == rows[q]
    ensures e' <= e && (e >= 1 ==> e' >= 1)
    ensures Pushed(ranks', ranks, indcol, e - e')
    ensures indcol' == indcol || indcol' == indcol + 1
    ensures ActiveFrom(rows', k + 1, indcol', Pow2(e'))
    ensures !preserveUpper ==> rows'[k] == []
    ensures preserveUpper ==> (rows'[k] == [] <==> indcol' == indcol)
    ensures preserveUpper && indcol' == indcol + 1 ==> PivotRow(rows'[k], indcol, Pow2(e'))
    ensures e' < e ==> NoPivotFrom(rows, k)
    ensures (exists q :: k <= q < |rows| && !NoOdd(rows[q])) ==>
              e' == e && (indcol' == indcol + 1 || exists q :: k < q < |rows| && !NoOdd(rows'[q]))
    ensures (forall q :: k <= q < |rows| ==> NoOdd(rows[q])) && e' == e ==>
              indcol' == indcol && forall q :: k < q < |rows| ==> NoOdd(rows'[q])
    ensures (exists q :: k <= q < |rows| && rows[q] != []) ==>
              indcol' == indcol + 1 || exists q :: k < q < |rows| && rows'[q] != []
    ensures (forall q :: k <= q < |rows| ==> rows[q] == []) ==>
              e' == e && indcol' == indcol && forall q :: k < q < |rows| ==> rows'[q] == []
  {
    var halved;
    halved, e', ranks' := HalveUntilPivot(rows, k, indcol, e, ranks);
    var p, c, pivot;
    rows', p, c, pivot, indcol', d' := PlacePivot(e', halved, k, indcol, d, sameColumnFirst, preserveUpper);
    StepProgress(rows, halved, rows', k, p, c, e, e', indcol, indcol');
  }

  /** What one pass guarantees about the rows left for the next: a row with
      an odd coefficient prevents halving and leaves either a pivot or an
      odd row below; a nonempty row leaves a pivot or a nonempty row below;
      all-even or all-empty rows stay so. */
  lemma StepProgress(rows: seq<Row>, halved: seq<Row>, rows': seq<Row>, k: nat, p: nat, c: int,
                     e: nat, e': nat, indcol: nat, indcol': nat)
    requires k <= p < |rows| && |halved| == |rows| && |rows'| == |rows|
    requires e' <= e && ScaledFrom(rows, halved, k, e - e')
    requires e' == e ==> halved == rows
    requires e' < e ==> NoPivotFrom(rows, k)
    requires c == -1 || c >= 0
    requires c == -1 ==> indcol' == indcol && halved[p] == []
    requires c == -1 ==> forall l :: k < l < |halved| ==> rows'[l] == SwapRows(halved, p, k)[l]
    requires c >= 0 ==> indcol' == indcol + 1 && !NoOdd(halved[p])
    ensures (exists q :: k <= q < |rows| && !NoOdd(rows[q])) ==>
              e' == e && (indcol' == indcol + 1 || exists q :: k < q < |rows| && !NoOdd(rows'[q]))
    ensures (forall q :: k <= q < |rows| ==> NoOdd(rows[q])) && e' == e ==>
              indcol' == indcol && forall q :: k < q < |rows| ==> NoOdd(rows'[q])
    ensures (exists q :: k <= q < |rows| && rows[q] != []) ==>
              indcol' == indcol + 1 || exists q :: k < q < |rows| && rows'[q] != []
    ensures (forall q :: k <= q < |rows| ==> rows[q] == []) ==>
              e' == e && indcol' == indcol && forall q :: k < q < |rows| ==> rows'[q] == []
  {
    if exists q :: k <= q < |rows| && !NoOdd(rows[q]) {
      var q :| k <= q < |rows| && !NoOdd(rows[q]);
      assert e' == e;
      if c == -1 {
        SwapKeepsBelow(halved, p, k, q);
      }
    }
    if (forall q :: k <= q < |rows| ==> NoOdd(rows[q])) && e' == e {
      forall l | k < l < |rows|
        ensures NoOdd(rows'[l])
      {
        SwapFromBelow(halved, p, k, l);
      }
    }
    if exists q :: k <= q < |rows| && rows[q] != [] {
      var q :| k <= q < |rows| && rows[q] != [];
      assert RowScaled(rows[q], halved[q], e - e');
      if c == -1 {
        SwapKeepsBelow(halved, p, k, q);
      }
    }
    if forall q :: k <= q < |rows| ==> rows[q] == [] {
      assert rows[k] == [];
      assert e' == e;
      forall l | k < l < |rows|
        ensures rows'[l] == []
      {
        SwapFromBelow(halved, p, k, l);
      }
    }
  }

  /** What a search on one active row yields: -2 with the row untouched
      when it is nonempty and even, -1 when it is empty, otherwise a pivot
      placed in column indcol by exchanging columns indcol and indpermut. */
  ghost predicate Found(row: Row, indcol: nat, p: Pick)
  {
    && (p.indpermut == -2 <==> row != [] && NoOdd(row))
    && (p.indpermut == -2 ==> p.row == row && p.indcol == indcol)
    && (row == [] ==> p.row == [] && p.indcol == indcol && p.indpermut == -1)
    && (row != [] && !NoOdd(row) ==>
          && p.indcol == indcol + 1 && p.indpermut >= indcol
          && |p.row| > 0 && Sorted(p.row) && p.row[0].col == indcol && IsOdd(p.row[0].coeff)
          && SwapsColumns(p.row, row, indcol, p.indpermut))
  }

  /** row is row' with columns a and b exchanged, times 2^s. */
  ghost predicate ScaledExchange(row: Row, row': Row, a: nat, b: nat, s: nat)
  {
    forall c :: Coeff(row, c) == Doubled(Coeff(row', Swap(a, b, c)), s)
  }

  /** Scaling by 2^s followed by a column exchange. */
  lemma ScaledThenSwapped(row: Row, h: Row, r: Row, a: nat, b: nat, s: nat)
    requires RowScaled(row, h, s) && SwapsColumns(r, h, a, b)
    ensures ScaledExchange(row, r, a, b, s)
  {
    forall c
      ensures Coeff(row, c) == Doubled(Coeff(r, Swap(a, b, c)), s)
    {
      assert Swap(a, b, Swap(a, b, c)) == c;
    }
  }

  /** Every coefficient of the row doubled s times, columns kept. */
  function DoubleRow(h: Row, s: nat): (r: Row)
    ensures |r| == |h|
  {
    if |h| == 0 then [] else [Entry(h[0].col, Doubled(h[0].coeff, s))] + DoubleRow(h[1..], s)
  }

  /** Halving an even row moves the scaling one power further. */
  lemma {:induction false} DoubleRowHalved(h: Row, s: nat)
    requires NoOdd(h)
    ensures DoubleRow(HalveRow(h), s + 1) == DoubleRow(h, s)
    decreases |h|
  {
    if |h| > 0 {
      var hh := HalveRow(h);
      assert hh[1..] == HalveRow(h[1..]);
      assert 2 * hh[0].coeff == h[0].coeff;
      assert NoOdd(h[1..]) by {
        forall i | 0 <= i < |h[1..]| ensures !IsOdd(h[1..][i].coeff) { assert h[1..][i] == h[i + 1]; }
      }
      DoubleRowHalved(h[1..], s);
    }
  }

  lemma {:induction false} DoubleRowZero(h: Row)
    ensures DoubleRow(h, 0) == h
    decreases |h|
  {
    if |h| > 0 {
      DoubleRowZero(h[1..]);
      assert h == [h[0]] + h[1..];
    }
  }

  /** DoubleRow scales the vector the row denotes. */
  lemma {:induction false} DoubleRowScaled(h: Row, s: nat)
    ensures RowScaled(DoubleRow(h, s), h, s)
    decreases |h|
  {
    DoubledIsProduct(0, s);
    if |h| > 0 {
      DoubleRowScaled(h[1..], s);
      var r := DoubleRow(h, s);
      assert r[1..] == DoubleRow(h[1..], s);
      forall c ensures Coeff(r, c) == Doubled(Coeff(h, c), s) {
        if h[0].col != c {
          assert Coeff(r, c) == Coeff(DoubleRow(h[1..], s), c);
        }
      }
    }
  }

  lemma CherchePivotFound(row: Row, indcol: nat, d: Density, m: nat)
    requires Active(row, indcol, m)
    ensures Found(row, indcol, CherchePivot(row, indcol, d).pick)
  {
    var r := CherchePivot(row, indcol, d);
    if |row| > 0 && !NoOdd(row) {
      assert |r.pick.row| == |row|;
    }
  }

  /** The first search on the last row (lines 526-527): the policy's
      same-column test, then CherchePivot if it did not apply. */
  function LastSearch(row: Row, indcol: nat, d: Density, sameColumnFirst: bool, m: nat): (r: Search)
    requires Active(row, indcol, m)
    ensures Found(row, indcol, r.pick)
  {
    var pick := SameColumnPivoting(row, indcol, -2, sameColumnFirst);
    if pick.indpermut == -2 then
      CherchePivotFound(row, indcol, d, m);
      CherchePivot(row, indcol, d)
    else
      assert IsOdd(row[0].coeff);
      IdentitySwap(row, 0, indcol);
      Search(pick, d)
  }

  /** The last row (lines 525-534): the first search, then, while no pivot
      comes out, record the rank, halve the row and search again. `t` is
      the exponent of TWOK, which this part halves without touching
      EXPONENT. */
  method LastRow(row: Row, indcol: nat, t: nat, d: Density, ranks: seq<nat>, sameColumnFirst: bool)
      returns (row': Row, indcol': nat, t': nat, ranks': seq<nat>, c: int)
    requires Active(row, indcol, Pow2(t))
    ensures t' <= t && (t >= 1 ==> t' >= 1)
    ensures Pushed(ranks', ranks, indcol, t - t')
    ensures row == [] ==> indcol' == indcol && row' == [] && t' == t && c == -1
    ensures row != [] ==> && indcol' == indcol + 1 && c >= indcol
                          && |row'| > 0 && Sorted(row') && row'[0].col == indcol && IsOdd(row'[0].coeff)
                          && ScaledExchange(row, row', indcol, c, t - t')
    ensures !NoOdd(row) ==> t' == t
    ensures row != [] && NoOdd(row) ==> t' < t
  {
    var s := LastSearch(row, indcol, d, sameColumnFirst, Pow2(t));
    if s.pick.indpermut == -2 {
      row', indcol', t', ranks', c := HalveLastRow(row, indcol, t, s.density, ranks);
    } else {
      row', indcol', t', ranks', c := s.pick.row, s.pick.indcol, t, ranks, s.pick.indpermut;
      if row != [] {
        assert RowScaled(row, row, 0);
        ScaledThenSwapped(row, row, row', indcol, c, 0);
      }
    }
  }

  /** One halving of the even last row, followed by a new search. */
  lemma LastHalving(cur: Row, indcol: nat, t: nat, d: Density)
    requires Active(cur, indcol, Pow2(t)) && cur != [] && NoOdd(cur)
    ensures t >= 2
    ensures Active(HalveRow(cur), indcol, Pow2(t - 1)) && HalveRow(cur) != []
    ensures Found(HalveRow(cur), indcol, CherchePivot(HalveRow(cur), indcol, d).pick)
  {
    NoPivotExponent([cur], 0, indcol, t);
    HalveActive(cur, indcol, t);
    assert |HalveRow(cur)| > 0;
    CherchePivotFound(HalveRow(cur), indcol, d, Pow2(t - 1));
  }

  /** One pass of the body of lines 528-534 on an even row: halve every
      coefficient, then search the halved row again. */
  method HalveAndSearch(cur: Row, indcol: nat, t: nat, d: Density) returns (h: Row, p: Pick, d': Density)
    requires Active(cur, indcol, Pow2(t)) && cur != [] && NoOdd(cur)
    ensures t >= 2 && h == HalveRow(cur)
    ensures Active(h, indcol, Pow2(t - 1)) && h != [] && Found(h, indcol, p)
    ensures Search(p, d') == CherchePivot(h, indcol, d)
  {
    LastHalving(cur, indcol, t, d);
    h := HalveRow(cur);
    var sr := CherchePivot(h, indcol, d);
    p, d' := sr.pick, sr.density;
  }

  /** Leaving the loop: the search found an odd pivot in the halved row,
      so the result is the input scaled down and with two columns exchanged. */
  lemma LastLoopExit(row: Row, cur: Row, indcol: nat, p: Pick, s: nat)
    requires cur != [] && Found(cur, indcol, p) && p.indpermut != -2
    requires row == DoubleRow(cur, s)
    ensures ScaledExchange(row, p.row, indcol, p.indpermut, s)
  {
    DoubleRowScaled(cur, s);
    ScaledThenSwapped(row, cur, p.row, indcol, p.indpermut, s);
  }

  /** The loop of lines 528-534 on a nonempty even last row: halve until
      CherchePivot finds an odd coefficient, recording the rank each time.
      The result is the row divided by 2^(t - t') with columns indcol and c
      exchanged, and its head is odd, so t - t' is the number of factors 2
      common to the row's coefficients. */
  method HalveLastRow(row: Row, indcol: nat, t: nat, d: Density, ranks: seq<nat>)
      returns (row': Row, indcol': nat, t': nat, ranks': seq<nat>, c: int)
    requires Active(row, indcol, Pow2(t)) && row != [] && NoOdd(row)
    ensures 1 <= t' < t
    ensures Pushed(ranks', ranks, indcol, t - t')
    ensures && indcol' == indcol + 1 && c >= indcol
            && |row'| > 0 && Sorted(row') && row'[0].col == indcol && IsOdd(row'[0].coeff)
    ensures ScaledExchange(row, row', indcol, c, t - t')
  {
    var p := Pick(row, indcol, -2);
    var dd := d;
    var cur := row;
    t' := t;
    ranks' := ranks;
    ghost var s: nat := 0;
    DoubleRowZero(row);
    assert ranks[..|ranks|] == ranks;
    while p.indpermut == -2
      invariant t' + s == t && (s > 0 || p.indpermut == -2) && (s > 0 ==> t' >= 1)
      invariant Pushed(ranks', ranks, indcol, s)
      invariant Active(cur, indcol, Pow2(t')) && cur != []
      invariant Found(cur, indcol, p)
      invariant row == DoubleRow(cur, s)
      decreases t'
    {
      PushOne(ranks', ranks, indcol, s);
      ranks' := ranks' + [indcol];
      DoubleRowHalved(cur, s);
      cur, p, dd := HalveAndSearch(cur, indcol, t', dd);
      t' := t' - 1;
      s := s + 1;
    }
    LastLoopExit(row, cur, indcol, p, s);
    row', indcol', c := p.row, p.indcol, p.indpermut;
  }

  // ---------------------------------------------------------------------
  // The whole elimination

  predicate NonDecreasing(s: seq<nat>)
  {
    forall i, j :: 0 <= i < j < |s| ==> s[i] <= s[j]
  }

  /** Some row from k on holds an odd coefficient. */
  predicate OddFrom(rows: seq<Row>, k: nat)
  {
    exists q :: k <= q < |rows| && !NoOdd(rows[q])
  }

  /** Some row from k on is nonempty. */
  predicate NonEmptyFrom(rows: seq<Row>, k: nat)
  {
    exists q :: k <= q < |rows| && rows[q] != []
  }

  /** Every value of the input matrix is even. */
  predicate EvenMatrix(input: seq<InputRow>)
  {
    forall i, j :: 0 <= i < |input| && 0 <= j < |input[i]| ==> input[i][j].value % 2 == 0
  }

  /** Every value of the input matrix vanishes modulo 2^e. */
  predicate ZeroMatrix(input: seq<InputRow>, e: nat)
  {
    forall i, j :: 0 <= i < |input| && 0 <= j < |input[i]| ==> input[i][j].value % Pow2(e) == 0
  }

  function NonEmptyCount(rows: seq<Row>): nat
  {
    if |rows| == 0 then 0
    else NonEmptyCount(rows[..|rows| - 1]) + (if rows[|rows| - 1] == [] then 0 else 1)
  }

  /** Row q of a kept upper matrix: empty, or a sorted row whose odd head
      sits in the column numbered by the nonempty rows above it. Columns
      are the labels current when the row was the pivot: later column
      exchanges are not applied to rows already passed. */
  predicate Stair(rows: seq<Row>, q: nat)
    requires q < |rows|
  {
    || rows[q] == []
    || (Sorted(rows[q]) && rows[q][0].col == NonEmptyCount(rows[..q]) && IsOdd(rows[q][0].coeff))
  }

  predicate Staircase(rows: seq<Row>)
  {
    forall q :: 0 <= q < |rows| ==> Stair(rows, q)
  }

  /** What the initial pass makes of the input: active rows modulo 2^E,
      an odd coefficient exactly when the matrix is not even, a nonempty
      row exactly when the matrix does not vanish modulo 2^E. */
  lemma InputFacts(input: seq<InputRow>, rows: seq<Row>, e: nat)
    requires |rows| == |input|
    requires forall i :: 0 <= i < |input| ==> InputSorted(input[i])
    requires forall i :: 0 <= i < |input| ==> rows[i] == MaskRow(input[i], Pow2(e))
    ensures ActiveFrom(rows, 0, 0, Pow2(e))
    ensures e >= 1 ==> (OddFrom(rows, 0) <==> !EvenMatrix(input))
    ensures NonEmptyFrom(rows, 0) <==> !ZeroMatrix(input, e)
  {
    var m := Pow2(e);
    forall i | 0 <= i < |input|
      ensures Active(rows[i], 0, m)
      ensures rows[i] == [] <==> forall j :: 0 <= j < |input[i]| ==> input[i][j].value % m == 0
      ensures e >= 1 ==> (NoOdd(rows[i]) <==> forall j :: 0 <= j < |input[i]| ==> input[i][j].value % 2 == 0)
    {
      MaskRowView(input[i], m);
      MaskRowEmpty(input[i], m);
      MaskRowEven(input[i], m);
      if e >= 1 {
        forall j | 0 <= j < |input[i]|
          ensures IsOdd(input[i][j].value % m) <==> input[i][j].value % 2 != 0
        {
          ParityBelow(input[i][j].value, e);
        }
      }
    }
  }

  /** The ranks recorded so far: nondecreasing, bounded by the pivots
      found, and the first positive exactly when the matrix has an odd
      coefficient. */
  predicate RanksSoFar(ranks: seq<nat>, indcol: nat, odd: bool)
  {
    && NonDecreasing(ranks)
    && (forall i :: 0 <= i < |ranks| ==> ranks[i] <= indcol)
    && (|ranks| > 0 ==> (if odd then ranks[0] >= 1 else ranks[0] == 0))
  }

  lemma RanksAdvance(ranks: seq<nat>, ranks': seq<nat>, indcol: nat, indcol': nat, n: nat, odd: bool)
    requires RanksSoFar(ranks, indcol, odd) && Pushed(ranks', ranks, indcol, n) && indcol <= indcol'
    requires n > 0 && |ranks| == 0 ==> if odd then indcol >= 1 else indcol == 0
    ensures RanksSoFar(ranks', indcol', odd)
  {
    assert forall i :: 0 <= i < |ranks| ==> ranks'[i] == ranks[i] by {
      assert forall i :: 0 <= i < |ranks| ==> ranks'[..|ranks|][i] == ranks'[i];
    }
  }

  /** The row loop of lines 439-521: a pivot step for rows 0 .. n-2. */
  method EliminationLoop(rows0: seq<Row>, exponentMax: nat, d0: Density, sameColumnFirst: bool, preserveUpper: bool)
      returns (rows: seq<Row>, indcol: nat, e: nat, d: Density, ranks: seq<nat>)
    requires |rows0| >= 1 && ActiveFrom(rows0, 0, 0, Pow2(exponentMax))
    ensures |rows| == |rows0|
    ensures e <= exponentMax && (exponentMax >= 1 ==> e >= 1) && |ranks| == exponentMax - e
    ensures RanksSoFar(ranks, indcol, OddFrom(rows0, 0))
    ensures indcol <= |rows| - 1
    ensures Active(rows[|rows| - 1], indcol, Pow2(e))
    ensures OddFrom(rows0, 0) ==> indcol >= 1 || (e == exponentMax && !NoOdd(rows[|rows| - 1]))
    ensures !OddFrom(rows0, 0) ==> e == exponentMax ==> indcol == 0 && NoOdd(rows[|rows| - 1])
    ensures NonEmptyFrom(rows0, 0) ==> indcol >= 1 || rows[|rows| - 1] != []
    ensures !NonEmptyFrom(rows0, 0) ==> e == exponentMax && indcol == 0 && rows[|rows| - 1] == []
    ensures !preserveUpper ==> forall q :: 0 <= q < |rows| - 1 ==> rows[q] == []
    ensures preserveUpper ==> && indcol == NonEmptyCount(rows[..|rows| - 1])
                              && forall q :: 0 <= q < |rows| - 1 ==> Stair(rows, q)
  {
    var n := |rows0|;
    rows, indcol, e, d, ranks := rows0, 0, exponentMax, d0, [];
    var k := 0;
    while k < n - 1
      invariant k <= n - 1 && |rows| == n
      invariant e <= exponentMax && (exponentMax >= 1 ==> e >= 1) && |ranks| == exponentMax - e
      invariant RanksSoFar(ranks, indcol, OddFrom(rows0, 0))
      invariant indcol <= k
      invariant ActiveFrom(rows, k, indcol, Pow2(e))
      invariant OddFrom(rows0, 0) ==> indcol >= 1 || (e == exponentMax && OddFrom(rows, k))
      invariant !OddFrom(rows0, 0) ==> e == exponentMax ==> indcol == 0 && forall q :: k <= q < n ==> NoOdd(rows[q])
      invariant NonEmptyFrom(rows0, 0) ==> indcol >= 1 || NonEmptyFrom(rows, k)
      invariant !NonEmptyFrom(rows0, 0) ==>
                  e == exponentMax && indcol == 0 && forall q :: k <= q < n ==> rows[q] == []
      invariant !preserveUpper ==> forall q :: 0 <= q < k ==> rows[q] == []
      invariant preserveUpper ==> && indcol == NonEmptyCount(rows[..k])
                                  && forall q :: 0 <= q < k ==> Stair(rows, q)
    {
      var rows', indcol', e', d', ranks' := PivotStep(rows, k, indcol, e, d, ranks, sameColumnFirst, preserveUpper);
      RanksAdvance(ranks, ranks', indcol, indcol', e - e', OddFrom(rows0, 0));
      if preserveUpper {
        StairStep(rows, rows', k, indcol, indcol', Pow2(e'));
      }
      rows, indcol, e, d, ranks := rows', indcol', e', d', ranks';
      k := k + 1;
    }
  }

  /** A pivot step extends the staircase of kept rows by row k. */
  lemma StairStep(rows: seq<Row>, rows': seq<Row>, k: nat, indcol: nat, indcol': nat, m: nat)
    requires k < |rows| == |rows'| && forall q :: 0 <= q < k ==> rows'[q] == rows[q]
    requires indcol == NonEmptyCount(rows[..k]) && forall q :: 0 <= q < k ==> Stair(rows, q)
    requires rows'[k] == [] <==> indcol' == indcol
    requires indcol' == indcol || indcol' == indcol + 1
    requires indcol' == indcol + 1 ==> PivotRow(rows'[k], indcol, m)
    ensures indcol' == NonEmptyCount(rows'[..k + 1])
    ensures forall q :: 0 <= q <= k ==> Stair(rows', q)
  {
    assert rows'[..k] == rows[..k];
    assert rows'[..k + 1][..k] == rows'[..k];
    forall q | 0 <= q <= k
      ensures Stair(rows', q)
    {
      assert rows'[..q] == rows[..q];
      if q < k {
        assert Stair(rows, q);
      } else if indcol' == indcol + 1 {
        assert PivotRow(rows'[k], indcol, m);
      }
    }
  }

  /** gauss_rankin (lines 393-551): the ranks of the input modulo 2, 4,
      ..., 2^E, and the rows as the elimination leaves them. The source
      reads row Ni-1 as `last` before the loop, so it needs at least one
      row. */
  method GaussRankin(exponentMax: nat, input: seq<InputRow>, sameColumnFirst: bool, preserveUpper: bool)
      returns (ranks: seq<nat>, rows: seq<Row>)
    requires |input| >= 1
    requires forall i :: 0 <= i < |input| ==> InputSorted(input[i])
    ensures |ranks| == exponentMax && NonDecreasing(ranks)
    ensures forall i :: 0 <= i < |ranks| ==> ranks[i] <= |input|
    ensures exponentMax >= 1 ==> (ranks[0] == 0 <==> EvenMatrix(input))
    ensures exponentMax >= 1 ==> (ranks[exponentMax - 1] == 0 <==> ZeroMatrix(input, exponentMax))
    ensures |rows| == |input|
    ensures !preserveUpper ==> forall q :: 0 <= q < |input| - 1 ==> rows[q] == []
    ensures preserveUpper ==> Staircase(rows)
    ensures preserveUpper && exponentMax >= 1 ==> ranks[exponentMax - 1] == NonEmptyCount(rows)
  {
    var rows0, d0 := InitialPass(input, exponentMax);
    InputFacts(input, rows0, exponentMax);
    var indcol, e, d, ranks0;
    rows, indcol, e, d, ranks0 := EliminationLoop(rows0, exponentMax, d0, sameColumnFirst, preserveUpper);
    var last := |rows| - 1;
    var row', indcol', t, ranks1, c := LastRow(rows[last], indcol, e, d, ranks0, sameColumnFirst);
    ghost var before := rows;
    rows := rows[last := row'];
    assert rows[..last] == before[..last];
    FinalStair(before, rows, indcol, indcol', preserveUpper);
    // the closing loop `while (TWOK > 1)`: TWOK is 2^t
    ranks := ranks1;
    ghost var t0 := t;
    while t > 0
      invariant t <= t0 && Pushed(ranks, ranks1, indcol', t0 - t)
      decreases t
    {
      PushOne(ranks, ranks1, indcol', t0 - t);
      t := t - 1;
      ranks := ranks + [indcol'];
    }
    RanksShape(ranks0, ranks1, ranks, indcol, indcol', e - t0, t0);
  }

  /** The last row completes the staircase, and its pivot is the last
      step counted. */
  lemma FinalStair(before: seq<Row>, rows: seq<Row>, indcol: nat, indcol': nat, preserveUpper: bool)
    requires |rows| == |before| >= 1 && rows[..|rows| - 1] == before[..|rows| - 1]
    requires preserveUpper ==> && indcol == NonEmptyCount(before[..|before| - 1])
                               && forall q :: 0 <= q < |before| - 1 ==> Stair(before, q)
    requires rows[|rows| - 1] == [] ==> indcol' == indcol
    requires rows[|rows| - 1] != [] ==>
               && indcol' == indcol + 1 && Sorted(rows[|rows| - 1])
               && rows[|rows| - 1][0].col == indcol && IsOdd(rows[|rows| - 1][0].coeff)
    ensures preserveUpper ==> Staircase(rows) && indcol' == NonEmptyCount(rows)
  {
    if preserveUpper {
      var last := |rows| - 1;
      assert rows[..last + 1][..last] == rows[..last];
      assert rows[..last + 1] == rows;
      forall q | 0 <= q < |rows|
        ensures Stair(rows, q)
      {
        if q < last {
          assert rows[..q] == before[..q];
          assert Stair(before, q);
        }
      }
    }
  }

  /** The recorded ranks: those of the row loop, then the last row's
      halvings, then the closing loop, each pushing the current count. */
  lemma RanksShape(ranks0: seq<nat>, ranks1: seq<nat>, ranks: seq<nat>, indcol: nat, indcol': nat, n1: nat, n2: nat)
    requires NonDecreasing(ranks0) && forall i :: 0 <= i < |ranks0| ==> ranks0[i] <= indcol
    requires indcol <= indcol'
    requires Pushed(ranks1, ranks0, indcol, n1)
    requires Pushed(ranks, ranks1, indcol', n2)
    ensures NonDecreasing(ranks) && forall i :: 0 <= i < |ranks| ==> ranks[i] <= indcol'
    ensures forall i :: 0 <= i < |ranks0| ==> ranks[i] == ranks0[i]
    ensures forall i :: |ranks0| <= i < |ranks1| ==> ranks[i] == indcol
  {
    assert forall i :: 0 <= i < |ranks1| ==> ranks[i] == ranks1[i];
    assert forall i :: 0 <= i < |ranks0| ==> ranks1[i] == ranks0[i];
  }

  /** The two bits of the `StaticParameters` word that select the
      elimination's policies. */
  datatype Flag = PrivilegiateNoColumnPivoting | PreserveUpperMatrix

  /** prime_power_rankin (lines 554-569): the flag word picks one of the
      four instantiations of gauss_rankin. */
  method PrimePowerRankin(exponent: nat, input: seq<InputRow>, params: set<Flag>)
      returns (ranks: seq<nat>, rows: seq<Row>)
    requires |input| >= 1
    requires forall i :: 0 <= i < |input| ==> InputSorted(input[i])
    ensures |ranks| == exponent && NonDecreasing(ranks)
    ensures forall i :: 0 <= i < |ranks| ==> ranks[i] <= |input|
    ensures exponent >= 1 ==> (ranks[0] == 0 <==> EvenMatrix(input))
    ensures exponent >= 1 ==> (ranks[exponent - 1] == 0 <==> ZeroMatrix(input, exponent))
    ensures |rows| == |input|
    ensures PreserveUpperMatrix !in params ==> forall q :: 0 <= q < |input| - 1 ==> rows[q] == []
    ensures PreserveUpperMatrix in params ==> Staircase(rows)
    ensures PreserveUpperMatrix in params && exponent >= 1 ==> ranks[exponent - 1] == NonEmptyCount(rows)
  {
    ranks, rows := GaussRankin(exponent, input, PrivilegiateNoColumnPivoting in params, PreserveUpperMatrix in params);
  }
}
