/** Pivot searchers and column strategy (lines 146-244): pick an entry with
    an odd coefficient, the only kind invertible modulo 2^E, move it to the
    head of its row, and relabel it with the next pivot column `indcol`.

    Sentinels of `indpermut`: -1 for an empty row, -2 for a row with no odd
    coefficient; otherwise the original column of the chosen pivot. The
    relabelling is one side of the column swap indcol <-> indpermut that
    the elimination then applies to every row below. */
module PivotSearch {
  import opened Arith
  import opened SparseRow

  /** The pivot state a searcher updates: the row it may permute, the pivot
      counter `indcol` and the result `indpermut`. */
  datatype Pick = Pick(row: Row, indcol: nat, indpermut: int)

  /** The outcome of CherchePivot together with the updated densities. */
  datatype Search = Search(pick: Pick, density: Density)

  /** The row can be pivoted in place: its head sits in column indcol and
      is odd. */
  predicate SameColumnHit(row: Row, indcol: nat)
  {
    |row| > 0 && row[0].col == indcol && IsOdd(row[0].coeff)
  }

  /** SameColumnPivoting (lines 149-161). With the policy
      PrivilegiateNoColumnPivoting off it does nothing; on, it accepts the
      head entry when it already sits in column indcol and is odd. */
  function SameColumnPivoting(row: Row, indcol: nat, indpermut: int, sameColumnFirst: bool): (r: Pick)
    ensures r.row == row
    ensures sameColumnFirst && SameColumnHit(row, indcol) ==> r.indcol == indcol + 1 && r.indpermut == indcol
    ensures !(sameColumnFirst && SameColumnHit(row, indcol)) ==> r.indcol == indcol && r.indpermut == indpermut
  {
    if sameColumnFirst && |row| > 0 && indcol == row[0].col && IsOdd(row[0].coeff) then
      Pick(row, indcol + 1, indcol)
    else
      Pick(row, indcol, indpermut)
  }

  /** CherchePivot without densities (lines 184-195): takes the head entry
      whatever its coefficient and relabels it with column indcol. */
  function CherchePivotHead(row: Row, indcol: nat): (r: Pick)
    ensures |row| == 0 ==> r == Pick(row, indcol, -1)
    ensures |row| > 0 ==> r.indpermut == row[0].col && r.indcol == indcol + 1
    ensures |row| > 0 ==> |r.row| == |row| && r.row[0] == Entry(indcol, row[0].coeff)
                          && r.row[1..] == row[1..]
    ensures |row| > 0 && Sorted(row) && ColsFrom(row, indcol) ==>
              Sorted(r.row) && SwapsColumns(r.row, row, indcol, row[0].col)
  {
    if |row| == 0 then Pick(row, indcol, -1)
    else
      RelabelHeadView(row, indcol);
      Pick(Relabel(row, indcol), indcol + 1, row[0].col)
  }

  /** The head entry relabelled as column indcol. */
  function Relabel(row: Row, indcol: nat): Row
    requires |row| > 0
  {
    if row[0].col != indcol then row[0 := Entry(indcol, row[0].coeff)] else row
  }

  /** Relabelling the head of a sorted row with a smaller, unused column
      swaps the two columns in the vector the row denotes. */
  lemma RelabelHeadView(row: Row, indcol: nat)
    requires |row| > 0
    ensures |Relabel(row, indcol)| == |row| && Relabel(row, indcol)[1..] == row[1..]
    ensures SameCoeffs(Relabel(row, indcol), row)
    ensures Sorted(row) && ColsFrom(row, indcol) ==>
              Sorted(Relabel(row, indcol)) && SwapsColumns(Relabel(row, indcol), row, indcol, row[0].col)
  {
    assert Coeffs(Relabel(row, indcol)) == Coeffs(row);
    var q := row[0].col;
    if q != indcol && Sorted(row) && ColsFrom(row, indcol) {
      var r := row[0 := Entry(indcol, row[0].coeff)];
      assert Sorted(r);
      var f := (c: nat) => Coeff(row, Swap(indcol, q, c));
      forall i | 0 <= i < |r|
        ensures f(r[i].col) == r[i].coeff
      {
        CoeffAt(row, i);
      }
      forall c | !HasCol(r, c)
        ensures f(c) == 0
      {
        if c == q {
          CoeffBelow(row, indcol, q);
        } else {
          assert c != indcol by { assert r[0].col == indcol; }
          assert !HasCol(row, c) by {
            forall i | 0 <= i < |row|
              ensures row[i].col != c
            {
              if i > 0 {
                assert r[i] == row[i];
              }
            }
          }
          CoeffMissing(row, c);
        }
      }
      CoeffByEntries(r, f);
    }
  }

  // ---------------------------------------------------------------------
  // The density-driven choice of CherchePivot

  /** Index of the first odd coefficient at or after j (loop at 205-207). */
  function FirstOdd(row: Row, j: nat): (pp: nat)
    requires j <= |row|
    ensures j <= pp <= |row|
    ensures pp < |row| ==> IsOdd(row[pp].coeff)
    ensures forall q :: j <= q < pp ==> !IsOdd(row[q].coeff)
    decreases |row| - j
  {
    if j == |row| then j
    else if IsOdd(row[j].coeff) then j
    else FirstOdd(row, j + 1)
  }

  /** The density of the column of entry q. */
  function DensityAt(row: Row, d: Density, q: nat): int
    requires q < |row|
  {
    Get(d, row[q].col)
  }

  /** p is the pivot the heuristic prefers: an odd entry whose column has
      the strictly smallest density, the earliest one among ties. */
  predicate IsSparsestOdd(row: Row, d: Density, p: nat)
  {
    && p < |row|
    && IsOdd(row[p].coeff)
    && (forall q :: 0 <= q < |row| && IsOdd(row[q].coeff) ==> DensityAt(row, d, q) >= DensityAt(row, d, p))
    && (forall q :: 0 <= q < p && IsOdd(row[q].coeff) ==> DensityAt(row, d, q) > DensityAt(row, d, p))
  }

  /** The preferred pivot is unique. */
  lemma SparsestUnique(row: Row, d: Density, p: nat, p': nat)
    requires IsSparsestOdd(row, d, p) && IsSparsestOdd(row, d, p')
    ensures p == p'
  {
    if p < p' {
    } else if p' < p {
    }
  }

  lemma SparsestOnly(row: Row, d: Density, p: nat)
    requires IsSparsestOdd(row, d, p)
    ensures forall p': nat :: IsSparsestOdd(row, d, p') ==> p' == p
  {
    forall p' | IsSparsestOdd(row, d, p')
      ensures p' == p
    {
      SparsestUnique(row, d, p, p');
    }
  }

  /** The scan of lines 210-217: `ds` is the density of the best entry p
      so far, replaced only by a strictly smaller density at an odd entry. */
  function Sparsest(row: Row, d: Density, j: nat, p: nat): (r: nat)
    requires p < j <= |row| && IsOdd(row[p].coeff)
    requires forall q :: 0 <= q < j && IsOdd(row[q].coeff) ==> DensityAt(row, d, q) >= DensityAt(row, d, p)
    requires forall q :: 0 <= q < p && IsOdd(row[q].coeff) ==> DensityAt(row, d, q) > DensityAt(row, d, p)
    ensures IsSparsestOdd(row, d, r)
    decreases |row| - j
  {
    if j == |row| then p
    else if DensityAt(row, d, j) < DensityAt(row, d, p) && IsOdd(row[j].coeff) then
      Sparsest(row, d, j + 1, j)
    else
      Sparsest(row, d, j + 1, p)
  }

  /** Move entry p to the head (lines 218-232): when the head already sits
      in column indcol the two coefficients are exchanged, otherwise the
      entries before p shift right by one. */
  function MoveToHead(row: Row, p: nat, indcol: nat): Row
    requires p < |row|
  {
    if p == 0 then row
    else if row[0].col == indcol then
      row[0 := Entry(row[0].col, row[p].coeff)][p := Entry(row[p].col, row[0].coeff)]
    else
      [row[p]] + row[..p] + row[p + 1..]
  }

  /** CherchePivot with densities (lines 199-244). */
  function CherchePivot(row: Row, indcol: nat, d: Density): (r: Search)
    ensures |row| == 0 ==> r == Search(Pick(row, indcol, -1), d)
    ensures |row| > 0 && NoOdd(row) ==> r == Search(Pick(row, indcol, -2), d)
    ensures |row| > 0 && !NoOdd(row) ==>
              && r.pick.indcol == indcol + 1
              && SameCoeffs(r.pick.row, row)
              && r.pick.row[0].col == indcol
              && IsOdd(r.pick.row[0].coeff)
              && (exists p: nat :: IsSparsestOdd(row, d, p))
              && (forall p: nat :: IsSparsestOdd(row, d, p) ==>
                    r.pick.indpermut == row[p].col && r.pick.row[0].coeff == row[p].coeff)
              && (forall c :: Get(r.density, c) == Get(d, c) - Count(r.pick.row, c))
    ensures |row| > 0 && !NoOdd(row) && Sorted(row) && ColsFrom(row, indcol) ==>
              && r.pick.indpermut >= indcol
              && Sorted(r.pick.row)
              && SwapsColumns(r.pick.row, row, indcol, r.pick.indpermut)
  {
    if |row| == 0 then Search(Pick(row, indcol, -1), d)
    else
      var pp := FirstOdd(row, 0);
      if pp == |row| then Search(Pick(row, indcol, -2), d)
      else
        var p := Sparsest(row, d, pp + 1, pp);
        var placed := Place(row, p, indcol);
        PivotPlacement(row, p, indcol);
        SparsestOnly(row, d, p);
        Search(Pick(placed, indcol + 1, row[p].col), DecrementColumns(d, placed))
  }

  lemma CoeffsConcat(a: Row, b: Row)
    ensures Coeffs(a + b) == Coeffs(a) + Coeffs(b)
  {
  }

  /** Entry p moved to the head and relabelled as column indcol. */
  function Place(row: Row, p: nat, indcol: nat): Row
    requires p < |row|
  {
    var moved := MoveToHead(row, p, indcol);
    if row[p].col != indcol then moved[0 := Entry(indcol, moved[0].coeff)] else moved
  }

  /** The rotation of line 230-231 followed by the relabelling. */
  function Rotated(row: Row, p: nat, indcol: nat): Row
    requires p < |row|
  {
    ([row[p]] + row[..p] + row[p + 1..])[0 := Entry(indcol, row[p].coeff)]
  }

  /** The coefficient exchange of lines 224-228. */
  function Exchanged(row: Row, p: nat): Row
    requires p < |row|
  {
    row[0 := Entry(row[0].col, row[p].coeff)][p := Entry(row[p].col, row[0].coeff)]
  }

  /** What moving and relabelling entry p does to the row. */
  lemma PivotPlacement(row: Row, p: nat, indcol: nat)
    requires p < |row|
    ensures Place(row, p, indcol)[0] == Entry(indcol, row[p].coeff)
    ensures SameCoeffs(Place(row, p, indcol), row)
    ensures Sorted(row) && ColsFrom(row, indcol) ==>
              && row[p].col >= indcol
              && Sorted(Place(row, p, indcol))
              && SwapsColumns(Place(row, p, indcol), row, indcol, row[p].col)
  {
    if p == 0 {
      assert Place(row, p, indcol) == Relabel(row, indcol);
      RelabelHeadView(row, indcol);
    } else if row[0].col == indcol {
      assert Place(row, p, indcol) == Exchanged(row, p);
      SwapCoeffsView(row, p, indcol);
    } else {
      assert Place(row, p, indcol) == Rotated(row, p, indcol);
      RotateCoeffs(row, p, indcol);
      if Sorted(row) && ColsFrom(row, indcol) {
        RotateView(row, p, indcol);
      }
    }
  }

  /** Rotating entry p to the front and relabelling it keeps the multiset
      of coefficients and their bounds. */
  lemma RotateCoeffs(row: Row, p: nat, indcol: nat)
    requires 0 < p < |row|
    ensures SameCoeffs(Rotated(row, p, indcol), row)
  {
    var moved := [row[p]] + row[..p] + row[p + 1..];
    var r := Rotated(row, p, indcol);
    assert Coeffs(r) == Coeffs(moved);
    assert row == row[..p] + [row[p]] + row[p + 1..];
    CoeffsConcat([row[p]] + row[..p], row[p + 1..]);
    CoeffsConcat([row[p]], row[..p]);
    CoeffsConcat(row[..p] + [row[p]], row[p + 1..]);
    CoeffsConcat(row[..p], [row[p]]);
    assert multiset(Coeffs(moved)) == multiset(Coeffs(row));
    forall m | Reduced(row, m)
      ensures Reduced(r, m)
    {
      forall i | 0 <= i < |r|
        ensures 0 < r[i].coeff < m
      {
        if i == 0 {
        } else if i <= p {
          assert r[i] == row[i - 1];
        } else {
          assert r[i] == row[i];
        }
      }
    }
  }

  /** The head already sits in column indcol: exchanging the coefficients
      of entries 0 and p swaps columns indcol and row[p].col. */
  lemma SwapCoeffsView(row: Row, p: nat, indcol: nat)
    requires 0 < p < |row| && row[0].col == indcol
    ensures SameCoeffs(Exchanged(row, p), row)
    ensures Sorted(row) ==>
              && row[p].col >= indcol
              && Sorted(Exchanged(row, p))
              && SwapsColumns(Exchanged(row, p), row, indcol, row[p].col)
  {
    var r := Exchanged(row, p);
    var cs := Coeffs(row);
    assert Coeffs(r) == cs[0 := cs[p]][p := cs[0]];
    assert multiset(Coeffs(r)) == multiset(cs);
    forall m | Reduced(row, m)
      ensures Reduced(r, m)
    {
      forall i | 0 <= i < |r|
        ensures 0 < r[i].coeff < m
      {
        if i != 0 && i != p {
          assert r[i] == row[i];
        }
      }
    }
    if Sorted(row) {
      var q := row[p].col;
      assert Sorted(r) by {
        forall i, j | 0 <= i < j < |r|
          ensures r[i].col < r[j].col
        {
          assert r[i].col == row[i].col && r[j].col == row[j].col;
        }
      }
      var f := (c: nat) => Coeff(row, Swap(indcol, q, c));
      forall i | 0 <= i < |r|
        ensures f(r[i].col) == r[i].coeff
      {
        CoeffAt(row, i);
        if i == 0 {
          CoeffAt(row, p);
        } else if i == p {
          CoeffAt(row, 0);
        } else {
          assert r[i] == row[i];
          assert row[0].col < row[i].col;
          assert row[i].col != q by {
            if i < p { assert row[i].col < row[p].col; } else { assert row[p].col < row[i].col; }
          }
        }
      }
      forall c | !HasCol(r, c)
        ensures f(c) == 0
      {
        assert r[0].col == indcol && r[p].col == q;
        assert !HasCol(row, c) by {
          forall i | 0 <= i < |row|
            ensures row[i].col != c
          {
            assert r[i].col == row[i].col;
          }
        }
        CoeffMissing(row, c);
      }
      CoeffByEntries(r, f);
    }
  }

  /** Where the entries of the rotated row come from. */
  lemma RotatedEntries(row: Row, p: nat, indcol: nat)
    requires p < |row|
    ensures |Rotated(row, p, indcol)| == |row|
    ensures Rotated(row, p, indcol)[0] == Entry(indcol, row[p].coeff)
    ensures forall i :: 0 < i <= p ==> Rotated(row, p, indcol)[i] == row[i - 1]
    ensures forall i :: p < i < |row| ==> Rotated(row, p, indcol)[i] == row[i]
  {
  }

  /** Moving entry p to the front as column indcol, below every column of
      the row, keeps the row sorted. */
  lemma RotateSorted(row: Row, p: nat, indcol: nat)
    requires 0 < p < |row| && Sorted(row) && ColsFrom(row, indcol) && row[0].col != indcol
    ensures Sorted(Rotated(row, p, indcol))
  {
    var r := Rotated(row, p, indcol);
    RotatedEntries(row, p, indcol);
    assert row[0].col > indcol;
    forall i, j | 0 <= i < j < |r|
      ensures r[i].col < r[j].col
    {
      if i == 0 {
        if j <= p { assert row[0].col <= row[j - 1].col; }
      } else if j <= p {
        assert row[i - 1].col < row[j - 1].col;
      } else if i <= p {
        assert row[i - 1].col < row[j].col;
      }
    }
  }

  /** The head lies beyond column indcol: entry p moves to the front as
      column indcol, which swaps columns indcol and row[p].col. */
  lemma RotateView(row: Row, p: nat, indcol: nat)
    requires 0 < p < |row| && Sorted(row) && ColsFrom(row, indcol) && row[0].col != indcol
    ensures row[p].col > indcol
    ensures Sorted(Rotated(row, p, indcol))
    ensures SwapsColumns(Rotated(row, p, indcol), row, indcol, row[p].col)
  {
    var r := Rotated(row, p, indcol);
    var q := row[p].col;
    RotatedEntries(row, p, indcol);
    RotateSorted(row, p, indcol);
    var f := (c: nat) => Coeff(row, Swap(indcol, q, c));
    forall i | 0 <= i < |r|
      ensures f(r[i].col) == r[i].coeff
    {
      if i == 0 {
        CoeffAt(row, p);
      } else if i <= p {
        CoeffAt(row, i - 1);
        assert row[i - 1].col < q;
      } else {
        CoeffAt(row, i);
        assert row[i].col > q;
      }
    }
    forall c | !HasCol(r, c)
      ensures f(c) == 0
    {
      assert r[0].col == indcol;
      if c == q {
        CoeffBelow(row, indcol, row[0].col);
      } else {
        assert !HasCol(row, c) by {
          forall i | 0 <= i < |row|
            ensures row[i].col != c
          {
            if i < p {
              assert r[i + 1] == row[i];
            } else if i > p {
              assert r[i] == row[i];
            }
          }
        }
        CoeffMissing(row, c);
      }
    }
    CoeffByEntries(r, f);
  }
}
