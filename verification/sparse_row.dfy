/** Sparse rows of the elimination: sequences of (column, coefficient)
    entries, and the column-density table. A row also denotes a sparse
    vector, `Coeff(row, c)`, which is how the contracts of the pivot search
    and of the elimination state what a row means. */
module SparseRow {
  import opened Arith

  datatype Entry = Entry(col: nat, coeff: nat)

  type Row = seq<Entry>

  /** Column index -> number of rows holding that column. The source uses a
      `std::vector<size_t>` read through a `(long)` cast, so a count that
      wraps below zero reads as a negative number; a map to `int` that
      defaults to 0 behaves the same way. */
  type Density = map<nat, int>

  function Get(d: Density, c: nat): int
  {
    if c in d then d[c] else 0
  }

  /** `++columns[c]` (delta 1) or `--columns[c]` (delta -1). */
  function Bump(d: Density, c: nat, delta: int): (r: Density)
    ensures Get(r, c) == Get(d, c) + delta
    ensures forall c' :: c' != c ==> Get(r, c') == Get(d, c')
  {
    d[c := Get(d, c) + delta]
  }

  /** Columns strictly increase along the row. */
  predicate Sorted(row: Row)
  {
    forall i, j :: 0 <= i < j < |row| ==> row[i].col < row[j].col
  }

  /** Every stored coefficient is a nonzero residue below m. */
  predicate Reduced(row: Row, m: nat)
  {
    forall i :: 0 <= i < |row| ==> 0 < row[i].coeff < m
  }

  /** Every column is at least k. */
  predicate ColsFrom(row: Row, k: nat)
  {
    forall i :: 0 <= i < |row| ==> row[i].col >= k
  }

  /** A row of the active submatrix at pivot step k: sorted, reduced modulo
      m, and free of the columns 0 .. k-1 already eliminated. */
  predicate Active(row: Row, k: nat, m: nat)
  {
    Sorted(row) && Reduced(row, m) && ColsFrom(row, k)
  }

  predicate NoOdd(row: Row)
  {
    forall i :: 0 <= i < |row| ==> !IsOdd(row[i].coeff)
  }

  predicate HasCol(row: Row, c: nat)
  {
    exists i :: 0 <= i < |row| && row[i].col == c
  }

  /** The coefficient the row holds in column c (0 when absent). */
  function Coeff(row: Row, c: nat): nat
  {
    if |row| == 0 then 0
    else if row[0].col == c then row[0].coeff
    else Coeff(row[1..], c)
  }

  /** How many entries of the row carry column c. */
  function Count(row: Row, c: nat): nat
  {
    if |row| == 0 then 0
    else (if row[0].col == c then 1 else 0) + Count(row[1..], c)
  }

  function Coeffs(row: Row): seq<nat>
  {
    seq(|row|, i requires 0 <= i < |row| => row[i].coeff)
  }

  /** Swap of the two columns a and b, applied to column c. */
  function Swap(a: nat, b: nat, c: nat): nat
  {
    if c == a then b else if c == b then a else c
  }

  /** r denotes the vector of `row` with columns a and b exchanged. */
  ghost predicate SwapsColumns(r: Row, row: Row, a: nat, b: nat)
  {
    forall c :: Coeff(r, c) == Coeff(row, Swap(a, b, c))
  }

  /** r holds the same coefficients as row, possibly in other places. */
  ghost predicate SameCoeffs(r: Row, row: Row)
  {
    && |r| == |row|
    && multiset(Coeffs(r)) == multiset(Coeffs(row))
    && (forall m :: Reduced(row, m) ==> Reduced(r, m))
  }

  /** Moving coefficients around creates no odd one. */
  lemma SameCoeffsNoOdd(r: Row, row: Row)
    requires SameCoeffs(r, row) && NoOdd(row)
    ensures NoOdd(r)
  {
    forall i | 0 <= i < |r|
      ensures !IsOdd(r[i].coeff)
    {
      assert Coeffs(r)[i] == r[i].coeff;
      assert r[i].coeff in multiset(Coeffs(row));
      var j :| 0 <= j < |row| && Coeffs(row)[j] == r[i].coeff;
    }
  }

  /** An odd head survives as an odd coefficient of the original row. */
  lemma SameCoeffsOdd(r: Row, row: Row)
    requires SameCoeffs(r, row) && |r| > 0 && IsOdd(r[0].coeff)
    ensures !NoOdd(row)
  {
    assert Coeffs(r)[0] == r[0].coeff;
    assert r[0].coeff in multiset(Coeffs(row));
    var j :| 0 <= j < |row| && Coeffs(row)[j] == r[0].coeff;
    assert IsOdd(row[j].coeff);
  }

  // ---------------------------------------------------------------------
  // The sparse-vector view

  lemma {:induction false} CoeffAt(row: Row, i: nat)
    requires Sorted(row) && i < |row|
    ensures Coeff(row, row[i].col) == row[i].coeff
    decreases i
  {
    if i > 0 {
      assert row[0].col < row[i].col;
      assert row[1..][i - 1] == row[i];
      CoeffAt(row[1..], i - 1);
    }
  }

  lemma {:induction false} CoeffMissing(row: Row, c: nat)
    requires !HasCol(row, c)
    ensures Coeff(row, c) == 0
    decreases |row|
  {
    if |row| > 0 {
      assert row[0].col != c;
      assert !HasCol(row[1..], c) by {
        forall i | 0 <= i < |row| - 1
          ensures row[1..][i].col != c
        {
          assert row[1..][i] == row[i + 1];
        }
      }
      CoeffMissing(row[1..], c);
    }
  }

  lemma CoeffBelow(row: Row, c: nat, k: nat)
    requires ColsFrom(row, k) && c < k
    ensures Coeff(row, c) == 0
  {
    CoeffMissing(row, c);
  }

  /** Two sorted rows that agree on every entry of the first and hold no
      column outside it denote the same vector: the tool for proving
      `Coeff(r, c) == f(c)` entry by entry. */
  lemma CoeffByEntries(r: Row, f: nat -> nat)
    requires Sorted(r)
    requires forall i :: 0 <= i < |r| ==> f(r[i].col) == r[i].coeff
    requires forall c :: !HasCol(r, c) ==> f(c) == 0
    ensures forall c :: Coeff(r, c) == f(c)
  {
    forall c
      ensures Coeff(r, c) == f(c)
    {
      if HasCol(r, c) {
        var i :| 0 <= i < |r| && r[i].col == c;
        CoeffAt(r, i);
      } else {
        CoeffMissing(r, c);
      }
    }
  }

  /** A sorted, reduced row is determined by the vector it denotes. */
  lemma {:induction false} RowsEqualByCoeff(r: Row, s: Row, m: nat)
    requires Sorted(r) && Sorted(s) && Reduced(r, m) && Reduced(s, m)
    requires forall c :: Coeff(r, c) == Coeff(s, c)
    ensures r == s
    decreases |r| + |s|
  {
    if |r| > 0 && |s| > 0 {
      CoeffAt(r, 0);
      CoeffAt(s, 0);
      if r[0].col < s[0].col {
        SortedNoSmaller(s, r[0].col);
        assert false;
      } else if s[0].col < r[0].col {
        SortedNoSmaller(r, s[0].col);
        assert false;
      }
      assert r[0] == s[0];
      SortedTail(r);
      SortedTail(s);
      forall c
        ensures Coeff(r[1..], c) == Coeff(s[1..], c)
      {
        if c == r[0].col {
          SortedNoSmaller(r, c);
          SortedNoSmaller(s, c);
        } else {
          assert Coeff(r, c) == Coeff(r[1..], c);
          assert Coeff(s, c) == Coeff(s[1..], c);
        }
      }
      RowsEqualByCoeff(r[1..], s[1..], m);
      assert r == [r[0]] + r[1..];
      assert s == [s[0]] + s[1..];
    } else if |r| > 0 {
      CoeffAt(r, 0);
    } else if |s| > 0 {
      CoeffAt(s, 0);
    }
  }

  lemma SortedTail(row: Row)
    requires Sorted(row) && |row| > 0
    ensures Sorted(row[1..]) && ColsFrom(row[1..], row[0].col + 1)
  {
  }

  /** In a sorted row the order of columns is the order of indices. */
  lemma SortedIndex(row: Row, i: nat, j: nat)
    requires Sorted(row) && i < |row| && j < |row| && row[i].col <= row[j].col
    ensures i <= j
  {
    if j < i {
    }
  }

  /** In a sorted row every column is at least the head's. */
  lemma SortedFrom(row: Row, b: nat)
    requires Sorted(row) && (|row| == 0 || row[0].col >= b)
    ensures ColsFrom(row, b)
  {
    forall i | 0 < i < |row|
      ensures row[i].col >= b
    {
      assert row[0].col < row[i].col;
    }
  }

  /** A sorted row holds nothing in a column below its head. */
  lemma SortedNoSmaller(row: Row, c: nat)
    requires Sorted(row) && (|row| == 0 || c <= row[0].col)
    ensures |row| > 0 && c == row[0].col ==> Coeff(row[1..], c) == 0
    ensures |row| > 0 && c < row[0].col ==> Coeff(row, c) == 0
  {
    if |row| > 0 {
      CoeffBelow(row[1..], c, row[0].col + 1);
      if c < row[0].col {
        CoeffBelow(row, c, row[0].col);
      }
    }
  }

  // ---------------------------------------------------------------------
  // Counting columns

  lemma {:induction false} CountConcat(a: Row, b: Row, c: nat)
    ensures Count(a + b, c) == Count(a, c) + Count(b, c)
    decreases |a|
  {
    if |a| > 0 {
      assert (a + b)[1..] == a[1..] + b;
      CountConcat(a[1..], b, c);
    } else {
      assert a + b == b;
    }
  }

  lemma {:induction false} CountMissing(row: Row, c: nat)
    requires !HasCol(row, c)
    ensures Count(row, c) == 0
    decreases |row|
  {
    if |row| > 0 {
      assert !HasCol(row[1..], c) by {
        forall i | 0 <= i < |row| - 1
          ensures row[1..][i].col != c
        {
          assert row[1..][i] == row[i + 1];
        }
      }
      CountMissing(row[1..], c);
    }
  }

  /** In a sorted row a column occurs at most once. */
  lemma {:induction false} CountSorted(row: Row, c: nat)
    requires Sorted(row)
    ensures Count(row, c) == (if HasCol(row, c) then 1 else 0)
    decreases |row|
  {
    if |row| > 0 {
      if row[0].col == c {
        CountMissing(row[1..], c);
      } else {
        CountSorted(row[1..], c);
        if HasCol(row, c) {
          var i :| 0 <= i < |row| && row[i].col == c;
          assert row[1..][i - 1] == row[i];
        }
        if HasCol(row[1..], c) {
          var i :| 0 <= i < |row| - 1 && row[1..][i].col == c;
          assert row[i + 1].col == c;
        }
      }
    }
  }

  /** Decrement the density of every column of the row: the loop
      `for (j = nj; j--;) --columns[row[j].first]` of CherchePivot. */
  function DecrementColumns(d: Density, row: Row): (r: Density)
    ensures forall c :: Get(r, c) == Get(d, c) - Count(row, c)
    decreases |row|
  {
    if |row| == 0 then d
    else Bump(DecrementColumns(d, row[1..]), row[0].col, -1)
  }
}
