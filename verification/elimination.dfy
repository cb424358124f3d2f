/** FaireElimination (lines 255-384) and PreserveUpperMatrixRow (246-252):
    the row operation `target := target - (target[k] / pivot[k]) * pivot`
    modulo 2^e on sparse rows, preceded by the column swap k <-> indpermut
    the pivot search chose, with the density table kept in step. */
module Elimination {
  import opened Arith
  import opened SparseRow
  import opened ModularInverse
  import opened PivotSearch

  /** A row together with the density table after an update. */
  datatype Updated = Updated(row: Row, density: Density)

  /** The pivot row at step k: sorted, reduced modulo m, its head in column
      k and odd. */
  predicate PivotRow(row: Row, k: nat, m: nat)
  {
    |row| > 0 && Sorted(row) && Reduced(row, m) && row[0].col == k && IsOdd(row[0].coeff)
  }

  /** The index of the first entry at or after j whose column is at least
      c: the scanning loops at lines 271-272, 323-324 and 369-370. */
  function FirstFrom(row: Row, c: nat, j: nat): (r: nat)
    requires j <= |row|
    ensures j <= r <= |row|
    ensures forall i :: j <= i < r ==> row[i].col < c
    ensures r < |row| ==> row[r].col >= c
    decreases |row| - j
  {
    if j == |row| || row[j].col >= c then j else FirstFrom(row, c, j + 1)
  }

  /** `x` is the coefficient the merge produces from target coefficient
      `a` and pivot coefficient `b`. */
  predicate Combines(x: nat, a: nat, b: nat, hc: nat, m: nat)
    requires m > 0
  {
    x == (a + hc * b) % m
  }

  /** The merge loop of lines 326-359: walk the pivot tail `pt` against the
      target tail `ct`, copying target entries the pivot does not touch,
      adding hc times the pivot entry where both are present (dropping a
      sum that vanishes), and creating fill-in where only the pivot is. */
  function Merge(ct: Row, pt: Row, hc: nat, m: nat, d: Density): (r: Updated)
    requires m > 0
    ensures Balanced(r, d, ct)
    ensures forall b :: ColsFrom(ct, b) && ColsFrom(pt, b) ==> ColsFrom(r.row, b)
    ensures Sorted(ct) && Sorted(pt) && Reduced(ct, m) ==>
              && Sorted(r.row)
              && Reduced(r.row, m)
              && forall c :: Combines(Coeff(r.row, c), Coeff(ct, c), Coeff(pt, c), hc, m)
    decreases |ct| + |pt|
  {
    if |pt| == 0 then
      MergeCopyAll(ct, hc, m);
      Updated(ct, d)
    else if |ct| > 0 && ct[0].col < pt[0].col then
      var rest := Merge(ct[1..], pt, hc, m, d);
      MergeCopyStep(ct, pt, hc, m, rest.row);
      ConsBound(ct, pt, ct[1..], pt, ct[0], rest.row);
      BalancedCons(rest, d, ct);
      Updated([ct[0]] + rest.row, rest.density)
    else if |ct| > 0 && ct[0].col == pt[0].col then
      var v := (ct[0].coeff + hc * pt[0].coeff) % m;
      if v != 0 then
        var rest := Merge(ct[1..], pt[1..], hc, m, d);
        MergeSumStep(ct, pt, hc, m, rest.row);
        ConsBound(ct, pt, ct[1..], pt[1..], Entry(ct[0].col, v), rest.row);
        BalancedCons(rest, d, ct);
        Updated([Entry(ct[0].col, v)] + rest.row, rest.density)
      else
        var rest := Merge(ct[1..], pt[1..], hc, m, Bump(d, ct[0].col, -1));
        MergeCancelStep(ct, pt, hc, m, rest.row);
        BalancedDrop(rest, d, ct);
        rest
    else
      var v := (hc * pt[0].coeff) % m;
      if v != 0 then
        var rest := Merge(ct, pt[1..], hc, m, Bump(d, pt[0].col, 1));
        MergeFillStep(ct, pt, hc, m, rest.row);
        ConsBound(ct, pt, ct, pt[1..], Entry(pt[0].col, v), rest.row);
        BalancedFill(rest, d, ct, pt[0].col, v);
        Updated([Entry(pt[0].col, v)] + rest.row, rest.density)
      else
        var rest := Merge(ct, pt[1..], hc, m, d);
        MergeSkipStep(ct, pt, hc, m, rest.row);
        rest
  }

  /** The density table counts the rows holding each column: replacing the
      row ct by r.row moves the counts by the difference. */
  ghost predicate Balanced(r: Updated, d: Density, ct: Row)
  {
    forall c :: Get(r.density, c) - Count(r.row, c) == Get(d, c) - Count(ct, c)
  }

  /** An entry of column h emitted in place of the head of ct. */
  lemma BalancedCons(rest: Updated, d: Density, ct: Row)
    requires |ct| > 0 && Balanced(rest, d, ct[1..])
    ensures forall e: Entry :: e.col == ct[0].col ==> Balanced(Updated([e] + rest.row, rest.density), d, ct)
  {
    forall e: Entry, c | e.col == ct[0].col
      ensures Get(rest.density, c) - Count([e] + rest.row, c) == Get(d, c) - Count(ct, c)
    {
      CountCons(e, rest.row, c);
      CountCons(ct[0], ct[1..], c);
      assert ct == [ct[0]] + ct[1..];
    }
  }

  /** The head of ct cancels: its column loses one row. */
  lemma BalancedDrop(rest: Updated, d: Density, ct: Row)
    requires |ct| > 0 && Balanced(rest, Bump(d, ct[0].col, -1), ct[1..])
    ensures Balanced(rest, d, ct)
  {
    forall c
      ensures Get(rest.density, c) - Count(rest.row, c) == Get(d, c) - Count(ct, c)
    {
      CountCons(ct[0], ct[1..], c);
      assert ct == [ct[0]] + ct[1..];
    }
  }

  /** Fill-in at column h: the column gains one row. */
  lemma BalancedFill(rest: Updated, d: Density, ct: Row, h: nat, v: nat)
    requires Balanced(rest, Bump(d, h, 1), ct)
    ensures Balanced(Updated([Entry(h, v)] + rest.row, rest.density), d, ct)
  {
    forall c
      ensures Get(rest.density, c) - Count([Entry(h, v)] + rest.row, c) == Get(d, c) - Count(ct, c)
    {
      CountCons(Entry(h, v), rest.row, c);
    }
  }

  lemma CountCons(e: Entry, rest: Row, c: nat)
    ensures Count([e] + rest, c) == (if e.col == c then 1 else 0) + Count(rest, c)
  {
    assert ([e] + rest)[1..] == rest;
  }

  lemma CoeffCons(e: Entry, rest: Row, c: nat)
    ensures Coeff([e] + rest, c) == if e.col == c then e.coeff else Coeff(rest, c)
  {
    assert ([e] + rest)[1..] == rest;
  }

  lemma {:induction false} CoeffBound(row: Row, m: nat, c: nat)
    requires Reduced(row, m)
    ensures Coeff(row, c) < m || (Coeff(row, c) == 0 && |row| == 0)
    ensures m > 0 || |row| == 0
    decreases |row|
  {
    if |row| > 0 {
      CoeffBound(row[1..], m, c);
    }
  }

  /** A reduced row's coefficients are their own residues. */
  lemma CoeffReduced(row: Row, m: nat, c: nat)
    requires m > 0 && Reduced(row, m)
    ensures Coeff(row, c) % m == Coeff(row, c)
  {
    CoeffBound(row, m, c);
    ModSmall(Coeff(row, c), m);
  }

  lemma MergeCopyAll(ct: Row, hc: nat, m: nat)
    requires m > 0
    ensures Reduced(ct, m) ==> forall c :: Combines(Coeff(ct, c), Coeff(ct, c), Coeff([], c), hc, m)
  {
    if Reduced(ct, m) {
      forall c
        ensures Coeff(ct, c) == (Coeff(ct, c) + hc * Coeff([], c)) % m
      {
        CoeffReduced(ct, m, c);
      }
    }
  }

  /** A merge step that emits e before the merge of the remaining tails
      keeps every lower bound on the columns. */
  lemma ConsBound(ct: Row, pt: Row, ct': Row, pt': Row, e: Entry, rest: Row)
    requires |ct| > 0 ==> ct' == ct || ct' == ct[1..]
    requires |ct| == 0 ==> ct' == ct
    requires |pt| > 0 && (pt' == pt || pt' == pt[1..])
    requires e.col == pt[0].col || (|ct| > 0 && e.col == ct[0].col)
    requires forall b :: ColsFrom(ct', b) && ColsFrom(pt', b) ==> ColsFrom(rest, b)
    ensures forall b :: ColsFrom(ct, b) && ColsFrom(pt, b) ==> ColsFrom([e] + rest, b)
  {
    forall b | ColsFrom(ct, b) && ColsFrom(pt, b)
      ensures ColsFrom([e] + rest, b)
    {
      assert ColsFrom(ct', b) && ColsFrom(pt', b);
      assert ColsFrom(rest, b);
      assert ([e] + rest)[0] == e;
      forall i | 0 < i < |[e] + rest|
        ensures ([e] + rest)[i].col >= b
      {
        assert ([e] + rest)[i] == rest[i - 1];
      }
    }
  }

  /** The row r = [e] + rest produced by a merge step, column c: away from
      the head column the step only drops the consumed heads. */
  lemma StepAt(ct: Row, pt: Row, hc: nat, m: nat, rest: Row, c: nat, ct': Row, pt': Row, h: nat)
    requires m > 0 && c != h
    requires ct' == ct || (|ct| > 0 && ct' == ct[1..] && ct[0].col == h)
    requires pt' == pt || (|pt| > 0 && pt' == pt[1..] && pt[0].col == h)
    requires Combines(Coeff(rest, c), Coeff(ct', c), Coeff(pt', c), hc, m)
    ensures Combines(Coeff(rest, c), Coeff(ct, c), Coeff(pt, c), hc, m)
  {
    if ct' != ct {
      assert Coeff(ct, c) == Coeff(ct', c);
    }
    if pt' != pt {
      assert Coeff(pt, c) == Coeff(pt', c);
    }
  }

  /** The target entry precedes the pivot entry: it is copied. */
  lemma MergeCopyStep(ct: Row, pt: Row, hc: nat, m: nat, rest: Row)
    requires m > 0 && |ct| > 0 && |pt| > 0 && ct[0].col < pt[0].col
    requires Sorted(ct) && Sorted(pt) && Reduced(ct, m) ==>
               && Sorted(rest)
               && Reduced(rest, m)
               && forall c :: Combines(Coeff(rest, c), Coeff(ct[1..], c), Coeff(pt, c), hc, m)
    requires forall b :: ColsFrom(ct[1..], b) && ColsFrom(pt, b) ==> ColsFrom(rest, b)
    ensures Sorted(ct) && Sorted(pt) && Reduced(ct, m) ==>
              var r := [ct[0]] + rest;
              && Sorted(r)
              && Reduced(r, m)
              && forall c :: Combines(Coeff(r, c), Coeff(ct, c), Coeff(pt, c), hc, m)
  {
    if Sorted(ct) && Sorted(pt) && Reduced(ct, m) {
      var r := [ct[0]] + rest;
      var h := ct[0].col;
      SortedTail(ct);
      assert ColsFrom(pt, h + 1);
      assert ColsFrom(rest, h + 1);
      forall c: nat
        ensures Combines(Coeff(r, c), Coeff(ct, c), Coeff(pt, c), hc, m)
      {
        CoeffCons(ct[0], rest, c);
        if c == h {
          CoeffBelow(pt, c, pt[0].col);
          CoeffAt(ct, 0);
          ModSmall(ct[0].coeff, m);
        } else {
          assert Combines(Coeff(rest, c), Coeff(ct[1..], c), Coeff(pt, c), hc, m);
          StepAt(ct, pt, hc, m, rest, c, ct[1..], pt, h);
        }
      }
    }
  }

  /** Both rows hold the column and the sum survives. */
  lemma MergeSumStep(ct: Row, pt: Row, hc: nat, m: nat, rest: Row)
    requires m > 0 && |ct| > 0 && |pt| > 0 && ct[0].col == pt[0].col
    requires (ct[0].coeff + hc * pt[0].coeff) % m != 0
    requires Sorted(ct[1..]) && Sorted(pt[1..]) && Reduced(ct[1..], m) ==>
               && Sorted(rest)
               && Reduced(rest, m)
               && forall c :: Combines(Coeff(rest, c), Coeff(ct[1..], c), Coeff(pt[1..], c), hc, m)
    requires forall b :: ColsFrom(ct[1..], b) && ColsFrom(pt[1..], b) ==> ColsFrom(rest, b)
    ensures Sorted(ct) && Sorted(pt) && Reduced(ct, m) ==>
              var r := [Entry(ct[0].col, (ct[0].coeff + hc * pt[0].coeff) % m)] + rest;
              && Sorted(r)
              && Reduced(r, m)
              && forall c :: Combines(Coeff(r, c), Coeff(ct, c), Coeff(pt, c), hc, m)
  {
    if Sorted(ct) && Sorted(pt) && Reduced(ct, m) {
      var v := (ct[0].coeff + hc * pt[0].coeff) % m;
      var h := ct[0].col;
      var r := [Entry(h, v)] + rest;
      SortedTail(ct);
      SortedTail(pt);
      assert ColsFrom(rest, h + 1);
      forall c: nat
        ensures Combines(Coeff(r, c), Coeff(ct, c), Coeff(pt, c), hc, m)
      {
        CoeffCons(Entry(h, v), rest, c);
        if c == h {
          CoeffAt(ct, 0);
          CoeffAt(pt, 0);
        } else {
          assert Combines(Coeff(rest, c), Coeff(ct[1..], c), Coeff(pt[1..], c), hc, m);
          StepAt(ct, pt, hc, m, rest, c, ct[1..], pt[1..], h);
        }
      }
    }
  }

  /** Both rows hold the column and the sum vanishes: the entry is dropped
      and its column loses one row. */
  lemma MergeCancelStep(ct: Row, pt: Row, hc: nat, m: nat, rest: Row)
    requires m > 0 && |ct| > 0 && |pt| > 0 && ct[0].col == pt[0].col
    requires (ct[0].coeff + hc * pt[0].coeff) % m == 0
    requires Sorted(ct[1..]) && Sorted(pt[1..]) && Reduced(ct[1..], m) ==>
               && Sorted(rest)
               && Reduced(rest, m)
               && forall c :: Combines(Coeff(rest, c), Coeff(ct[1..], c), Coeff(pt[1..], c), hc, m)
    requires forall b :: ColsFrom(ct[1..], b) && ColsFrom(pt[1..], b) ==> ColsFrom(rest, b)
    ensures Sorted(ct) && Sorted(pt) && Reduced(ct, m) ==>
              forall c :: Combines(Coeff(rest, c), Coeff(ct, c), Coeff(pt, c), hc, m)
  {
    if Sorted(ct) && Sorted(pt) && Reduced(ct, m) {
      var h := ct[0].col;
      SortedTail(ct);
      SortedTail(pt);
      assert ColsFrom(ct[1..], h + 1) && ColsFrom(pt[1..], h + 1);
      assert ColsFrom(rest, h + 1);
      forall c: nat
        ensures Combines(Coeff(rest, c), Coeff(ct, c), Coeff(pt, c), hc, m)
      {
        if c == h {
          CoeffAt(ct, 0);
          CoeffAt(pt, 0);
          CoeffBelow(rest, c, c + 1);
        } else {
          assert Combines(Coeff(rest, c), Coeff(ct[1..], c), Coeff(pt[1..], c), hc, m);
          StepAt(ct, pt, hc, m, rest, c, ct[1..], pt[1..], h);
        }
      }
    }
  }

  /** Only the pivot holds the column and the product survives: fill-in,
      and the column gains one row. */
  lemma MergeFillStep(ct: Row, pt: Row, hc: nat, m: nat, rest: Row)
    requires m > 0 && |pt| > 0 && (|ct| == 0 || pt[0].col < ct[0].col)
    requires (hc * pt[0].coeff) % m != 0
    requires Sorted(ct) && Sorted(pt[1..]) && Reduced(ct, m) ==>
               && Sorted(rest)
               && Reduced(rest, m)
               && forall c :: Combines(Coeff(rest, c), Coeff(ct, c), Coeff(pt[1..], c), hc, m)
    requires forall b :: ColsFrom(ct, b) && ColsFrom(pt[1..], b) ==> ColsFrom(rest, b)
    ensures Sorted(ct) && Sorted(pt) && Reduced(ct, m) ==>
              var r := [Entry(pt[0].col, (hc * pt[0].coeff) % m)] + rest;
              && Sorted(r)
              && Reduced(r, m)
              && forall c :: Combines(Coeff(r, c), Coeff(ct, c), Coeff(pt, c), hc, m)
  {
    if Sorted(ct) && Sorted(pt) && Reduced(ct, m) {
      var v := (hc * pt[0].coeff) % m;
      var h := pt[0].col;
      var r := [Entry(h, v)] + rest;
      SortedTail(pt);
      SortedFrom(ct, h + 1);
      assert ColsFrom(rest, h + 1);
      forall c: nat
        ensures Combines(Coeff(r, c), Coeff(ct, c), Coeff(pt, c), hc, m)
      {
        CoeffCons(Entry(h, v), rest, c);
        if c == h {
          CoeffBelow(ct, c, c + 1);
          CoeffAt(pt, 0);
        } else {
          assert Combines(Coeff(rest, c), Coeff(ct, c), Coeff(pt[1..], c), hc, m);
          StepAt(ct, pt, hc, m, rest, c, ct, pt[1..], h);
        }
      }
    }
  }

  /** Only the pivot holds the column and the product vanishes modulo m:
      nothing is created. */
  lemma MergeSkipStep(ct: Row, pt: Row, hc: nat, m: nat, rest: Row)
    requires m > 0 && |pt| > 0 && (|ct| == 0 || pt[0].col < ct[0].col)
    requires (hc * pt[0].coeff) % m == 0
    requires Sorted(ct) && Sorted(pt[1..]) && Reduced(ct, m) ==>
               && Sorted(rest)
               && Reduced(rest, m)
               && forall c :: Combines(Coeff(rest, c), Coeff(ct, c), Coeff(pt[1..], c), hc, m)
    requires forall b :: ColsFrom(ct, b) && ColsFrom(pt[1..], b) ==> ColsFrom(rest, b)
    ensures Sorted(ct) && Sorted(pt) && Reduced(ct, m) ==>
              forall c :: Combines(Coeff(rest, c), Coeff(ct, c), Coeff(pt, c), hc, m)
  {
    if Sorted(ct) && Sorted(pt) && Reduced(ct, m) {
      var h := pt[0].col;
      SortedTail(pt);
      SortedFrom(ct, h + 1);
      assert ColsFrom(rest, h + 1);
      forall c: nat
        ensures Combines(Coeff(rest, c), Coeff(ct, c), Coeff(pt, c), hc, m)
      {
        if c == h {
          CoeffBelow(ct, c, c + 1);
          CoeffAt(pt, 0);
          CoeffBelow(rest, c, c + 1);
        } else {
          assert Combines(Coeff(rest, c), Coeff(ct, c), Coeff(pt[1..], c), hc, m);
          StepAt(ct, pt, hc, m, rest, c, ct, pt[1..], h);
        }
      }
    }
  }

  // ---------------------------------------------------------------------
  // The elimination proper

  /** Columns of the row, dropping nothing: rows with the same sequence of
      columns count every column alike. */
  lemma {:induction false} CountSameCols(a: Row, b: Row, c: nat)
    requires |a| == |b| && forall i :: 0 <= i < |a| ==> a[i].col == b[i].col
    ensures Count(a, c) == Count(b, c)
    decreases |a|
  {
    if |a| > 0 {
      CountSameCols(a[1..], b[1..], c);
    }
  }

  /** How Place changes the column counts: an exchange of coefficients
      keeps every column; otherwise column row[p].col loses the entry and
      column k gains it. */
  lemma PlaceCount(row: Row, p: nat, k: nat, c: nat)
    requires p < |row|
    ensures p > 0 && row[0].col == k ==> Count(Place(row, p, k), c) == Count(row, c)
    ensures !(p > 0 && row[0].col == k) ==>
              Count(Place(row, p, k), c) + (if c == row[p].col then 1 else 0)
                == Count(row, c) + (if c == k then 1 else 0)
  {
    var r := Place(row, p, k);
    if p == 0 {
      if row[0].col != k {
        assert r == [Entry(k, row[0].coeff)] + row[1..];
        assert row == [row[0]] + row[1..];
        CountConcat([Entry(k, row[0].coeff)], row[1..], c);
        CountConcat([row[0]], row[1..], c);
      }
    } else if row[0].col == k {
      CountSameCols(r, row, c);
    } else {
      assert r == [Entry(k, row[p].coeff)] + row[..p] + row[p + 1..];
      assert row == row[..p] + [row[p]] + row[p + 1..];
      CountConcat([Entry(k, row[p].coeff)] + row[..p], row[p + 1..], c);
      CountConcat([Entry(k, row[p].coeff)], row[..p], c);
      CountConcat(row[..p] + [row[p]], row[p + 1..], c);
      CountConcat(row[..p], [row[p]], c);
    }
  }

  /** The entry in column k moved right, to its place as column indpermut
      (lines 371-379): the entries between shift left by one. */
  function MoveRight(row: Row, l: nat, jh: nat, indpermut: nat): Row
    requires l < jh <= |row|
  {
    row[..l] + row[l + 1..jh] + [Entry(indpermut, row[l].coeff)] + row[jh..]
  }

  lemma MoveRightCount(row: Row, l: nat, jh: nat, indpermut: nat, c: nat)
    requires l < jh <= |row|
    ensures Count(MoveRight(row, l, jh, indpermut), c) + (if c == row[l].col then 1 else 0)
              == Count(row, c) + (if c == indpermut then 1 else 0)
  {
    var t := Entry(indpermut, row[l].coeff);
    assert row == row[..l] + [row[l]] + row[l + 1..jh] + row[jh..];
    CountConcat(row[..l] + [row[l]] + row[l + 1..jh], row[jh..], c);
    CountConcat(row[..l] + [row[l]], row[l + 1..jh], c);
    CountConcat(row[..l], [row[l]], c);
    CountConcat(row[..l] + row[l + 1..jh] + [t], row[jh..], c);
    CountConcat(row[..l] + row[l + 1..jh], [t], c);
    CountConcat(row[..l], row[l + 1..jh], c);
  }

  /** Where the entries of a row whose head moved right end up. */
  lemma MoveRightEntries(row: Row, jh: nat, indpermut: nat)
    requires 0 < jh <= |row|
    ensures |MoveRight(row, 0, jh, indpermut)| == |row|
    ensures forall i :: 0 <= i < jh - 1 ==> MoveRight(row, 0, jh, indpermut)[i] == row[i + 1]
    ensures MoveRight(row, 0, jh, indpermut)[jh - 1] == Entry(indpermut, row[0].coeff)
    ensures forall i :: jh <= i < |row| ==> MoveRight(row, 0, jh, indpermut)[i] == row[i]
  {
    var r := MoveRight(row, 0, jh, indpermut);
    assert r == row[1..jh] + [Entry(indpermut, row[0].coeff)] + row[jh..];
  }

  /** In an active row at step k, moving the head entry of column k to
      column indpermut > k, which the row does not hold, keeps the row
      active one step further. */
  lemma MoveRightShape(row: Row, jh: nat, k: nat, indpermut: nat, m: nat)
    requires Active(row, k, m) && |row| > 0 && row[0].col == k && k < indpermut
    requires 0 < jh <= |row|
    requires forall i :: 0 <= i < jh ==> row[i].col < indpermut
    requires jh < |row| ==> row[jh].col > indpermut
    ensures Active(MoveRight(row, 0, jh, indpermut), k + 1, m)
  {
    var r := MoveRight(row, 0, jh, indpermut);
    MoveRightEntries(row, jh, indpermut);
    assert Sorted(r) by {
      forall i, j | 0 <= i < j < |r|
        ensures r[i].col < r[j].col
      {
        if j < jh - 1 {
          assert row[i + 1].col < row[j + 1].col;
        } else if j == jh - 1 {
        } else if i < jh - 1 {
          assert row[i + 1].col < row[j].col;
        } else if i > jh - 1 {
          assert row[i].col < row[j].col;
        }
      }
    }
    assert ColsFrom(r, k + 1) by {
      forall i | 0 <= i < |r|
        ensures r[i].col >= k + 1
      {
        if i < jh - 1 {
          assert row[0].col < row[i + 1].col;
        } else if i > jh - 1 {
          assert row[0].col < row[i].col;
        }
      }
    }
  }

  /** ... and swaps the two columns. */
  lemma MoveRightView(row: Row, jh: nat, k: nat, indpermut: nat)
    requires Sorted(row) && |row| > 0 && row[0].col == k && k < indpermut
    requires 0 < jh <= |row|
    requires forall i :: 0 <= i < jh ==> row[i].col < indpermut
    requires jh < |row| ==> row[jh].col > indpermut
    requires Sorted(MoveRight(row, 0, jh, indpermut))
    ensures SwapsColumns(MoveRight(row, 0, jh, indpermut), row, k, indpermut)
  {
    var r := MoveRight(row, 0, jh, indpermut);
    MoveRightEntries(row, jh, indpermut);
    var f := (c: nat) => Coeff(row, Swap(k, indpermut, c));
    forall i | 0 <= i < |r|
      ensures f(r[i].col) == r[i].coeff
    {
      if i < jh - 1 {
        CoeffAt(row, i + 1);
        assert row[0].col < row[i + 1].col;
      } else if i == jh - 1 {
        CoeffAt(row, 0);
      } else {
        CoeffAt(row, i);
        assert row[0].col < row[i].col;
      }
    }
    forall c | !HasCol(r, c)
      ensures f(c) == 0
    {
      if c == k {
        assert !HasCol(row, indpermut) by {
          forall i | 0 <= i < |row|
            ensures row[i].col != indpermut
          {
            if i > jh {
              assert row[jh].col < row[i].col;
            }
          }
        }
        CoeffMissing(row, indpermut);
      } else {
        assert c != indpermut by { assert r[jh - 1].col == indpermut; }
        assert !HasCol(row, c) by {
          forall i | 0 <= i < |row|
            ensures row[i].col != c
          {
            if 0 < i < jh {
              assert r[i - 1] == row[i];
            } else if i >= jh {
              assert r[i] == row[i];
            }
          }
        }
        CoeffMissing(row, c);
      }
    }
    CoeffByEntries(r, f);
  }

  /** The index bounds of the pivot row's tail past column k. */
  lemma PivotTail(piv: Row, k: nat, m: nat)
    requires PivotRow(piv, k, m)
    ensures FirstFrom(piv, k + 1, 0) == 1
  {
    var l := FirstFrom(piv, k + 1, 0);
    if l > 1 {
    }
  }

  /** The factor a target head contributes: nothing when it is zero. */
  lemma HeadCoeffOfZero(pivot: nat, e: nat)
    requires IsOdd(pivot) && pivot < Pow2(e)
    ensures HeadCoeff(0, pivot, e) == 0
  {
    ModOfMultiple(Pow2(e), ZpzInv(pivot, e));
  }

  /** Lines 298-362 once the target head sits in column k: cancel it
      against the pivot head and merge the two tails. */
  function EliminateHead(e: nat, row: Row, piv: Row, k: nat, d: Density): (r: Updated)
    requires |row| > 0 && |piv| > 0 && IsOdd(piv[0].coeff) && piv[0].coeff < Pow2(e)
    ensures forall c :: Get(r.density, c) - Count(r.row, c) == Get(d, c) - Count(row, c)
    ensures Active(row, k, Pow2(e)) && row[0].col == k && PivotRow(piv, k, Pow2(e)) ==>
              && Active(r.row, k + 1, Pow2(e))
              && var hc := HeadCoeff(row[0].coeff, piv[0].coeff, e);
                 forall c :: Combines(Coeff(r.row, c), Coeff(row, c), Coeff(piv, c), hc, Pow2(e))
  {
    var m := Pow2(e);
    var hc := HeadCoeff(row[0].coeff, piv[0].coeff, e);
    var pt := piv[FirstFrom(piv, k + 1, 0)..];
    var r := Merge(row[1..], pt, hc, m, Bump(d, row[0].col, -1));
    EliminateHeadView(e, row, piv, k, hc, r.row);
    r
  }

  lemma EliminateHeadView(e: nat, row: Row, piv: Row, k: nat, hc: nat, merged: Row)
    requires |row| > 0 && |piv| > 0 && IsOdd(piv[0].coeff) && piv[0].coeff < Pow2(e)
    requires hc == HeadCoeff(row[0].coeff, piv[0].coeff, e)
    requires var pt := piv[FirstFrom(piv, k + 1, 0)..];
             && (forall b :: ColsFrom(row[1..], b) && ColsFrom(pt, b) ==> ColsFrom(merged, b))
             && (Sorted(row[1..]) && Sorted(pt) && Reduced(row[1..], Pow2(e)) ==>
                   && Sorted(merged)
                   && Reduced(merged, Pow2(e))
                   && forall c :: Combines(Coeff(merged, c), Coeff(row[1..], c), Coeff(pt, c), hc, Pow2(e)))
    ensures Active(row, k, Pow2(e)) && row[0].col == k && PivotRow(piv, k, Pow2(e)) ==>
              && Active(merged, k + 1, Pow2(e))
              && forall c :: Combines(Coeff(merged, c), Coeff(row, c), Coeff(piv, c), hc, Pow2(e))
  {
    var m := Pow2(e);
    if Active(row, k, m) && row[0].col == k && PivotRow(piv, k, m) {
      PivotTail(piv, k, m);
      SortedTail(row);
      SortedTail(piv);
      assert Sorted(row[1..]) && Sorted(piv[1..]) && Reduced(row[1..], m);
      assert ColsFrom(merged, k + 1);
      forall c: nat
        ensures Combines(Coeff(merged, c), Coeff(row, c), Coeff(piv, c), hc, m)
      {
        if c == k {
          CoeffAt(row, 0);
          CoeffAt(piv, 0);
          CoeffBelow(merged, c, c + 1);
        } else {
          assert Combines(Coeff(merged, c), Coeff(row[1..], c), Coeff(piv[1..], c), hc, m);
          StepAt(row, piv, hc, m, merged, c, row[1..], piv[1..], k);
        }
      }
    }
  }

  /** FaireElimination (lines 255-384). `indcol` is the pivot counter after
      the search, so the pivot column is k = indcol - 1; `indpermut` is the
      column the pivot came from. The target row first undergoes the
      column swap k <-> indpermut, then, if it holds column k, loses it by
      adding hc times the pivot row, hc the multiplier that cancels it. */
  function FaireElimination(e: nat, cur: Row, piv: Row, indcol: nat, indpermut: nat, d: Density): (r: Updated)
    requires indcol >= 1 && indpermut >= indcol - 1 && Sorted(cur)
    requires |piv| > 0 && IsOdd(piv[0].coeff) && piv[0].coeff < Pow2(e)
    ensures |cur| == 0 ==> r == Updated(cur, d)
    ensures !HasCol(cur, indpermut) && !HasCol(cur, indcol - 1) ==> r == Updated(cur, d)
    ensures forall c :: Get(r.density, c) - Count(r.row, c) == Get(d, c) - Count(cur, c)
    ensures Active(cur, indcol - 1, Pow2(e)) && PivotRow(piv, indcol - 1, Pow2(e)) ==>
              && Active(r.row, indcol, Pow2(e))
              && var hc := HeadCoeff(Coeff(cur, indpermut), piv[0].coeff, e);
                 forall c :: Combines(Coeff(r.row, c), Coeff(cur, Swap(indcol - 1, indpermut, c)),
                                      Coeff(piv, c), hc, Pow2(e))
  {
    if |cur| == 0 then
      HeadCoeffOfZero(piv[0].coeff, e);
      Updated(cur, d)
    else
      var jh := FirstFrom(cur, indpermut, 0);
      if jh < |cur| && cur[jh].col == indpermut then
        EliminateMatched(e, cur, piv, indcol - 1, indpermut, jh, d)
      else
        SwapUnmatched(e, cur, piv, indcol - 1, indpermut, d)
  }

  /** The target holds the pivot's original column at index jh (lines
      274-363): swap, then cancel the head against the pivot. */
  function EliminateMatched(e: nat, cur: Row, piv: Row, k: nat, indpermut: nat, jh: nat, d: Density): (r: Updated)
    requires jh < |cur| && Sorted(cur) && cur[jh].col == indpermut && indpermut >= k
    requires |piv| > 0 && IsOdd(piv[0].coeff) && piv[0].coeff < Pow2(e)
    ensures forall c :: Get(r.density, c) - Count(r.row, c) == Get(d, c) - Count(cur, c)
    ensures Active(cur, k, Pow2(e)) && PivotRow(piv, k, Pow2(e)) ==>
              && Active(r.row, k + 1, Pow2(e))
              && var hc := HeadCoeff(Coeff(cur, indpermut), piv[0].coeff, e);
                 forall c :: Combines(Coeff(r.row, c), Coeff(cur, Swap(k, indpermut, c)),
                                      Coeff(piv, c), hc, Pow2(e))
  {
    var permuted := PermuteColumns(cur, jh, k, d);
    var r := EliminateHead(e, permuted.row, piv, k, permuted.density);
    MatchedView(e, cur, piv, k, jh, permuted.row, r.row);
    r
  }

  /** The target lacks the pivot's original column (lines 364-382): only
      the swap applies, moving an entry of column k to column indpermut. */
  function SwapUnmatched(e: nat, cur: Row, piv: Row, k: nat, indpermut: nat, d: Density): (r: Updated)
    requires k <= indpermut && Sorted(cur)
    requires var jh := FirstFrom(cur, indpermut, 0); !(jh < |cur| && cur[jh].col == indpermut)
    requires |piv| > 0 && IsOdd(piv[0].coeff) && piv[0].coeff < Pow2(e)
    ensures !HasCol(cur, k) ==> r == Updated(cur, d)
    ensures forall c :: Get(r.density, c) - Count(r.row, c) == Get(d, c) - Count(cur, c)
    ensures Active(cur, k, Pow2(e)) && PivotRow(piv, k, Pow2(e)) ==>
              && Active(r.row, k + 1, Pow2(e))
              && var hc := HeadCoeff(Coeff(cur, indpermut), piv[0].coeff, e);
                 forall c :: Combines(Coeff(r.row, c), Coeff(cur, Swap(k, indpermut, c)),
                                      Coeff(piv, c), hc, Pow2(e))
  {
    var jh := FirstFrom(cur, indpermut, 0);
    if indpermut != k then
      var l := FirstFrom(cur, k, 0);
      if l < |cur| && cur[l].col == k then
        assert l < jh;
        var r := Updated(MoveRight(cur, l, jh, indpermut), Bump(Bump(d, k, -1), indpermut, 1));
        MovedView(e, cur, piv, k, indpermut, l, jh);
        forall c
          ensures Get(r.density, c) - Count(r.row, c) == Get(d, c) - Count(cur, c)
        {
          MoveRightCount(cur, l, jh, indpermut, c);
        }
        r
      else
        UnchangedView(e, cur, piv, k, indpermut);
        Updated(cur, d)
    else
      UnchangedView(e, cur, piv, k, indpermut);
      Updated(cur, d)
  }

  /** The column swap k <-> cur[jh].col on a target row that holds the
      pivot's original column at index jh (lines 277-295): exchange of
      coefficients when the row also holds column k, otherwise the entry
      moves to the front as column k and the densities follow. */
  function PermuteColumns(cur: Row, jh: nat, k: nat, d: Density): (r: Updated)
    requires jh < |cur|
    ensures |r.row| == |cur|
    ensures SameCoeffs(r.row, cur)
    ensures forall c :: Get(r.density, c) - Count(r.row, c) == Get(d, c) - Count(cur, c)
    ensures Sorted(cur) && ColsFrom(cur, k) ==>
              && r.row[0] == Entry(k, cur[jh].coeff)
              && Sorted(r.row)
              && ColsFrom(r.row, k)
              && SwapsColumns(r.row, cur, k, cur[jh].col)
  {
    if cur[jh].col == k then
      IdentitySwap(cur, jh, k);
      Updated(cur, d)
    else
      var d' := if cur[0].col == k then d else Bump(Bump(d, cur[jh].col, -1), k, 1);
      PivotPlacement(cur, jh, k);
      PlaceDensity(cur, jh, k, d, d');
      if Sorted(cur) && ColsFrom(cur, k) then
        SortedFrom(Place(cur, jh, k), k);
        Updated(Place(cur, jh, k), d')
      else
        Updated(Place(cur, jh, k), d')
  }

  /** With the pivot already in column k the swap is the identity. */
  lemma IdentitySwap(cur: Row, jh: nat, k: nat)
    requires jh < |cur| && cur[jh].col == k
    ensures SameCoeffs(cur, cur) && SwapsColumns(cur, cur, k, k)
    ensures Sorted(cur) && ColsFrom(cur, k) ==> jh == 0
  {
    if Sorted(cur) && ColsFrom(cur, k) {
      SortedIndex(cur, jh, 0);
    }
  }

  lemma PlaceDensity(cur: Row, jh: nat, k: nat, d: Density, d': Density)
    requires jh < |cur| && cur[jh].col != k
    requires d' == if cur[0].col == k then d else Bump(Bump(d, cur[jh].col, -1), k, 1)
    ensures forall c :: Get(d', c) - Count(Place(cur, jh, k), c) == Get(d, c) - Count(cur, c)
  {
    forall c
      ensures Get(d', c) - Count(Place(cur, jh, k), c) == Get(d, c) - Count(cur, c)
    {
      PlaceCount(cur, jh, k, c);
    }
  }

  /** The target holds the pivot's original column: after the swap its
      head is that entry, which the elimination cancels. */
  lemma MatchedView(e: nat, cur: Row, piv: Row, k: nat, jh: nat, permuted: Row, r: Row)
    requires jh < |cur| && Sorted(cur) && |piv| > 0 && IsOdd(piv[0].coeff) && piv[0].coeff < Pow2(e)
    requires |permuted| == |cur| && SameCoeffs(permuted, cur)
    requires ColsFrom(cur, k) ==>
               permuted[0] == Entry(k, cur[jh].coeff) && Sorted(permuted) && ColsFrom(permuted, k)
               && SwapsColumns(permuted, cur, k, cur[jh].col)
    requires Active(permuted, k, Pow2(e)) && permuted[0].col == k && PivotRow(piv, k, Pow2(e)) ==>
               && Active(r, k + 1, Pow2(e))
               && var hc := HeadCoeff(permuted[0].coeff, piv[0].coeff, e);
                  forall c :: Combines(Coeff(r, c), Coeff(permuted, c), Coeff(piv, c), hc, Pow2(e))
    ensures Active(cur, k, Pow2(e)) && PivotRow(piv, k, Pow2(e)) ==>
              && Active(r, k + 1, Pow2(e))
              && var hc := HeadCoeff(Coeff(cur, cur[jh].col), piv[0].coeff, e);
                 forall c :: Combines(Coeff(r, c), Coeff(cur, Swap(k, cur[jh].col, c)), Coeff(piv, c), hc, Pow2(e))
  {
    var m := Pow2(e);
    if Active(cur, k, m) && PivotRow(piv, k, m) {
      CoeffAt(cur, jh);
      assert Reduced(permuted, m);
      assert Active(permuted, k, m);
      var hc := HeadCoeff(permuted[0].coeff, piv[0].coeff, e);
      forall c: nat
        ensures Combines(Coeff(r, c), Coeff(cur, Swap(k, cur[jh].col, c)), Coeff(piv, c), hc, m)
      {
        assert Combines(Coeff(r, c), Coeff(permuted, c), Coeff(piv, c), hc, m);
        assert Coeff(permuted, c) == Coeff(cur, Swap(k, cur[jh].col, c));
      }
    }
  }

  /** A sorted row that does not hold column c where the scan for c
      stopped does not hold it at all. */
  lemma ScanMiss(row: Row, c: nat)
    requires Sorted(row)
    requires var j := FirstFrom(row, c, 0); !(j < |row| && row[j].col == c)
    ensures !HasCol(row, c)
  {
    var j := FirstFrom(row, c, 0);
    forall i | 0 <= i < |row|
      ensures row[i].col != c
    {
      if i > j {
        assert row[j].col < row[i].col;
      }
    }
  }

  /** The target holds column k but not the pivot's original column: the
      swap moves its entry to column indpermut and nothing is cancelled. */
  lemma MovedView(e: nat, cur: Row, piv: Row, k: nat, indpermut: nat, l: nat, jh: nat)
    requires Sorted(cur) && |piv| > 0 && IsOdd(piv[0].coeff) && piv[0].coeff < Pow2(e)
    requires k < indpermut && l < jh <= |cur| && cur[l].col == k
    requires l == FirstFrom(cur, k, 0) && jh == FirstFrom(cur, indpermut, 0)
    requires !(jh < |cur| && cur[jh].col == indpermut)
    ensures Active(cur, k, Pow2(e)) && PivotRow(piv, k, Pow2(e)) ==>
              && Active(MoveRight(cur, l, jh, indpermut), k + 1, Pow2(e))
              && var hc := HeadCoeff(Coeff(cur, indpermut), piv[0].coeff, e);
                 forall c :: Combines(Coeff(MoveRight(cur, l, jh, indpermut), c),
                                      Coeff(cur, Swap(k, indpermut, c)), Coeff(piv, c), hc, Pow2(e))
  {
    var m := Pow2(e);
    if Active(cur, k, m) && PivotRow(piv, k, m) {
      assert l == 0;
      ScanMiss(cur, indpermut);
      CoeffMissing(cur, indpermut);
      HeadCoeffOfZero(piv[0].coeff, e);
      MoveRightShape(cur, jh, k, indpermut, m);
      MoveRightView(cur, jh, k, indpermut);
      var r := MoveRight(cur, l, jh, indpermut);
      forall c: nat
        ensures Combines(Coeff(r, c), Coeff(cur, Swap(k, indpermut, c)), Coeff(piv, c), 0, m)
      {
        CoeffReduced(cur, m, Swap(k, indpermut, c));
      }
    }
  }

  /** The target holds neither column of the swap (or the swap is the
      identity and the target lacks column k): it is left as it is. */
  lemma UnchangedView(e: nat, cur: Row, piv: Row, k: nat, indpermut: nat)
    requires Sorted(cur) && |piv| > 0 && IsOdd(piv[0].coeff) && piv[0].coeff < Pow2(e)
    requires k <= indpermut
    requires var jh := FirstFrom(cur, indpermut, 0); !(jh < |cur| && cur[jh].col == indpermut)
    requires var l := FirstFrom(cur, k, 0); indpermut == k || !(l < |cur| && cur[l].col == k)
    ensures Active(cur, k, Pow2(e)) && PivotRow(piv, k, Pow2(e)) ==>
              && Active(cur, k + 1, Pow2(e))
              && var hc := HeadCoeff(Coeff(cur, indpermut), piv[0].coeff, e);
                 forall c :: Combines(Coeff(cur, c), Coeff(cur, Swap(k, indpermut, c)), Coeff(piv, c), hc, Pow2(e))
  {
    var m := Pow2(e);
    if Active(cur, k, m) && PivotRow(piv, k, m) {
      ScanMiss(cur, indpermut);
      ScanMiss(cur, k);
      CoeffMissing(cur, indpermut);
      CoeffMissing(cur, k);
      HeadCoeffOfZero(piv[0].coeff, e);
      forall c: nat
        ensures Combines(Coeff(cur, c), Coeff(cur, Swap(k, indpermut, c)), Coeff(piv, c), 0, m)
      {
        CoeffReduced(cur, m, c);
      }
    }
  }

  /** PreserveUpperMatrixRow (lines 246-252): with the policy
      PreserveUpperMatrix the finished pivot row is kept, otherwise it is
      released. */
  function PreserveUpperMatrixRow(row: Row, preserve: bool): (r: Row)
    ensures preserve ==> r == row
    ensures !preserve ==> |r| == 0
  {
    if preserve then row else []
  }
}
