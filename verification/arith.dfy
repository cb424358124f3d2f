/** Exact integer facts used by the power-of-two elimination: powers,
    Euclidean remainder, and congruence modulo a positive modulus. */
module Arith {

  /** 2^n, the value of `1 << n` for an unbounded word. */
  function Pow2(n: nat): (r: nat)
    ensures r >= 1
  {
    if n == 0 then 1 else 2 * Pow2(n - 1)
  }

  function Pow(b: int, n: nat): int
  {
    if n == 0 then 1 else b * Pow(b, n - 1)
  }

  /** The source's `isOdd`: the low bit `b & 1` is set. */
  predicate IsOdd(b: nat)
  {
    b % 2 == 1
  }

  /** x and y are congruent modulo m. */
  predicate Cong(x: int, y: int, m: int)
    requires m > 0
  {
    x % m == y % m
  }

  lemma DivModUnique(x: int, m: int, q: int, r: int)
    requires m > 0 && 0 <= r < m && x == m * q + r
    ensures x % m == r && x / m == q
  {
    var q', r' := x / m, x % m;
    assert x == m * q' + r';
    assert m * (q - q') == r' - r;
    MulSign(m, q - q');
  }

  /** A nonzero multiple of m is at least m in size. */
  lemma MulSign(m: int, d: int)
    requires m > 0
    ensures d >= 1 ==> m * d >= m
    ensures d <= -1 ==> m * d <= -m
  {
  }

  lemma ModOfMultiple(m: int, t: int)
    requires m > 0
    ensures (m * t) % m == 0
  {
    DivModUnique(m * t, m, t, 0);
  }

  lemma ModIdempotent(x: int, m: int)
    requires m > 0
    ensures Cong(x % m, x, m)
  {
    DivModUnique(x % m, m, 0, x % m);
  }

  lemma ModSmall(x: int, m: int)
    requires 0 <= x < m
    ensures x % m == x
  {
    DivModUnique(x, m, 0, x);
  }

  /** Congruence is divisibility of the difference. */
  lemma CongDiff(x: int, y: int, m: int)
    requires m > 0
    ensures Cong(x, y, m) <==> (x - y) % m == 0
  {
    var qx, rx := x / m, x % m;
    var qy, ry := y / m, y % m;
    assert x - y == m * (qx - qy) + (rx - ry);
    if rx == ry {
      DivModUnique(x - y, m, qx - qy, 0);
    }
    if (x - y) % m == 0 {
      var t := (x - y) / m;
      assert x - y == m * t;
      assert x == m * (qy + t) + ry;
      DivModUnique(x, m, qy + t, ry);
    }
  }

  lemma CongMultiple(x: int, y: int, m: int, t: int)
    requires m > 0 && x - y == m * t
    ensures Cong(x, y, m)
  {
    ModOfMultiple(m, t);
    CongDiff(x, y, m);
  }

  lemma CongAdd(x1: int, y1: int, x2: int, y2: int, m: int)
    requires m > 0 && Cong(x1, y1, m) && Cong(x2, y2, m)
    ensures Cong(x1 + x2, y1 + y2, m)
  {
    CongDiff(x1, y1, m);
    CongDiff(x2, y2, m);
    var a, b := (x1 - y1) / m, (x2 - y2) / m;
    assert x1 - y1 == m * a;
    assert x2 - y2 == m * b;
    assert (x1 + x2) - (y1 + y2) == m * (a + b);
    CongMultiple(x1 + x2, y1 + y2, m, a + b);
  }

  lemma CongMul(x1: int, y1: int, x2: int, y2: int, m: int)
    requires m > 0 && Cong(x1, y1, m) && Cong(x2, y2, m)
    ensures Cong(x1 * x2, y1 * y2, m)
  {
    CongDiff(x1, y1, m);
    CongDiff(x2, y2, m);
    var a, b := (x1 - y1) / m, (x2 - y2) / m;
    assert x1 - y1 == m * a;
    assert x2 - y2 == m * b;
    calc {
      x1 * x2 - y1 * y2;
      x1 * (x2 - y2) + y2 * (x1 - y1);
      x1 * (m * b) + y2 * (m * a);
      m * (x1 * b + y2 * a);
    }
    CongMultiple(x1 * x2, y1 * y2, m, x1 * b + y2 * a);
  }

  lemma {:induction false} PowAdd(b: int, i: nat, j: nat)
    ensures Pow(b, i + j) == Pow(b, i) * Pow(b, j)
    decreases i
  {
    if i > 0 {
      PowAdd(b, i - 1, j);
      assert Pow(b, i + j) == b * Pow(b, i - 1 + j);
    }
  }

  lemma {:induction false} Pow2Add(i: nat, j: nat)
    ensures Pow2(i + j) == Pow2(i) * Pow2(j)
    decreases i
  {
    if i > 0 {
      Pow2Add(i - 1, j);
      assert Pow2(i + j) == 2 * Pow2(i - 1 + j);
    }
  }

  lemma {:induction false} PowOfDouble(z: int, n: nat)
    ensures Pow(2 * z, n) == Pow2(n) * Pow(z, n)
    decreases n
  {
    if n > 0 {
      PowOfDouble(z, n - 1);
      calc {
        Pow(2 * z, n);
        2 * z * Pow(2 * z, n - 1);
        2 * z * (Pow2(n - 1) * Pow(z, n - 1));
        (2 * Pow2(n - 1)) * (z * Pow(z, n - 1));
      }
    }
  }

  lemma EvenPowFactor(z: int, n: nat, e: nat)
    requires n >= e
    ensures Pow(2 * z, n) == Pow2(e) * (Pow2(n - e) * Pow(z, n))
  {
    PowOfDouble(z, n);
    Pow2Add(e, n - e);
    var a, b, c := Pow2(e), Pow2(n - e), Pow(z, n);
    assert (a * b) * c == a * (b * c);
  }

  /** An even number raised to a power n >= e vanishes modulo 2^e. */
  lemma EvenPowVanishes(y: int, n: nat, e: nat)
    requires y % 2 == 0 && n >= e
    ensures Pow(y, n) % Pow2(e) == 0
  {
    var z := y / 2;
    var t := Pow2(n - e) * Pow(z, n);
    EvenPowFactor(z, n, e);
    ModOfMultiple(Pow2(e), t);
  }

  lemma {:induction false} Pow2Monotonic(i: nat, j: nat)
    requires i < j
    ensures Pow2(i) < Pow2(j)
    decreases j
  {
    if i < j - 1 {
      Pow2Monotonic(i, j - 1);
    }
  }

  /** Reducing modulo 2^e, e >= 1, keeps the parity. */
  lemma ParityBelow(v: int, e: nat)
    requires e >= 1
    ensures (v % Pow2(e)) % 2 == v % 2
  {
    var m := Pow2(e);
    assert m == 2 * Pow2(e - 1);
    var q := v / m;
    assert v % m - v == 2 * (-(Pow2(e - 1) * q));
    CongMultiple(v % m, v, 2, -(Pow2(e - 1) * q));
  }
}
