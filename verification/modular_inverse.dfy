/** MY_Zpz_inv: the inverse of an odd residue modulo 2^e by Newton–Raphson
    doubling (J-G. Dumas, "On Newton-Raphson iteration for multiplicative
    inverses modulo prime powers", IEEE Transactions on Computers, 2013).

    Every fixed-width product in the source is followed by `&= 2^e - 1`,
    which for e below the word width is reduction modulo 2^e; the model
    reduces with `% Pow2(e)` directly. */
module ModularInverse {
  import opened Arith

  /** The doubling loop `for (i = 2; i < exponent; i <<= 1)`: square
      `xmone`, then multiply `u` by `xmone + 1`, both masked. */
  function NewtonLoop(e: nat, i: nat, xmone: nat, u: nat): (r: nat)
    requires i >= 2
    ensures i < e || u < Pow2(e) ==> r < Pow2(e)
    decreases e - i
  {
    if i < e then
      var x := (xmone * xmone) % Pow2(e);
      NewtonLoop(e, 2 * i, x, (u * (x + 1)) % Pow2(e))
    else u
  }

  /** Squaring step of the loop: `xmone *= xmone; xmone &= mask`. */
  lemma SquareStep(xmone: int, q: int, m: int)
    requires m > 0 && Cong(xmone, q, m)
    ensures Cong((xmone * xmone) % m, q * q, m)
  {
    ModIdempotent(xmone * xmone, m);
    CongMul(xmone, q, xmone, q, m);
  }

  /** Update step of the loop: `u *= xmone + 1; u &= mask` turns
      a*u == 1 - p into a*u == 1 - p^2 when xmone == p. */
  lemma UpdateStep(a: int, u: int, x: int, p: int, m: int)
    requires m > 0 && Cong(a * u, 1 - p, m) && Cong(x, p, m)
    ensures Cong(a * ((u * (x + 1)) % m), 1 - p * p, m)
  {
    var w := u * (x + 1);
    var u' := w % m;
    ModIdempotent(w, m);
    CongMul(a, a, u', w, m);
    MulAssoc(a, u, x + 1);
    CongAdd(x, p, 1, 1, m);
    CongMul(a * u, 1 - p, x + 1, p + 1, m);
    DifferenceOfSquares(p);
  }

  lemma MulAssoc(a: int, b: int, c: int)
    ensures a * (b * c) == (a * b) * c
  {
  }

  lemma DifferenceOfSquares(p: int)
    ensures (1 - p) * (p + 1) == 1 - p * p
  {
  }

  /** One iteration keeps the loop invariant, with i doubled. */
  lemma LoopStep(a: nat, m: nat, i: nat, xmone: nat, u: nat)
    requires m > 0 && i % 2 == 0
    requires Cong(xmone, Pow(a - 1, i / 2), m)
    requires Cong(a * u, 1 - Pow(a - 1, i), m)
    ensures Cong((xmone * xmone) % m, Pow(a - 1, (2 * i) / 2), m)
    ensures Cong(a * ((u * ((xmone * xmone) % m + 1)) % m), 1 - Pow(a - 1, 2 * i), m)
  {
    var y := a - 1;
    var x := (xmone * xmone) % m;
    SquareStep(xmone, Pow(y, i / 2), m);
    PowAdd(y, i / 2, i / 2);
    assert Cong(x, Pow(y, i), m);
    UpdateStep(a, u, x, Pow(y, i), m);
    PowAdd(y, i, i);
  }

  /** On exit (i >= e) the invariant a*u == 1 - y^i is a*u == 1. */
  lemma LoopExit(a: nat, e: nat, i: nat, u: nat)
    requires e >= 1 && i >= e && IsOdd(a)
    requires Cong(a * u, 1 - Pow(a - 1, i), Pow2(e))
    ensures (a * u) % Pow2(e) == 1
  {
    var m := Pow2(e);
    var p := Pow(a - 1, i);
    assert (a - 1) % 2 == 0;
    EvenPowVanishes(a - 1, i, e);
    var t := p / m;
    assert p == m * t;
    CongMultiple(1 - p, 1, m, -t);
    Pow2Monotonic(0, e);
    ModSmall(1, m);
  }

  /** With y = a - 1, the loop keeps xmone == y^(i/2) and a*u == 1 - y^i
      modulo 2^e; once i >= e, y^i vanishes because y is even. */
  lemma {:induction false} NewtonLoopInverts(a: nat, e: nat, i: nat, xmone: nat, u: nat)
    requires e >= 1 && i >= 2 && i % 2 == 0 && IsOdd(a)
    requires Cong(xmone, Pow(a - 1, i / 2), Pow2(e))
    requires Cong(a * u, 1 - Pow(a - 1, i), Pow2(e))
    ensures (a * NewtonLoop(e, i, xmone, u)) % Pow2(e) == 1
    decreases e - i
  {
    if i < e {
      var m := Pow2(e);
      var x := (xmone * xmone) % m;
      LoopStep(a, m, i, xmone, u);
      NewtonLoopInverts(a, e, 2 * i, x, (u * (x + 1)) % m);
    } else {
      LoopExit(a, e, i, u);
    }
  }

  /** The initial two-bit inverse u = 2 - a satisfies a*u == 1 - (a-1)^2. */
  lemma SeedInverts(a: nat, e: nat, seed: int)
    requires e >= 1 && Cong(seed, 2 - a, Pow2(e))
    ensures Cong(a * seed, 1 - Pow(a - 1, 2), Pow2(e))
  {
    var m := Pow2(e);
    CongMul(a, a, seed, 2 - a, m);
    SeedIdentity(a);
  }

  lemma SeedIdentity(a: int)
    ensures a * (2 - a) == 1 - Pow(a - 1, 2)
  {
    assert Pow(a - 1, 1) == a - 1;
    assert Pow(a - 1, 2) == (a - 1) * (a - 1);
  }

  /** An odd residue below 2^e exists only when e >= 1. */
  lemma OddResidueExponent(a: nat, e: nat)
    requires IsOdd(a) && a < Pow2(e)
    ensures e >= 1
  {
    if e == 0 {
    }
  }

  /** The inverse of an odd residue a modulo 2^e (lines 95-111). The
      function-local constant `ttep2`, which the source reads as 2 modulo
      the modulus, is taken as 2^e + 2, so the seed `ttep2 - a` is 2 - a
      modulo 2^e and never wraps below zero. */
  function ZpzInv(a: nat, e: nat): (u: nat)
    requires IsOdd(a) && a < Pow2(e)
    ensures a == 1 ==> u == 1
    ensures (a * u) % Pow2(e) == 1
    ensures u < Pow2(e)
  {
    if a == 1 then
      OddResidueExponent(a, e);
      ModSmall(1, Pow2(e));
      1
    else
      OddResidueExponent(a, e);
      var seed := Pow2(e) + 2 - a;
      CongMultiple(seed, 2 - a, Pow2(e), 1);
      SeedInverts(a, e, seed);
      ModSmall(a - 1, Pow2(e));
      assert Cong(a - 1, Pow(a - 1, 2 / 2), Pow2(e));
      NewtonLoopInverts(a, e, 2, a - 1, seed);
      NewtonLoop(e, 2, a - 1, seed)
  }

  /** MY_Zpz_inv as the source writes it: `ttep2` is initialised once, from
      the mask `firstMask` of the very first call, and reused by every later
      call. For e <= 2 the doubling loop does not run and the seed
      `ttep2 - a` is returned unmasked (a <= 3 there, so it does not wrap).
      Otherwise the first loop step masks it, so only its residue modulo 2^e
      matters; the word-width wrap of `ttep2 - a` leaves that residue
      unchanged for a modulus below the word width. */
  function ZpzInvAsWritten(a: nat, e: nat, firstMask: nat): (u: nat)
    requires IsOdd(a) && a < Pow2(e)
    ensures a == 1 ==> u == 1
    ensures e > 2 ==> u < Pow2(e)
  {
    if a == 1 then 1
    else if e <= 2 then
      SmallOddResidue(a, e);
      firstMask + 3 - a
    else NewtonLoop(e, 2, a - 1, ((firstMask + 3 - a) as int) % Pow2(e))
  }

  /** Below 2^2 a residue is at most 3. */
  lemma SmallOddResidue(a: nat, e: nat)
    requires a < Pow2(e) && e <= 2
    ensures a <= 3
  {
    if e < 2 {
      Pow2Monotonic(e, 2);
    }
    assert Pow2(2) == 4;
  }

  /** When the first call used an exponent at least as large as the current
      one, the frozen `ttep2` is still 2 modulo 2^e and the result is a true
      inverse: the case of a single elimination, whose exponent only
      decreases. */
  lemma AsWrittenInvertsAfterLargerFirstCall(a: nat, e: nat, firstExponent: nat)
    requires IsOdd(a) && a < Pow2(e) && e <= firstExponent
    ensures (a * ZpzInvAsWritten(a, e, Pow2(firstExponent) - 1)) % Pow2(e) == 1
  {
    OddResidueExponent(a, e);
    var m := Pow2(e);
    if a == 1 {
      ModSmall(1, m);
    } else {
      var raw := Pow2(firstExponent) - 1 + 3 - a;
      if e <= 2 {
        SmallOddResidue(a, e);
      }
      var seed: nat := if e <= 2 then raw else raw % m;
      assert ZpzInvAsWritten(a, e, Pow2(firstExponent) - 1) == NewtonLoop(e, 2, a - 1, seed);
      FrozenSeed(a, e, firstExponent);
      SeedInverts(a, e, seed);
      ModSmall(a - 1, m);
      assert Cong(a - 1, Pow(a - 1, 2 / 2), m);
      NewtonLoopInverts(a, e, 2, a - 1, seed);
    }
  }

  /** The seed computed from a frozen `ttep2` of a larger modulus is still
      2 - a modulo 2^e, masked or not. */
  lemma FrozenSeed(a: nat, e: nat, firstExponent: nat)
    requires e <= firstExponent
    ensures Cong(Pow2(firstExponent) - 1 + 3 - a, 2 - a, Pow2(e))
    ensures Cong(((Pow2(firstExponent) - 1 + 3 - a) as int) % Pow2(e), 2 - a, Pow2(e))
  {
    var m := Pow2(e);
    var x := Pow2(firstExponent) + 2 - a;
    Pow2Add(e, firstExponent - e);
    ModIdempotent(x, m);
    CongMultiple(x, 2 - a, m, Pow2(firstExponent - e));
  }

  /** A first call at exponent 2 (mask 3) freezes ttep2 = 6; a later call
      inverting 3 modulo 2^3 then starts from 3 instead of 7, returns 7, and
      3 * 7 is 5, not 1, modulo 8. The inverse of 3 modulo 8 is 3. */
  lemma StaticSeedCounterexample()
    ensures ZpzInvAsWritten(3, 3, 3) == 7
    ensures (3 * ZpzInvAsWritten(3, 3, 3)) % Pow2(3) == 5
    ensures ZpzInv(3, 3) == 3
  {
    assert Pow2(3) == 8;
    assert NewtonLoop(3, 2, 2, 3) == NewtonLoop(3, 4, 4, 7) == 7;
    assert NewtonLoop(3, 2, 2, 7) == NewtonLoop(3, 4, 4, 3) == 3;
  }

  /** For e <= 2 the loop does not run and the frozen seed comes back
      unmasked: after a first call with mask 31, inverting 3 modulo 4 returns
      31, an inverse of 3 modulo 4 but not a reduced residue. */
  lemma UnmaskedSmallExponent()
    ensures ZpzInvAsWritten(3, 2, 31) == 31
    ensures (3 * ZpzInvAsWritten(3, 2, 31)) % Pow2(2) == 1
    ensures ZpzInv(3, 2) == 3
  {
    assert Pow2(2) == 4;
  }

  /** Two inverses of a modulo m are congruent. */
  lemma InverseUnique(a: int, u: int, v: int, m: int)
    requires m > 0 && (a * u) % m == 1 && (a * v) % m == 1
    ensures Cong(u, v, m)
  {
    ModSmall(1, m);
    CongMul(u, u, a * v, 1, m);
    CongMul(a * u, 1, v, v, m);
    MulAssoc(u, a, v);
    assert u * a == a * u;
  }

  /** When the first call of the process used an exponent at least as large
      as the current one, the source's inverse is the model's up to the
      final mask, and equal to it once the loop has run (e > 2). Within one
      elimination the exponent only decreases, so this covers every call of
      the first elimination a process runs. */
  lemma AsWrittenAgreesAfterLargerFirstCall(a: nat, e: nat, firstExponent: nat)
    requires IsOdd(a) && a < Pow2(e) && e <= firstExponent
    ensures ZpzInvAsWritten(a, e, Pow2(firstExponent) - 1) % Pow2(e) == ZpzInv(a, e)
    ensures e > 2 || a == 1 ==> ZpzInvAsWritten(a, e, Pow2(firstExponent) - 1) == ZpzInv(a, e)
  {
    var w := ZpzInvAsWritten(a, e, Pow2(firstExponent) - 1);
    var u := ZpzInv(a, e);
    AsWrittenInvertsAfterLargerFirstCall(a, e, firstExponent);
    InverseUnique(a, u, w, Pow2(e));
    ModSmall(u, Pow2(e));
    if e > 2 {
      ModSmall(w, Pow2(e));
    }
  }

  /** The factor that cancels a target head h against an odd pivot head:
      headcoeff = (2^e - h) * inv(pivot) mod 2^e (lines 309-316). */
  function HeadCoeff(h: nat, pivot: nat, e: nat): (hc: nat)
    requires IsOdd(pivot) && pivot < Pow2(e)
    ensures hc < Pow2(e)
    ensures (h + hc * pivot) % Pow2(e) == 0
  {
    var m := Pow2(e);
    var inv := ZpzInv(pivot, e);
    HeadCoeffCancels(h, pivot, inv, m);
    ((m - h) * inv) % m
  }

  /** With inv an inverse of pivot modulo m, ((m - h) * inv mod m) * pivot
      is congruent to -h. */
  lemma HeadCoeffCancels(h: int, pivot: int, inv: int, m: int)
    requires m > 0 && (pivot * inv) % m == 1
    ensures (h + (((m - h) * inv) % m) * pivot) % m == 0
  {
    var hc := ((m - h) * inv) % m;
    ModIdempotent((m - h) * inv, m);
    CongMul(hc, (m - h) * inv, pivot, pivot, m);
    MulAssoc(m - h, inv, pivot);
    assert inv * pivot == pivot * inv;
    UnitFactor(m - h, pivot * inv, m);
    assert Cong(hc * pivot, m - h, m);
    CongAdd(h, h, hc * pivot, m - h, m);
    ModOfMultiple(m, 1);
  }

  /** Multiplying by a residue congruent to 1 keeps the class of x. */
  lemma UnitFactor(x: int, w: int, m: int)
    requires m > 0 && w % m == 1
    ensures Cong(x * w, x, m)
  {
    ModIdempotent(w, m);
    ModIdempotent(1, m);
    CongMul(x, x, w, 1, m);
  }

  /** headcoeff as the source computes it, `(2^e - h) * MY_Zpz_inv(pivot)`
      masked, after a first call at an exponent at least e: the same factor
      as HeadCoeff, so the elimination built on HeadCoeff is the source's. */
  lemma HeadCoeffAsWritten(h: nat, pivot: nat, e: nat, firstExponent: nat)
    requires IsOdd(pivot) && pivot < Pow2(e) && e <= firstExponent
    ensures ((Pow2(e) - h) * ZpzInvAsWritten(pivot, e, Pow2(firstExponent) - 1)) % Pow2(e)
              == HeadCoeff(h, pivot, e)
  {
    var m := Pow2(e);
    var w := ZpzInvAsWritten(pivot, e, Pow2(firstExponent) - 1);
    var u := ZpzInv(pivot, e);
    AsWrittenAgreesAfterLargerFirstCall(pivot, e, firstExponent);
    ModIdempotent(w, m);
    CongMul(m - h, m - h, w, u, m);
  }
}
