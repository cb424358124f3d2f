/** The operator() of PowerGaussDomainPowerOfTwo (lines 572-586): the
    local Smith form over Z/2^E as a list of (multiplicity, power of two)
    pairs, read off the ranks modulo 2, 4, ..., 2^E. The rank modulo
    2^(j+1) counts the invariant factors dividing 2^j, so the factor 2^j
    occurs as often as the rank grows at step j. */
module SmithOutput {
  import opened Arith
  import opened RankDriver

  datatype Factor = Factor(multiplicity: nat, power: nat)

  /** p is 2^i for some i in j .. n-1. */
  predicate PowerIn(p: nat, j: nat, n: nat)
  {
    exists i :: j <= i < n && p == Pow2(i)
  }

  /** A factor list as operator() builds it: positive multiplicities,
      distinct powers 2^i with i < e, in increasing order. */
  predicate Canonical(fs: seq<Factor>, e: nat)
  {
    && (forall a :: 0 <= a < |fs| ==> fs[a].multiplicity > 0)
    && (forall a :: 0 <= a < |fs| ==> PowerIn(fs[a].power, 0, e))
    && (forall a, b :: 0 <= a < b < |fs| ==> fs[a].power < fs[b].power)
  }

  /** The loop of lines 577-585 from rank j on, with `num` the previous
      rank and MOD = 2^j: a factor for every step whose rank moved. */
  function FactorsFrom(ranks: seq<nat>, j: nat, num: nat): (r: seq<Factor>)
    requires j <= |ranks| && NonDecreasing(ranks)
    requires j < |ranks| ==> num <= ranks[j]
    ensures forall a :: 0 <= a < |r| ==> r[a].multiplicity > 0
    ensures forall a :: 0 <= a < |r| ==> PowerIn(r[a].power, j, |ranks|)
    ensures forall a, b :: 0 <= a < b < |r| ==> r[a].power < r[b].power
    ensures j < |ranks| ==> (ranks[j] > num <==> |r| > 0 && r[0].power == Pow2(j))
    decreases |ranks| - j
  {
    if j == |ranks| then []
    else
      var diff := ranks[j] - num;
      var rest := FactorsFrom(ranks, j + 1, ranks[j]);
      if diff > 0 then
        assert forall a :: 0 <= a < |rest| ==> Pow2(j) < rest[a].power by {
          forall a | 0 <= a < |rest|
            ensures Pow2(j) < rest[a].power
          {
            var i :| j + 1 <= i < |ranks| && rest[a].power == Pow2(i);
            Pow2Monotonic(j, i);
          }
        }
        var r := [Factor(diff, Pow2(j))] + rest;
        assert forall a :: 0 < a < |r| ==> r[a] == rest[a - 1];
        assert PowerIn(r[0].power, j, |ranks|);
        r
      else
        assert |rest| > 0 ==> rest[0].power != Pow2(j) by {
          if |rest| > 0 {
            var i :| j + 1 <= i < |ranks| && rest[0].power == Pow2(i);
            Pow2Monotonic(j, i);
          }
        }
        rest
  }

  /** The list operator() returns for the ranks of prime_power_rankin. */
  function SmithFactors(ranks: seq<nat>): (r: seq<Factor>)
    requires NonDecreasing(ranks)
    ensures Canonical(r, |ranks|)
  {
    FactorsFrom(ranks, 0, 0)
  }

  /** The total multiplicity of the factors that divide `bound`. */
  function CountUpTo(fs: seq<Factor>, bound: nat): nat
  {
    if |fs| == 0 then 0
    else (if fs[0].power <= bound then fs[0].multiplicity else 0) + CountUpTo(fs[1..], bound)
  }

  /** The ranks a list of factors stands for: the rank modulo 2^(j+1) is
      the number of factors dividing 2^j. */
  function RanksOf(fs: seq<Factor>, e: nat): (r: seq<nat>)
    ensures |r| == e
  {
    seq(e, j requires 0 <= j => CountUpTo(fs, Pow2(j)))
  }

  /** Factors all above the bound count nothing. */
  lemma {:induction false} CountAbove(fs: seq<Factor>, bound: nat)
    requires forall a :: 0 <= a < |fs| ==> fs[a].power > bound
    ensures CountUpTo(fs, bound) == 0
    decreases |fs|
  {
    if |fs| > 0 {
      CountAbove(fs[1..], bound);
    }
  }

  /** From rank j on, the factors count the growth of the ranks past num. */
  lemma {:induction false} FactorsFromCount(ranks: seq<nat>, j: nat, num: nat, i: nat)
    requires NonDecreasing(ranks) && j <= i < |ranks|
    requires j > 0 ==> num == ranks[j - 1]
    requires j == 0 ==> num == 0
    ensures CountUpTo(FactorsFrom(ranks, j, num), Pow2(i)) == ranks[i] - num
    decreases |ranks| - j
  {
    var rest := FactorsFrom(ranks, j + 1, ranks[j]);
    var diff := ranks[j] - num;
    assert num <= ranks[j];
    if i == j {
      forall a | 0 <= a < |rest|
        ensures rest[a].power > Pow2(i)
      {
        var i' :| j + 1 <= i' < |ranks| && rest[a].power == Pow2(i');
        Pow2Monotonic(i, i');
      }
      CountAbove(rest, Pow2(i));
    } else {
      FactorsFromCount(ranks, j + 1, ranks[j], i);
      Pow2Monotonic(j, i);
    }
    if diff > 0 {
      assert FactorsFrom(ranks, j, num) == [Factor(diff, Pow2(j))] + rest;
      assert ([Factor(diff, Pow2(j))] + rest)[1..] == rest;
    }
  }

  /** Round trip: the ranks are read back from the factor list. */
  lemma SmithFactorsRoundTrip(ranks: seq<nat>)
    requires NonDecreasing(ranks)
    ensures RanksOf(SmithFactors(ranks), |ranks|) == ranks
  {
    forall i | 0 <= i < |ranks|
      ensures CountUpTo(SmithFactors(ranks), Pow2(i)) == ranks[i]
    {
      FactorsFromCount(ranks, 0, 0, i);
    }
  }

  /** The list is empty exactly when the last rank is 0, and opens with
      the factor 1 exactly when the rank modulo 2 is positive. */
  lemma SmithFactorsEnds(ranks: seq<nat>)
    requires NonDecreasing(ranks) && |ranks| >= 1
    ensures SmithFactors(ranks) == [] <==> ranks[|ranks| - 1] == 0
    ensures (|SmithFactors(ranks)| > 0 && SmithFactors(ranks)[0].power == 1) <==> ranks[0] > 0
  {
    var fs := SmithFactors(ranks);
    var last := |ranks| - 1;
    FactorsFromCount(ranks, 0, 0, last);
    if |fs| > 0 {
      var i :| 0 <= i < |ranks| && fs[0].power == Pow2(i);
      if i < last {
        Pow2Monotonic(i, last);
      }
      assert CountUpTo(fs, Pow2(last)) >= fs[0].multiplicity;
    }
  }

  /** The call to prime_power_rankin at line 575, of which operator()
      keeps the ranks only. */
  method Ranks(input: seq<InputRow>, exponent: nat, params: set<Flag>) returns (ranks: seq<nat>)
    requires |input| >= 1
    requires forall i :: 0 <= i < |input| ==> InputSorted(input[i])
    ensures |ranks| == exponent && NonDecreasing(ranks)
    ensures forall i :: 0 <= i < |ranks| ==> ranks[i] <= |input|
    ensures exponent >= 1 ==> (ranks[0] == 0 <==> EvenMatrix(input))
    ensures exponent >= 1 ==> (ranks[exponent - 1] == 0 <==> ZeroMatrix(input, exponent))
  {
    var rows;
    ranks, rows := PrimePowerRankin(exponent, input, params);
  }

  /** The two ends of the factor list of ranks that prime_power_rankin
      returned for the input, in terms of the matrix. */
  lemma FactorsOfRanks(input: seq<InputRow>, exponent: nat, ranks: seq<nat>)
    requires |ranks| == exponent && NonDecreasing(ranks)
    requires exponent >= 1 ==> (ranks[0] == 0 <==> EvenMatrix(input))
    requires exponent >= 1 ==> (ranks[exponent - 1] == 0 <==> ZeroMatrix(input, exponent))
    ensures exponent >= 1 ==> (SmithFactors(ranks) == [] <==> ZeroMatrix(input, exponent))
    ensures exponent >= 1 ==>
      ((|SmithFactors(ranks)| > 0 && SmithFactors(ranks)[0].power == 1) <==> !EvenMatrix(input))
  {
    if exponent >= 1 {
      SmithFactorsEnds(ranks);
    }
  }

  /** operator() (lines 572-586): the ranks of prime_power_rankin and the
      factor list read off them. */
  method SmithFormPowerOfTwo(input: seq<InputRow>, exponent: nat, params: set<Flag>)
      returns (factors: seq<Factor>, ranks: seq<nat>)
    requires |input| >= 1
    requires forall i :: 0 <= i < |input| ==> InputSorted(input[i])
    ensures |ranks| == exponent && RanksOf(factors, exponent) == ranks
    ensures Canonical(factors, exponent)
    ensures forall j :: 0 <= j < exponent ==> ranks[j] <= |input|
    ensures exponent >= 1 ==> (factors == [] <==> ZeroMatrix(input, exponent))
    ensures exponent >= 1 ==> ((|factors| > 0 && factors[0].power == 1) <==> !EvenMatrix(input))
  {
    ranks := Ranks(input, exponent, params);
    factors := SmithFactors(ranks);
    FactorsOfRanks(input, exponent, ranks);
    SmithFactorsRoundTrip(ranks);
  }
}
