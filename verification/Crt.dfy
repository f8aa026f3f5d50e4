/** Two-ring CRT with consecutive moduli p1 and p1 - 1 (include/crt.hpp). The int64 results
    of the functions are checked: within the stated ranges nothing overflows. */
module Crt {
  import opened MachineInts

  function CombinedModulus(p1: int): int {
    p1 * (p1 - 1)
  }

  /** Both rings are non-trivial and the combined modulus fits the sources' integers. */
  predicate Basis(p1: int) {
    2 <= p1 && CombinedModulus(p1) <= INT64_MAX
  }

  function Split(v: int64, p1: int64): (int64, int64)
    requires p1 >= 2
  {
    var p2 := p1 - 1;
    (Rem(v, p1), Rem(v, p2))
  }

  function Recompose(r1: int64, r2: int64, p1: int64): int64
    requires Basis(p1)
    requires 0 <= r1 < p1 && 0 <= r2 < p1 - 1
  {
    RecomposeBounds(r1, r2, p1);
    var p2: int64 := p1 - 1;
    var diff0: int64 := Rem(r2 - r1, p2);
    var diff: int64 := if diff0 < 0 then diff0 + p2 else diff0;
    r1 + p1 * diff
  }

  /** Component `k` of a value: the value itself with one ring, its CRT split with two. */
  function Component(rings: nat, p1: int, v: int64, k: nat): int
    requires 1 <= rings <= 2 && (rings == 2 ==> 2 <= p1 <= INT64_MAX)
  {
    if rings == 1 then v else if k == 0 then Split(v, p1).0 else Split(v, p1).1
  }

  /** The components of a non-negative value are its residues, modulo p1 in ring 0 and modulo p1 - 1 in
      ring 1. */
  lemma ComponentsAreResidues(rings: nat, p1: int, v: int64)
    requires 1 <= rings <= 2 && (rings == 2 ==> 2 <= p1 <= INT64_MAX) && v >= 0
    ensures rings == 1 ==> Component(rings, p1, v, 0) == v
    ensures rings == 2 ==> Component(rings, p1, v, 0) == v % p1 && Component(rings, p1, v, 1) == v % (p1 - 1)
  {
  }

  lemma RecomposeBounds(r1: int, r2: int, p1: int)
    requires Basis(p1)
    requires 0 <= r1 < p1 && 0 <= r2 < p1 - 1
    ensures var d := Rem(r2 - r1, p1 - 1);
            var diff := if d < 0 then d + (p1 - 1) else d;
            && -(p1 - 1) < d < p1 - 1
            && diff == (r2 - r1) % (p1 - 1)
            && 0 <= r1 + p1 * diff < CombinedModulus(p1)
  {
    RemCorrected(r2 - r1, p1 - 1);
    var diff := (r2 - r1) % (p1 - 1);
    assert 0 <= diff <= p1 - 2;
    MulMonotone(diff, p1 - 2, p1);
    MulNonNegative(p1, diff);
    assert p1 * diff <= p1 * (p1 - 2);
    assert p1 * (p1 - 2) + p1 == CombinedModulus(p1);
  }

  /** Recomposing gives the one value below the combined modulus with the given residues. */
  lemma RecomposeResidues(r1: int64, r2: int64, p1: int64)
    requires Basis(p1)
    requires 0 <= r1 < p1 && 0 <= r2 < p1 - 1
    ensures 0 <= Recompose(r1, r2, p1) < CombinedModulus(p1)
    ensures Recompose(r1, r2, p1) % p1 == r1
    ensures Recompose(r1, r2, p1) % (p1 - 1) == r2
    ensures Split(Recompose(r1, r2, p1), p1) == (r1, r2)
  {
    RecomposeBounds(r1, r2, p1);
    var p2 := p1 - 1;
    var diff := (r2 - r1) % p2;
    var v := Recompose(r1, r2, p1);
    assert v == diff * p1 + r1;
    QuotientUnique(v, diff, r1, p1);
    SecondResidue(r1, r2, diff, v, p2);
    QuotientUnique(r2, 0, r2, p2);
    QuotientUnique(r1, 0, r1, p1);
  }

  /** p1 is 1 modulo p2, so the recomposed value is r1 + diff, that is r2, modulo p2. */
  lemma SecondResidue(r1: int, r2: int, diff: int, v: int, p2: int)
    requires p2 > 0 && diff == (r2 - r1) % p2 && v == r1 + (p2 + 1) * diff
    ensures Congruent(v, r2, p2)
  {
    var q := (r2 - r1) / p2;
    assert r2 - r1 == q * p2 + diff;
    assert v == r2 + (diff - q) * p2 by {
      assert (p2 + 1) * diff == diff * p2 + diff;
      assert (diff - q) * p2 == diff * p2 - q * p2;
    }
    CongruentByMultiple(v, r2, diff - q, p2);
  }

  /** A value below the combined modulus is determined by its two residues. */
  lemma ResiduesDetermine(u: int, v: int, p1: int)
    requires p1 >= 2
    requires 0 <= u < CombinedModulus(p1) && 0 <= v < CombinedModulus(p1)
    requires Congruent(u, v, p1) && Congruent(u, v, p1 - 1)
    ensures u == v
  {
    var p2 := p1 - 1;
    var s, t := u / p1 - v / p1, u / p2 - v / p2;
    assert u - v == s * p1 by {
      assert s * p1 == (u / p1) * p1 - (v / p1) * p1;
    }
    assert u - v == t * p2 by {
      assert t * p2 == (u / p2) * p2 - (v / p2) * p2;
    }
    // s * p1 == t * (p1 - 1) makes s a multiple of p1 - 1.
    var k := t - s;
    assert s == k * p2 by {
      assert s * p1 == s * p2 + s;
      assert t * p2 - s * p2 == k * p2;
    }
    assert u - v == k * CombinedModulus(p1) by {
      assert s * p1 == k * p2 * p1;
      assert k * p2 * p1 == k * (p2 * p1);
    }
    SmallMultiple(u - v, k, CombinedModulus(p1));
  }

  lemma SmallMultiple(d: int, k: int, m: int)
    requires d == k * m && -m < d < m
    ensures d == 0
  {
    assert k >= 1 ==> k * m >= m by {
      if k >= 1 { MulMonotone(1, k, m); }
    }
    assert k <= -1 ==> k * m <= -m by {
      if k <= -1 { MulMonotone(k, -1, m); }
    }
  }

  /** Splitting and recomposing undo each other on the whole combined range. */
  lemma SplitRecompose(v: int64, p1: int64)
    requires Basis(p1)
    requires 0 <= v < CombinedModulus(p1)
    ensures 0 <= Split(v, p1).0 < p1 && 0 <= Split(v, p1).1 < p1 - 1
    ensures Recompose(Split(v, p1).0, Split(v, p1).1, p1) == v
  {
    var (r1, r2) := Split(v, p1);
    RecomposeResidues(r1, r2, p1);
    ResiduesDetermine(Recompose(r1, r2, p1), v, p1);
  }

  /** Recomposing the residues of any integer reduces it modulo the combined modulus. */
  lemma RecomposeOfResidues(x: int, r1: int64, r2: int64, p1: int64)
    requires Basis(p1)
    requires 0 <= r1 < p1 && 0 <= r2 < p1 - 1
    requires Congruent(r1, x, p1) && Congruent(r2, x, p1 - 1)
    ensures Recompose(r1, r2, p1) == x % CombinedModulus(p1)
  {
    hide Recompose, CombinedModulus, Split;
    RecomposeResidues(r1, r2, p1);
    CombinedReduction(x, p1);
    QuotientUnique(r1, 0, r1, p1);
    QuotientUnique(r2, 0, r2, p1 - 1);
    ResiduesDetermine(Recompose(r1, r2, p1), x % CombinedModulus(p1), p1);
  }

  lemma CombinedReduction(x: int, p1: int)
    requires p1 >= 2
    ensures CombinedModulus(p1) > 0
    ensures Congruent(x % CombinedModulus(p1), x, p1)
    ensures Congruent(x % CombinedModulus(p1), x, p1 - 1)
  {
    CongruentDivisor(x, p1, p1 - 1);
    CongruentDivisor(x, p1 - 1, p1);
    assert (p1 - 1) * p1 == p1 * (p1 - 1);
  }

  // ---- Ring operations component by component ----------------------------------------------

  ghost function SumOfProducts(xs: seq<int>, ys: seq<int>): int
    requires |xs| == |ys|
  {
    if |xs| == 0 then 0
    else
      var k := |xs| - 1;
      SumOfProducts(xs[..k], ys[..k]) + xs[k] * ys[k]
  }

  lemma {:induction false} SumOfProductsCongruent(xs: seq<int>, us: seq<int>, ys: seq<int>, m: int)
    requires m > 0 && |xs| == |us| == |ys|
    requires forall i :: 0 <= i < |xs| ==> Congruent(xs[i], us[i], m)
    ensures Congruent(SumOfProducts(xs, ys), SumOfProducts(us, ys), m)
  {
    if |xs| == 0 {
    } else {
      var k := |xs| - 1;
      SumOfProductsCongruent(xs[..k], us[..k], ys[..k], m);
      CongruentMul(xs[k], us[k], ys[k], ys[k], m);
      CongruentAdd(SumOfProducts(xs[..k], ys[..k]), SumOfProducts(us[..k], ys[..k]), xs[k] * ys[k], us[k] * ys[k], m);
    }
  }

  ghost function FirstComponents(vs: seq<int64>, p1: int64): (out: seq<int>)
    requires p1 >= 2
    ensures |out| == |vs|
    ensures forall i :: 0 <= i < |vs| ==> out[i] == Split(vs[i], p1).0
  {
    seq(|vs|, i requires 0 <= i < |vs| => Split(vs[i], p1).0)
  }

  ghost function SecondComponents(vs: seq<int64>, p1: int64): (out: seq<int>)
    requires p1 >= 2
    ensures |out| == |vs|
    ensures forall i :: 0 <= i < |vs| ==> out[i] == Split(vs[i], p1).1
  {
    seq(|vs|, i requires 0 <= i < |vs| => Split(vs[i], p1).1)
  }

  /** A sum of products computed in each ring by itself recomposes to the true sum of
      products modulo the combined modulus. */
  lemma RingIsomorphism(vs: seq<int64>, ys: seq<int>, p1: int64)
    requires Basis(p1) && |vs| == |ys|
    requires forall i :: 0 <= i < |vs| ==> 0 <= vs[i]
    ensures var s1 := SumOfProducts(FirstComponents(vs, p1), ys) % p1;
            var s2 := SumOfProducts(SecondComponents(vs, p1), ys) % (p1 - 1);
            Recompose(s1, s2, p1) == SumOfProducts(vs, ys) % CombinedModulus(p1)
  {
    var us, ws := FirstComponents(vs, p1), SecondComponents(vs, p1);
    forall i | 0 <= i < |vs|
      ensures Congruent(us[i], vs[i], p1) && Congruent(ws[i], vs[i], p1 - 1)
    {
      CongruentMod(vs[i], p1);
      CongruentMod(vs[i], p1 - 1);
    }
    SumOfProductsCongruent(us, vs, ys, p1);
    SumOfProductsCongruent(ws, vs, ys, p1 - 1);
    var x1, x2 := SumOfProducts(us, ys), SumOfProducts(ws, ys);
    CongruentMod(x1, p1);
    CongruentMod(x2, p1 - 1);
    RecomposeOfResidues(SumOfProducts(vs, ys), x1 % p1, x2 % (p1 - 1), p1);
  }
}
