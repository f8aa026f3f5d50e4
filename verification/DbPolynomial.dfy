/** Signed values as residues, and when they survive (src/db_polynomial.cpp). */
module DbPolynomial {
  import opened MachineInts
  import opened Codecs
  import opened Crt

  // ---- The signed value range --------------------------------------------------------------

  function MaxAbsEmbeddingValue(precision: nat): (m: int)
    requires precision >= 1
    ensures m >= 1
  {
    Pow2(precision - 1)
  }

  function MinEmbeddingValue(precision: nat): int
    requires precision >= 1
  {
    -MaxAbsEmbeddingValue(precision)
  }

  function MaxEmbeddingValue(precision: nat): int
    requires precision >= 1
  {
    MaxAbsEmbeddingValue(precision) - 1
  }

  ghost predicate InRange(values: seq<int>, precision: nat)
    requires precision >= 1
  {
    forall i :: 0 <= i < |values| ==> MinEmbeddingValue(precision) <= values[i] <= MaxEmbeddingValue(precision)
  }

  /** The values of a precision are the two's complement numbers of so many bits: those that an
      unsigned word below 2^precision stands for, with the upper half negative. There are
      2^precision of them. */
  lemma PrecisionRange(precision: nat, v: int)
    requires precision >= 1
    ensures MinEmbeddingValue(precision) <= v <= MaxEmbeddingValue(precision)
            <==> -(Pow2(precision - 1) as int) <= v < Pow2(precision - 1)
    ensures MinEmbeddingValue(precision) <= v <= MaxEmbeddingValue(precision)
            <==> exists u: int :: 0 <= u < Pow2(precision) && TwosComplement(u, precision) == v
    ensures MaxEmbeddingValue(precision) - MinEmbeddingValue(precision) + 1 == Pow2(precision)
    ensures MinEmbeddingValue(precision) == -MaxEmbeddingValue(precision) - 1
  {
    var u := if v >= 0 then v else v + Pow2(precision);
    if MinEmbeddingValue(precision) <= v <= MaxEmbeddingValue(precision) {
      assert TwosComplement(u, precision) == v;
    }
  }

  function TwosComplement(u: int, precision: nat): int
    requires precision >= 1
  {
    if u < Pow2(precision - 1) then u else u - Pow2(precision)
  }

  lemma InRangeIff(values: seq<int>, precision: nat)
    requires precision >= 1
    ensures InRange(values, precision)
            <==> forall i :: 0 <= i < |values| ==> -(Pow2(precision - 1) as int) <= values[i] < Pow2(precision - 1)
  {
  }

  // ---- Overflow predicates -----------------------------------------------------------------

  function WorstCase(precision: nat, length: nat): (w: nat)
    requires precision >= 1
  {
    var m := MaxAbsEmbeddingValue(precision);
    MulNonNegative(m * m, length);
    m * m * length
  }

  /** The square is computed in 64 bits, which overflows from a precision of 33 on. */
  predicate ProductsCanOverflow(precision: nat, plaintextModulus: int)
    requires precision >= 1 && plaintextModulus >= 1
    requires MaxAbsEmbeddingValue(precision) * MaxAbsEmbeddingValue(precision) <= INT64_MAX
  {
    MaxAbsEmbeddingValue(precision) * MaxAbsEmbeddingValue(precision) >= (plaintextModulus + 1) / 2
  }

  predicate DotProductCanOverflow(precision: nat, length: nat, plaintextModulus: int)
    requires precision >= 1 && plaintextModulus >= 1
  {
    WorstCase(precision, length) >= (plaintextModulus + 1) / 2
  }

  /** The predicate compares 2^(2 * precision - 2) * length with half the modulus, rounded up. */
  lemma OverflowThreshold(precision: nat, length: nat, plaintextModulus: int)
    requires precision >= 1 && plaintextModulus >= 1
    ensures WorstCase(precision, length) == Pow2(2 * precision - 2) * length
    ensures DotProductCanOverflow(precision, length, plaintextModulus)
            <==> Pow2(2 * precision - 2) * length >= (plaintextModulus + 1) / 2
  {
    hide Pow2;
    Pow2Add(precision - 1, precision - 1);
  }

  // ---- Residues ----------------------------------------------------------------------------

  function ReduceMod(value: int, modulus: int): int
    requires modulus > 0
  {
    var reduced := Rem(value, modulus);
    if reduced < 0 then reduced + modulus else reduced
  }

  function CenteredResidue(value: int, modulus: int): int
    requires modulus > 0
  {
    if value > modulus / 2 then value - modulus else value
  }

  lemma ReduceModIsResidue(value: int, modulus: int)
    requires modulus > 0
    ensures ReduceMod(value, modulus) == value % modulus
    ensures 0 <= ReduceMod(value, modulus) < modulus
  {
    RemCorrected(value, modulus);
  }

  /** A value comes back from reduction and centring exactly when it lies in the centred
      range, which is symmetric for an odd modulus and reaches one further up for an even. */
  lemma SurvivesIff(value: int, modulus: int)
    requires modulus > 0
    ensures CenteredResidue(ReduceMod(value, modulus), modulus) == value
            <==> -((modulus + 1) / 2) < value <= modulus / 2
  {
    ReduceModIsResidue(value, modulus);
    var r := value % modulus;
    var k := value / modulus;
    assert value == k * modulus + r;
    if -((modulus + 1) / 2) < value <= modulus / 2 {
      if value >= 0 {
        QuotientUnique(value, 0, value, modulus);
      } else {
        QuotientUnique(value, -1, value + modulus, modulus);
      }
    }
  }

  // ---- Dot products ------------------------------------------------------------------------

  lemma {:induction false} DotProductBounds(xs: seq<int>, ys: seq<int>, precision: nat)
    requires precision >= 1 && |xs| == |ys| && InRange(xs, precision) && InRange(ys, precision)
    ensures var m := MaxAbsEmbeddingValue(precision);
            && SumOfProducts(xs, ys) <= WorstCase(precision, |xs|)
            && -SumOfProducts(xs, ys) <= WorstCase(precision, |xs|) - m * |xs|
  {
    var m := MaxAbsEmbeddingValue(precision);
    if |xs| == 0 {
      assert m * m * 0 == 0 && m * 0 == 0;
    } else {
      var k := |xs| - 1;
      DotProductBounds(xs[..k], ys[..k], precision);
      ProductBounds(xs[k], ys[k], m);
      WorstCaseStep(precision, k);
      assert m * (k + 1) == m * k + m;
    }
  }

  lemma WorstCaseStep(precision: nat, k: nat)
    requires precision >= 1
    ensures var m := MaxAbsEmbeddingValue(precision);
            WorstCase(precision, k + 1) == WorstCase(precision, k) + m * m
  {
    var m := MaxAbsEmbeddingValue(precision);
    assert (m * m) * (k + 1) == (m * m) * k + m * m;
  }

  lemma ProductBounds(x: int, y: int, m: int)
    requires m >= 1 && -m <= x <= m - 1 && -m <= y <= m - 1
    ensures -(m * m - m) <= x * y <= m * m
  {
    SquareBound(m);
    var a, b := if x >= 0 then x else -x, if y >= 0 then y else -y;
    SignedProduct(x, y, a, b);
    if (x >= 0) == (y >= 0) {
      BoxBound(a, b, m, m);
    } else if x >= 0 {
      BoxBound(a, b, m - 1, m);
    } else {
      BoxBound(a, b, m, m - 1);
    }
  }

  lemma SquareBound(m: int)
    requires m >= 1
    ensures m <= m * m && (m - 1) * m == m * m - m == m * (m - 1)
  {
  }

  lemma SignedProduct(x: int, y: int, a: int, b: int)
    requires a == (if x >= 0 then x else -x) && b == (if y >= 0 then y else -y)
    ensures x * y == if (x >= 0) == (y >= 0) then a * b else -(a * b)
  {
  }

  lemma BoxBound(a: int, b: int, c: int, d: int)
    requires 0 <= a <= c && 0 <= b <= d
    ensures 0 <= a * b <= c * d
  {
    MulNonNegative(a, b);
    MulMonotone(a, c, b);
    MulMonotone(b, d, c);
  }

  ghost predicate DotSurvives(xs: seq<int>, ys: seq<int>, modulus: int)
    requires |xs| == |ys| && modulus > 0
  {
    CenteredResidue(ReduceMod(SumOfProducts(xs, ys), modulus), modulus) == SumOfProducts(xs, ys)
  }

  /** If the predicate clears the parameters, every in-range dot product survives, under the
      plaintext modulus and under every larger one. */
  lemma NoOverflow(xs: seq<int>, ys: seq<int>, precision: nat, plaintextModulus: int, modulus: int)
    requires precision >= 1 && 1 <= plaintextModulus <= modulus
    requires |xs| == |ys| && InRange(xs, precision) && InRange(ys, precision)
    requires !DotProductCanOverflow(precision, |xs|, plaintextModulus)
    ensures DotSurvives(xs, ys, modulus)
  {
    DotProductBounds(xs, ys, precision);
    MulNonNegative(MaxAbsEmbeddingValue(precision), |xs|);
    SurvivesIff(SumOfProducts(xs, ys), modulus);
  }

  /** A single product is a dot product of length one, as long as its square fits 64 bits. */
  lemma ProductsAreShortDots(precision: nat, plaintextModulus: int)
    requires precision >= 1 && plaintextModulus >= 1
    requires precision <= 32
    ensures MaxAbsEmbeddingValue(precision) * MaxAbsEmbeddingValue(precision) <= INT64_MAX
    ensures ProductsCanOverflow(precision, plaintextModulus) <==> DotProductCanOverflow(precision, 1, plaintextModulus)
  {
    hide Pow2;
    var m := MaxAbsEmbeddingValue(precision);
    Pow2Add(precision - 1, precision - 1);
    Pow2Monotone(2 * precision - 2, 62);
    Pow2Word();
  }

  ghost function AllMinimum(length: nat, precision: nat): (xs: seq<int>)
    requires precision >= 1
    ensures |xs| == length && InRange(xs, precision)
    ensures forall i :: 0 <= i < length ==> xs[i] == MinEmbeddingValue(precision)
  {
    seq(length, _ => MinEmbeddingValue(precision))
  }

  lemma {:induction false} WorstCaseReached(length: nat, precision: nat)
    requires precision >= 1
    ensures SumOfProducts(AllMinimum(length, precision), AllMinimum(length, precision)) == WorstCase(precision, length)
  {
    var m := MaxAbsEmbeddingValue(precision);
    if length == 0 {
      assert m * m * 0 == 0;
    } else {
      WorstCaseReached(length - 1, precision);
      assert AllMinimum(length, precision)[..length - 1] == AllMinimum(length - 1, precision);
      WorstCaseStep(precision, length - 1);
      assert (-m) * (-m) == m * m;
    }
  }

  ghost predicate AllSurvive(precision: nat, length: nat, modulus: int)
    requires precision >= 1 && modulus > 0
  {
    forall xs: seq<int>, ys: seq<int> ::
      |xs| == |ys| == length && InRange(xs, precision) && InRange(ys, precision) ==> DotSurvives(xs, ys, modulus)
  }

  /** The exact condition: all in-range dot products survive if and only if the worst case is
      at most half the modulus. The predicate of the sources is that condition for every odd
      modulus; for an even one it also turns away the single worst case modulus / 2. */
  lemma OverflowExact(precision: nat, length: nat, modulus: int)
    requires precision >= 1 && modulus > 0
    ensures AllSurvive(precision, length, modulus) <==> WorstCase(precision, length) <= modulus / 2
    ensures modulus % 2 == 1 ==>
              (AllSurvive(precision, length, modulus) <==> !DotProductCanOverflow(precision, length, modulus))
    ensures modulus % 2 == 0 ==>
              (AllSurvive(precision, length, modulus)
               <==> !DotProductCanOverflow(precision, length, modulus) || WorstCase(precision, length) == modulus / 2)
  {
    var least := AllMinimum(length, precision);
    WorstCaseReached(length, precision);
    SurvivesIff(WorstCase(precision, length), modulus);
    assert AllSurvive(precision, length, modulus) ==> DotSurvives(least, least, modulus);
    if WorstCase(precision, length) <= modulus / 2 {
      forall xs: seq<int>, ys: seq<int> | |xs| == |ys| == length && InRange(xs, precision) && InRange(ys, precision)
        ensures DotSurvives(xs, ys, modulus)
      {
        DotProductBounds(xs, ys, precision);
        NegativeRoom(precision, length, modulus);
        SurvivesIff(SumOfProducts(xs, ys), modulus);
      }
    }
  }

  lemma NegativeRoom(precision: nat, length: nat, modulus: int)
    requires precision >= 1 && modulus > 0 && WorstCase(precision, length) <= modulus / 2
    ensures WorstCase(precision, length) - MaxAbsEmbeddingValue(precision) * length < (modulus + 1) / 2
  {
    var m := MaxAbsEmbeddingValue(precision);
    if length == 0 {
      assert m * m * 0 == 0 && m * 0 == 0;
    } else {
      MulMonotone(1, length, m);
    }
  }

  // ---- Component rings and stored polynomials -------------------------------------------------

  /** The plaintext modulus of a component ring; None (the sources throw) out of range. */
  function ComponentRingModulus(rings: int, plaintextModulus: int, p1: int, ring: int): Option<int> {
    if rings == 1 then
      if ring != 0 then None else Some(plaintextModulus)
    else if ring == 0 then Some(p1)
    else if ring == 1 then Some(p1 - 1)
    else None
  }

  /** Ring 0 has modulus p1 and ring 1 has p1 - 1, or the one ring the plaintext modulus; there are no
      others. */
  lemma ComponentRings(rings: int, plaintextModulus: int, p1: int, ring: int)
    requires 1 <= rings <= 2
    ensures ComponentRingModulus(rings, plaintextModulus, p1, ring).Some? <==> 0 <= ring < rings
    ensures rings == 1 ==> ComponentRingModulus(rings, plaintextModulus, p1, 0) == Some(plaintextModulus)
    ensures rings == 2 ==> ComponentRingModulus(rings, plaintextModulus, p1, 0) == Some(p1)
                           && ComponentRingModulus(rings, plaintextModulus, p1, 1) == Some(p1 - 1)
  {
  }

  lemma StoredIsResidue(raw: seq<int>, q: int)
    requires q > 0
    ensures forall i :: 0 <= i < |raw| ==> 0 <= ReduceMod(raw[i], q) < q && Congruent(ReduceMod(raw[i], q), raw[i], q)
  {
    forall i | 0 <= i < |raw|
      ensures 0 <= ReduceMod(raw[i], q) < q && Congruent(ReduceMod(raw[i], q), raw[i], q)
    {
      ReduceModIsResidue(raw[i], q);
      CongruentMod(raw[i], q);
    }
  }

  ghost function StoredPolynomial(raw: seq<int>, q: int): (poly: seq<int>)
    requires q > 0
    ensures |poly| == |raw|
    ensures forall i :: 0 <= i < |raw| ==> poly[i] == ReduceMod(raw[i], q)
    ensures forall i :: 0 <= i < |raw| ==> 0 <= poly[i] < q && Congruent(poly[i], raw[i], q)
  {
    StoredIsResidue(raw, q);
    seq(|raw|, i requires 0 <= i < |raw| => ReduceMod(raw[i], q))
  }

  /** Coefficients are stored modulo q, whatever `modulus` is asked for. None (the sources
      throw) when the number of values is not the ring dimension. */
  method BuildPolynomialFromRawValues(n: nat, q: int, raw: seq<int>, modulus: int) returns (r: Option<seq<int>>)
    requires q > 0
    ensures r == if |raw| == n then Some(StoredPolynomial(raw, q)) else None
    ensures r.Some? ==> |r.value| == n
    ensures r.Some? ==> forall i :: 0 <= i < n ==> 0 <= r.value[i] < q && Congruent(r.value[i], raw[i], q)
  {
    hide ReduceMod;
    if |raw| != n {
      return None;
    }
    var poly: seq<int> := [];
    for i := 0 to n
      invariant |poly| == i
      invariant forall k :: 0 <= k < i ==> poly[k] == ReduceMod(raw[k], q)
    {
      poly := poly + [ReduceMod(raw[i], q)];
    }
    assert poly == StoredPolynomial(raw, q);
    return Some(poly);
  }

  /** One stored polynomial per component ring; they differ in nothing. */
  method CrtSplitDatabasePolynomial(n: nat, q: int, rings: nat, plaintextModulus: int, p1: int, raw: seq<int>)
    returns (r: Option<seq<seq<int>>>)
    requires q > 0 && 1 <= rings <= 2
    ensures r == if |raw| == n then Some(seq(rings, _ => StoredPolynomial(raw, q))) else None
  {
    var polys: seq<seq<int>> := [];
    for ring := 0 to rings
      invariant |polys| == ring
      invariant ring > 0 ==> |raw| == n
      invariant forall k :: 0 <= k < ring ==> polys[k] == StoredPolynomial(raw, q)
    {
      var modulus := ComponentRingModulus(rings, plaintextModulus, p1, ring);
      var poly := BuildPolynomialFromRawValues(n, q, raw, modulus.value);
      if poly.None? {
        return None;
      }
      polys := polys + [poly.value];
    }
    assert polys == seq(rings, _ => StoredPolynomial(raw, q));
    return Some(polys);
  }

  /** A stored in-range coefficient, read as a signed residue modulo q, is the raw value: this
      is why one stored form serves every component ring. */
  lemma StoredLifts(raw: seq<int>, q: int, precision: nat, i: nat)
    requires precision >= 1 && InRange(raw, precision) && i < |raw|
    requires 2 * MaxAbsEmbeddingValue(precision) < q
    ensures CenteredResidue(StoredPolynomial(raw, q)[i], q) == raw[i]
  {
    SurvivesIff(raw[i], q);
  }

  method CenteredResidues(values: seq<int>, modulus: int) returns (out: seq<int>)
    requires modulus > 0
    ensures |out| == |values|
    ensures forall i :: 0 <= i < |values| ==> out[i] == CenteredResidue(values[i], modulus)
  {
    out := [];
    for i := 0 to |values|
      invariant |out| == i
      invariant forall k :: 0 <= k < i ==> out[k] == CenteredResidue(values[k], modulus)
    {
      out := out + [CenteredResidue(values[i], modulus)];
    }
  }
}
