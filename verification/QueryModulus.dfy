/** What becomes of a query whose values were reduced modulo the plaintext modulus, as the
    benchmark's sampling does (src/db_polynomial.cpp), rather than modulo the message modulus:
    exactly when its scores decode right. */
module QueryModulus {
  import opened MachineInts
  import opened Crt
  import opened DbPolynomial
  import opened Parameters
  import opened EndToEnd

  /** The query values as the benchmark samples them. */
  ghost function ReducedQuery(p: Params, raw: seq<int>): (values: seq<int>)
    requires p.plaintextModulus > 0
    ensures |values| == |raw|
    ensures forall j :: 0 <= j < |raw| ==> values[j] == ReduceMod(raw[j], p.plaintextModulus)
  {
    seq(|raw|, j requires 0 <= j < |raw| => ReduceMod(raw[j], p.plaintextModulus))
  }

  /** The sum of a column over the coordinates at which the query is negative. */
  ghost function NegativeSum(raw: seq<int>, column: seq<int>): int
    requires |raw| == |column|
  {
    if |raw| == 0 then 0
    else
      var k := |raw| - 1;
      NegativeSum(raw[..k], column[..k]) + if raw[k] < 0 then column[k] else 0
  }

  lemma ReducedValue(x: int, m: int)
    requires m > 0 && -m <= x < m
    ensures ReduceMod(x, m) == if x < 0 then x + m else x
  {
    ReduceModIsResidue(x, m);
    if x < 0 {
      QuotientUnique(x, -1, x + m, m);
    } else {
      QuotientUnique(x, 0, x, m);
    }
  }

  lemma ReducedTerm(x: int, v: int, y: int, m: int)
    requires v == if x < 0 then x + m else x
    ensures v * y == x * y + m * if x < 0 then y else 0
  {
    assert (x + m) * y == x * y + m * y;
  }

  /** Every negative coordinate adds the modulus once for each unit of its column entry. */
  lemma {:induction false} ReducedSum(raw: seq<int>, values: seq<int>, column: seq<int>, m: int)
    requires |raw| == |values| == |column|
    requires forall j :: 0 <= j < |raw| ==> values[j] == if raw[j] < 0 then raw[j] + m else raw[j]
    ensures SumOfProducts(values, column) == SumOfProducts(raw, column) + m * NegativeSum(raw, column)
  {
    if |raw| == 0 {
      assert m * 0 == 0;
    } else {
      var k := |raw| - 1;
      ReducedSum(raw[..k], values[..k], column[..k], m);
      ReducedTerm(raw[k], values[k], column[k], m);
      Distributes(m, NegativeSum(raw[..k], column[..k]), if raw[k] < 0 then column[k] else 0);
    }
  }

  lemma Distributes(m: int, a: int, b: int)
    ensures m * (a + b) == m * a + m * b
  {
  }

  /** A surviving value shifted by `shift` decodes to itself exactly when the shift is a multiple
      of the modulus. */
  lemma ShiftedSurvives(x: int, shift: int, modulus: int)
    requires modulus > 0 && CenteredResidue(ReduceMod(x, modulus), modulus) == x
    ensures CenteredResidue(ReduceMod(x + shift, modulus), modulus) == x <==> shift % modulus == 0
  {
    hide CenteredResidue, ReduceMod;
    ReduceModIsResidue(x, modulus);
    ReduceModIsResidue(x + shift, modulus);
    DecodedResidue(x + shift, modulus);
    ShiftIsMultiple(x, shift, modulus);
  }

  lemma DecodedResidue(v: int, modulus: int)
    requires modulus > 0
    ensures Congruent(CenteredResidue(ReduceMod(v, modulus), modulus), v, modulus)
  {
    ReduceModIsResidue(v, modulus);
    CongruentMod(v, modulus);
    var r := v % modulus;
    if r > modulus / 2 {
      CongruentByMultiple(r - modulus, r, -1, modulus);
    }
  }

  lemma ShiftIsMultiple(x: int, shift: int, modulus: int)
    requires modulus > 0
    ensures Congruent(x + shift, x, modulus) <==> shift % modulus == 0
  {
    var k := shift / modulus;
    var r := shift % modulus;
    var q := x / modulus;
    assert shift == k * modulus + r && x == q * modulus + x % modulus;
    if r == 0 {
      CongruentByMultiple(x + shift, x, k, modulus);
    }
    if Congruent(x + shift, x, modulus) {
      var t := (x + shift) / modulus - q;
      assert shift == t * modulus by {
        assert t * modulus == ((x + shift) / modulus) * modulus - q * modulus;
      }
      QuotientUnique(shift, t, 0, modulus);
    }
  }

  /** In-range queries are small against the plaintext modulus. */
  lemma InRangeIsSmall(p: Params, raw: seq<int>, j: nat)
    requires Ready(p) && |raw| == p.embeddingLength && InRange(raw, p.embeddingPrecision) && j < |raw|
    ensures -p.plaintextModulus <= raw[j] < p.plaintextModulus
  {
    var m := MaxAbsEmbeddingValue(p.embeddingPrecision);
    MulMonotone(1, m, m);
    MulMonotone(1, |raw|, m * m);
  }

  ghost function NegativeColumn(p: Params, db: Database, raw: seq<int>, desired: int, s: nat, i: nat): int
    requires DatabaseShape(p, db) && |raw| == p.embeddingLength && s < p.splitsPerCluster && i < p.n
  {
    if 0 <= desired < |db| then
      assert SplitShape(p, db[desired][s]);
      NegativeSum(raw, Slot(db[desired][s], i))
    else 0
  }

  /** A slot decodes to the signed dot product exactly when the plaintext modulus times the sum of
      the column's entries at negative coordinates is a multiple of the message modulus. */
  lemma QueryModulusMatters(p: Params, db: Database, raw: seq<int>, desired: int, s: nat, i: nat)
    requires Ready(p) && DatabaseShape(p, db) && DatabaseInRange(p, db)
    requires |raw| == p.embeddingLength && InRange(raw, p.embeddingPrecision)
    requires s < p.splitsPerCluster && i < p.n
    ensures Decoding(p, Expected(p, db, ReducedQuery(p, raw), desired, s, i)) == Expected(p, db, raw, desired, s, i)
            <==> (p.plaintextModulus * NegativeColumn(p, db, raw, desired, s, i)) % p.MessageModulus() == 0
  {
    hide DatabaseInRange, CenteredResidue, ReduceMod;
    var values, m := ReducedQuery(p, raw), p.plaintextModulus;
    var x, negative := Expected(p, db, raw, desired, s, i), NegativeColumn(p, db, raw, desired, s, i);
    forall j | 0 <= j < |raw|
      ensures values[j] == if raw[j] < 0 then raw[j] + m else raw[j]
    {
      InRangeIsSmall(p, raw, j);
      ReducedValue(raw[j], m);
    }
    if 0 <= desired < |db| {
      assert SplitShape(p, db[desired][s]);
      ReducedSum(raw, values, Slot(db[desired][s], i), m);
    } else {
      assert m * 0 == 0;
    }
    ExpectedSurvives(p, db, raw, desired, s, i);
    ShiftedSurvives(x, m * negative, p.MessageModulus());
  }

  // ---- For every database ------------------------------------------------------------------------

  ghost predicate ScoresRight(p: Params, db: Database, raw: seq<int>, desired: int)
    requires Ready(p) && DatabaseShape(p, db) && |raw| == p.embeddingLength
  {
    forall s: nat, i: nat :: s < p.splitsPerCluster && i < p.n ==>
      Decoding(p, Expected(p, db, ReducedQuery(p, raw), desired, s, i)) == Expected(p, db, raw, desired, s, i)
  }

  ghost predicate AlwaysScoresRight(p: Params, raw: seq<int>, desired: int)
    requires Ready(p) && |raw| == p.embeddingLength
  {
    forall db: Database :: DatabaseShape(p, db) && DatabaseInRange(p, db) ==> ScoresRight(p, db, raw, desired)
  }

  lemma {:induction false} NoNegatives(raw: seq<int>, column: seq<int>)
    requires |raw| == |column| && forall j :: 0 <= j < |raw| ==> raw[j] >= 0
    ensures NegativeSum(raw, column) == 0
  {
    if |raw| == 0 {
    } else {
      var k := |raw| - 1;
      NoNegatives(raw[..k], column[..k]);
    }
  }

  /** A column that is -1 at one negative coordinate and 0 elsewhere. */
  lemma {:induction false} OneNegative(raw: seq<int>, column: seq<int>, at: nat)
    requires at < |raw| == |column| && raw[at] < 0
    requires forall j :: 0 <= j < |raw| ==> column[j] == if j == at then -1 else 0
    ensures NegativeSum(raw, column) == -1
  {
    var k := |raw| - 1;
    if at == k {
      NegativeZeros(raw[..k], column[..k]);
    } else {
      OneNegative(raw[..k], column[..k], at);
    }
  }

  lemma {:induction false} NegativeZeros(raw: seq<int>, column: seq<int>)
    requires |raw| == |column| && forall j :: 0 <= j < |raw| ==> column[j] == 0
    ensures NegativeSum(raw, column) == 0
  {
    if |raw| == 0 {
    } else {
      var k := |raw| - 1;
      NegativeZeros(raw[..k], column[..k]);
    }
  }

  ghost function Spike(p: Params, at: nat): (split: seq<seq<int>>)
    requires p.embeddingLength >= 0 && p.n >= 0
    ensures |split| == p.embeddingLength
    ensures forall j :: 0 <= j < |split| ==> |split[j]| == p.n
    ensures forall j, i :: 0 <= j < |split| && 0 <= i < p.n ==> split[j][i] == if j == at then -1 else 0
  {
    seq(p.embeddingLength, j => seq(p.n, i => if j == at then -1 else 0))
  }

  /** A database holding -1 at coordinate `at` of every document, and 0 elsewhere. */
  ghost function SpikeDatabase(p: Params, at: nat): (db: Database)
    requires Ready(p)
    ensures |db| == p.numClusters
    ensures forall c :: 0 <= c < |db| ==> |db[c]| == p.splitsPerCluster
    ensures forall c, s :: 0 <= c < |db| && 0 <= s < p.splitsPerCluster ==> db[c][s] == Spike(p, at)
  {
    seq(p.numClusters, c => seq(p.splitsPerCluster, s => Spike(p, at)))
  }

  lemma SpikeIsDatabase(p: Params, at: nat)
    requires Ready(p)
    ensures DatabaseShape(p, SpikeDatabase(p, at)) && DatabaseInRange(p, SpikeDatabase(p, at))
  {
    var db := SpikeDatabase(p, at);
    forall c, s, j | 0 <= c < |db| && 0 <= s < |db[c]| && 0 <= j < |db[c][s]|
      ensures InRange(db[c][s][j], p.embeddingPrecision)
    {
      assert db[c][s] == Spike(p, at);
    }
  }

  /** For an existing cluster of at least one split: every database scores right if and only if
      the query has no negative value or the two moduli are the same. */
  lemma AlwaysRightIff(p: Params, raw: seq<int>, desired: int)
    requires Ready(p) && |raw| == p.embeddingLength && InRange(raw, p.embeddingPrecision)
    requires 0 <= desired < p.numClusters && p.splitsPerCluster >= 1
    ensures AlwaysScoresRight(p, raw, desired)
            <==> (forall j :: 0 <= j < |raw| ==> raw[j] >= 0) || p.plaintextModulus == p.MessageModulus()
  {
    hide DatabaseInRange, Expected, Decoding, InRange;
    MessageModulusBounds(p);
    if (forall j :: 0 <= j < |raw| ==> raw[j] >= 0) || p.plaintextModulus == p.MessageModulus() {
      forall db: Database, s: nat, i: nat
        | DatabaseShape(p, db) && DatabaseInRange(p, db) && s < p.splitsPerCluster && i < p.n
        ensures Decoding(p, Expected(p, db, ReducedQuery(p, raw), desired, s, i)) == Expected(p, db, raw, desired, s, i)
      {
        RightSlot(p, db, raw, desired, s, i);
      }
    } else {
      var at: nat :| at < |raw| && raw[at] < 0;
      SpikeIsDatabase(p, at);
      WrongSlot(p, raw, desired, at);
      assert !ScoresRight(p, SpikeDatabase(p, at), raw, desired);
    }
  }

  lemma ZeroShift(m: int, k: int, modulus: int)
    requires modulus > 0 && (k == 0 || m == modulus)
    ensures (m * k) % modulus == 0
  {
    if k == 0 {
      assert m * 0 == 0;
    } else {
      QuotientUnique(m * k, k, 0, m);
    }
  }

  lemma RightSlot(p: Params, db: Database, raw: seq<int>, desired: int, s: nat, i: nat)
    requires Ready(p) && DatabaseShape(p, db) && DatabaseInRange(p, db)
    requires |raw| == p.embeddingLength && InRange(raw, p.embeddingPrecision)
    requires s < p.splitsPerCluster && i < p.n && 0 <= desired < p.numClusters
    requires (forall j :: 0 <= j < |raw| ==> raw[j] >= 0) || p.plaintextModulus == p.MessageModulus()
    ensures Decoding(p, Expected(p, db, ReducedQuery(p, raw), desired, s, i)) == Expected(p, db, raw, desired, s, i)
  {
    hide *;
    if forall j :: 0 <= j < |raw| ==> raw[j] >= 0 {
      NoNegativeColumn(p, db, raw, desired, s, i);
    }
    MessageModulusBounds(p);
    PositivePlaintext(p);
    ZeroShift(p.plaintextModulus, NegativeColumn(p, db, raw, desired, s, i), p.MessageModulus());
    QueryModulusMatters(p, db, raw, desired, s, i);
  }

  lemma PositivePlaintext(p: Params)
    requires Ready(p)
    ensures p.plaintextModulus > 0
  {
  }

  lemma NoNegativeColumn(p: Params, db: Database, raw: seq<int>, desired: int, s: nat, i: nat)
    requires DatabaseShape(p, db) && |raw| == p.embeddingLength && s < p.splitsPerCluster && i < p.n
    requires forall j :: 0 <= j < |raw| ==> raw[j] >= 0
    ensures NegativeColumn(p, db, raw, desired, s, i) == 0
  {
    if 0 <= desired < |db| {
      assert SplitShape(p, db[desired][s]);
      NoNegatives(raw, Slot(db[desired][s], i));
    }
  }

  lemma WrongSlot(p: Params, raw: seq<int>, desired: int, at: nat)
    requires Ready(p) && |raw| == p.embeddingLength && InRange(raw, p.embeddingPrecision)
    requires 0 <= desired < p.numClusters && p.splitsPerCluster >= 1
    requires at < |raw| && raw[at] < 0 && p.plaintextModulus != p.MessageModulus()
    requires DatabaseShape(p, SpikeDatabase(p, at)) && DatabaseInRange(p, SpikeDatabase(p, at))
    ensures Decoding(p, Expected(p, SpikeDatabase(p, at), ReducedQuery(p, raw), desired, 0, 0))
            != Expected(p, SpikeDatabase(p, at), raw, desired, 0, 0)
  {
    hide DatabaseInRange, Expected, Decoding, InRange;
    var db, m := SpikeDatabase(p, at), p.plaintextModulus;
    MessageModulusBounds(p);
    QueryModulusMatters(p, db, raw, desired, 0, 0);
    OneNegative(raw, Slot(db[desired][0], 0), at);
    assert m * -1 == -m;
    QuotientUnique(-m, -1, p.MessageModulus() - m, p.MessageModulus());
  }

  // ---- One input -----------------------------------------------------------------------------------

  /** Two rings modulo 11 and 10, plaintext modulus 71, the query [-1] and a document [-1]: the
      score is 1, and 40 is decoded. */
  lemma NegativeQueryFails() returns (p: Params, db: Database)
    ensures Ready(p) && p.numComponentRings == 2 && p.compRingModulus == 11 && p.plaintextModulus == 71
    ensures DatabaseShape(p, db) && DatabaseInRange(p, db) && InRange([-1], p.embeddingPrecision)
    ensures p.embeddingLength == 1 && p.splitsPerCluster == 1 && p.n == 2
    ensures Expected(p, db, [-1], 0, 0, 0) == 1
    ensures Decoding(p, Expected(p, db, ReducedQuery(p, [-1]), 0, 0, 0)) == 40
  {
    p := Params(2, 257, 71, 2, 1, 1, 1, 1, 2, 11, 2, 1, 1, 110);
    db := [[[[-1, 0]]]];
    ExampleIsReady(p);
    ExampleScores(p, db);
    ReducedValue(-70, 110);
  }

  lemma ExampleIsReady(p: Params)
    requires p == Params(2, 257, 71, 2, 1, 1, 1, 1, 2, 11, 2, 1, 1, 110)
    ensures Ready(p) && MaxAbsEmbeddingValue(p.embeddingPrecision) == 1
  {
    assert CombinedModulus(11) == 110;
  }

  lemma ExampleScores(p: Params, db: Database)
    requires p.embeddingLength == 1 && p.plaintextModulus == 71 && p.n == 2 && p.splitsPerCluster == 1
    requires p.numClusters == 1 && db == [[[[-1, 0]]]]
    ensures DatabaseShape(p, db)
    ensures Expected(p, db, [-1], 0, 0, 0) == 1
    ensures Expected(p, db, ReducedQuery(p, [-1]), 0, 0, 0) == -70
  {
    hide ReduceMod;
    var raw, values := [-1], ReducedQuery(p, [-1]);
    ReducedValue(-1, 71);
    assert SplitShape(p, db[0][0]);
    var column := Slot(db[0][0], 0);
    assert column == [-1] && values == [70];
    assert raw[..0] == values[..0] == column[..0] == [];
    assert SumOfProducts(raw, column) == 1 && SumOfProducts(values, column) == -70;
  }
}
