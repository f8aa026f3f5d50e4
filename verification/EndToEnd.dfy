/** The whole computation of one private query (benchmarks/benchmark_latency_seeded_parallel.cpp,
    tests/test_full_scoring_with_splits_seeded.cpp): split, score, mask, sum, recompose,
    centre. */
module EndToEnd {
  import opened MachineInts
  import opened Codecs
  import opened Crt
  import opened DbPolynomial
  import opened Parameters
  import opened Scoring
  import opened ParallelScoring

  // ---- Which inputs ------------------------------------------------------------------------

  /** Derived parameters for which the sources' overflow predicate is false, with moduli that
      fit the sources' integers. */
  ghost predicate Ready(p: Params) {
    && p.Derived()
    && p.embeddingPrecision >= 1 && p.embeddingLength >= 0 && p.splitsPerCluster >= 0
    && 1 <= p.plaintextModulus <= INT64_MAX
    && (p.numComponentRings == 2 ==> Basis(p.compRingModulus))
    && 2 * MaxAbsEmbeddingValue(p.embeddingPrecision) < p.q
    && !DotProductCanOverflow(p.embeddingPrecision, p.embeddingLength, p.plaintextModulus)
  }

  /** [cluster][split][j][i], signed values in range. */
  type Database = seq<seq<seq<seq<int>>>>

  /** [cluster][split][ring][j][i], coefficients modulo q. */
  type StoredForm = seq<seq<seq<seq<seq<int>>>>>

  ghost predicate SplitShape(p: Params, split: seq<seq<int>>) {
    && |split| == p.embeddingLength
    && forall j :: 0 <= j < |split| ==> |split[j]| == p.n
  }

  ghost predicate DatabaseShape(p: Params, db: Database) {
    && |db| == p.numClusters
    && (forall c :: 0 <= c < |db| ==> |db[c]| == p.splitsPerCluster)
    && (forall c, s :: 0 <= c < |db| && 0 <= s < |db[c]| ==> SplitShape(p, db[c][s]))
  }

  ghost predicate DatabaseInRange(p: Params, db: Database)
    requires p.embeddingPrecision >= 1
  {
    forall c, s, j :: 0 <= c < |db| && 0 <= s < |db[c]| && 0 <= j < |db[c][s]| ==>
      InRange(db[c][s][j], p.embeddingPrecision)
  }

  /** [cluster][split][ring][j]: the stored form of every polynomial, one copy per ring. */
  ghost predicate StoredDatabase(p: Params, db: Database, stored: StoredForm)
    requires p.q > 0
  {
    && |stored| == |db|
    && (forall c :: 0 <= c < |db| ==> |stored[c]| == |db[c]|)
    && (forall c, s :: 0 <= c < |db| && 0 <= s < |db[c]| ==> |stored[c][s]| == p.numComponentRings)
    && (forall c, s, ring :: 0 <= c < |db| && 0 <= s < |db[c]| && 0 <= ring < p.numComponentRings ==>
          StoredSplit(p, db[c][s], stored[c][s][ring]))
  }

  ghost predicate StoredSplit(p: Params, split: seq<seq<int>>, stored: seq<seq<int>>)
    requires p.q > 0
  {
    |stored| == |split| && forall j :: 0 <= j < |split| ==> stored[j] == StoredPolynomial(split[j], p.q)
  }

  // ---- What the client asked for -------------------------------------------------------------

  ghost function Slot(split: seq<seq<int>>, i: nat): (column: seq<int>)
    requires forall j :: 0 <= j < |split| ==> i < |split[j]|
    ensures |column| == |split|
    ensures forall j :: 0 <= j < |split| ==> column[j] == split[j][i]
  {
    seq(|split|, j requires 0 <= j < |split| => split[j][i])
  }

  /** The signed dot product of the query with slot (s, i) of the desired cluster alone. */
  ghost function Expected(p: Params, db: Database, raw: seq<int>, desired: int, s: nat, i: nat): int
    requires DatabaseShape(p, db) && |raw| == p.embeddingLength && s < p.splitsPerCluster && i < p.n
  {
    if 0 <= desired < |db| then
      assert SplitShape(p, db[desired][s]);
      SumOfProducts(raw, Slot(db[desired][s], i))
    else 0
  }

  // ---- One ring -----------------------------------------------------------------------------

  ghost predicate RingQuery(p: Params, raw: seq<int>, query: seq<int>, modulus: int)
    requires modulus > 0
  {
    |query| == |raw| && forall j :: 0 <= j < |raw| ==> Congruent(query[j], raw[j], modulus)
  }

  /** The client's embedding values: residues modulo the message modulus, not modulo the
      plaintext modulus. */
  ghost predicate CanonicalEmbedding(p: Params, raw: seq<int>, values: seq<int64>)
    requires p.MessageModulus() > 0
  {
    |values| == |raw| && forall j :: 0 <= j < |raw| ==> values[j] == ReduceMod(raw[j], p.MessageModulus())
  }

  ghost function RingModulus(p: Params, ring: nat): (m: int)
    requires Ready(p) && ring < p.numComponentRings
    ensures m > 0
    ensures ComponentRingModulus(p.numComponentRings, p.plaintextModulus, p.compRingModulus, ring) == Some(m)
  {
    ComponentRingModulus(p.numComponentRings, p.plaintextModulus, p.compRingModulus, ring).value
  }

  lemma MessageModulusBounds(p: Params)
    requires Ready(p)
    ensures p.plaintextModulus <= p.MessageModulus() <= INT64_MAX
  {
  }

  /** Each ring's component of an embedding value has the raw value's residue in that ring. */
  lemma ComponentResidue(p: Params, raw: int, v: int64, ring: nat)
    requires Ready(p) && ring < p.numComponentRings
    requires v == ReduceMod(raw, p.MessageModulus())
    ensures p.numComponentRings == 2 ==> p.compRingModulus <= INT64_MAX
    ensures Congruent(Component(p.numComponentRings, p.compRingModulus, v, ring), raw, RingModulus(p, ring))
  {
    var m := p.MessageModulus();
    ReduceModIsResidue(raw, m);
    if p.numComponentRings == 1 {
      CongruentMod(raw, m);
    } else {
      var p1 := p.compRingModulus;
      FactorBound(p1);
      CombinedReduction(raw, p1);
      CongruentMod(v, p1);
      CongruentMod(v, p1 - 1);
    }
  }

  lemma FactorBound(p1: int)
    requires Basis(p1)
    ensures p1 <= INT64_MAX
  {
    if p1 > INT64_MAX {
      MulMonotone(1, p1 - 1, p1);
      assert false;
    }
  }

  ghost function SelectorBits(count: nat, desired: int): (bits: seq<int>)
    ensures |bits| == count
    ensures forall c :: 0 <= c < count ==> bits[c] == if c == desired then 1 else 0
  {
    seq(count, c => if c == desired then 1 else 0)
  }

  lemma {:induction false} SelectorPicks(count: nat, desired: int, dots: seq<int>)
    requires |dots| == count
    ensures SumOfProducts(SelectorBits(count, desired), dots) == if 0 <= desired < count then dots[desired] else 0
  {
    if count == 0 {
    } else {
      SelectorPicks(count - 1, desired, dots[..count - 1]);
      assert SelectorBits(count, desired)[..count - 1] == SelectorBits(count - 1, desired);
    }
  }

  /** A job over stored polynomials of the database, for a query with the right residues. */
  ghost predicate JobFor(p: Params, db: Database, raw: seq<int>, desired: int, modulus: int, job: RingJob)
    requires p.q > 0 && modulus > 0
  {
    && job.n == p.n && job.q == p.q && job.p == modulus && job.splits == p.splitsPerCluster
    && RingQuery(p, raw, job.query, modulus)
    && job.bits == SelectorBits(|db|, desired)
    && |job.db| == |db|
    && (forall c :: 0 <= c < |db| ==> |job.db[c]| == |db[c]|)
    && (forall c, s :: 0 <= c < |db| && 0 <= s < |db[c]| ==> StoredSplit(p, db[c][s], job.db[c][s]))
  }

  lemma JobIsValid(p: Params, db: Database, raw: seq<int>, desired: int, modulus: int, job: RingJob)
    requires p.q > 0 && modulus > 0 && p.n >= 0 && p.splitsPerCluster >= 0
    requires DatabaseShape(p, db) && |raw| == p.embeddingLength
    requires JobFor(p, db, raw, desired, modulus, job)
    ensures job.Valid()
  {
    forall c, s | 0 <= c < |job.db| && 0 <= s < job.splits
      ensures job.SplitFits(job.db[c][s])
    {
      assert SplitShape(p, db[c][s]) && StoredSplit(p, db[c][s], job.db[c][s]);
    }
  }

  lemma ColumnIsSlot(p: Params, split: seq<seq<int>>, job: RingJob, stored: seq<seq<int>>, i: nat)
    requires Ready(p) && SplitShape(p, split) && StoredSplit(p, split, stored) && i < p.n
    requires forall j :: 0 <= j < |split| ==> InRange(split[j], p.embeddingPrecision)
    requires job.q == p.q && job.n == p.n && job.SplitFits(stored)
    ensures job.Column(stored, i) == Slot(split, i)
  {
    forall j | 0 <= j < |split|
      ensures CenteredResidue(stored[j][i], p.q) == split[j][i]
    {
      StoredLifts(split[j], p.q, p.embeddingPrecision, i);
    }
  }

  /** A ring's decrypted result has, at every slot, the residue of what was asked for. */
  lemma RingResult(p: Params, db: Database, raw: seq<int>, desired: int, modulus: int, job: RingJob, s: nat, i: nat)
    requires Ready(p) && modulus > 0 && DatabaseShape(p, db) && DatabaseInRange(p, db)
    requires |raw| == p.embeddingLength && JobFor(p, db, raw, desired, modulus, job) && job.Valid()
    requires s < p.splitsPerCluster && i < p.n
    ensures 0 <= job.Result(s)[i] < modulus
    ensures Congruent(job.Result(s)[i], Expected(p, db, raw, desired, s, i), modulus)
  {
    var dots := job.Dots(s, i);
    SelectorPicks(|db|, desired, dots);
    assert job.bits[..|db|] == job.bits && dots[..|db|] == dots;
    var total := SumOfProducts(job.bits, dots);
    CongruentMod(total, modulus);
    if 0 <= desired < |db| {
      var split, stored := db[desired][s], job.db[desired][s];
      assert SplitShape(p, split) && StoredSplit(p, split, stored);
      ColumnIsSlot(p, split, job, stored, i);
      SumOfProductsCongruent(job.query, raw, Slot(split, i), modulus);
    }
  }

  // ---- All rings ------------------------------------------------------------------------------

  /** Recomposing what the rings hold gives the residue of the expected value. */
  lemma Recomposed(p: Params, x: int, parts: seq<int>)
    requires Ready(p) && |parts| == p.numComponentRings
    requires forall k :: 0 <= k < |parts| ==>
               0 <= parts[k] < RingModulus(p, k) && Congruent(parts[k], x, RingModulus(p, k))
    ensures p.numComponentRings == 2 ==>
              && p.compRingModulus <= INT64_MAX && parts[0] <= INT64_MAX && parts[1] <= INT64_MAX
              && 0 <= parts[0] < p.compRingModulus && 0 <= parts[1] < p.compRingModulus - 1
              && Recompose(parts[0], parts[1], p.compRingModulus) == ReduceMod(x, p.MessageModulus())
    ensures p.numComponentRings == 1 ==> parts[0] == ReduceMod(x, p.MessageModulus())
  {
    var m := p.MessageModulus();
    ReduceModIsResidue(x, m);
    assert 0 <= parts[0] < RingModulus(p, 0) && Congruent(parts[0], x, RingModulus(p, 0));
    if p.numComponentRings == 2 {
      assert 0 <= parts[1] < RingModulus(p, 1) && Congruent(parts[1], x, RingModulus(p, 1));
      FactorBound(p.compRingModulus);
      RecomposeOfResidues(x, parts[0], parts[1], p.compRingModulus);
    } else {
      QuotientUnique(parts[0], 0, parts[0], m);
    }
  }

  lemma ExpectedSurvives(p: Params, db: Database, raw: seq<int>, desired: int, s: nat, i: nat)
    requires Ready(p) && DatabaseShape(p, db) && DatabaseInRange(p, db)
    requires |raw| == p.embeddingLength && InRange(raw, p.embeddingPrecision)
    requires s < p.splitsPerCluster && i < p.n
    ensures var x := Expected(p, db, raw, desired, s, i);
            CenteredResidue(ReduceMod(x, p.MessageModulus()), p.MessageModulus()) == x
  {
    var m := p.MessageModulus();
    if 0 <= desired < |db| {
      var split := db[desired][s];
      assert SplitShape(p, split);
      forall j | 0 <= j < |split|
        ensures MinEmbeddingValue(p.embeddingPrecision) <= Slot(split, i)[j] <= MaxEmbeddingValue(p.embeddingPrecision)
      {
        assert InRange(split[j], p.embeddingPrecision);
      }
      NoOverflow(raw, Slot(split, i), p.embeddingPrecision, p.plaintextModulus, m);
    } else {
      SurvivesIff(0, m);
    }
  }

  /** Scores one ring: parallel loop, then the sum over clusters. */
  method ScoreRing(job: RingJob, turns: seq<nat>) returns (result: array<Ct>)
    requires job.Valid() && IsInterleaving(turns, job.Pairs())
    ensures fresh(result) && result.Length == job.splits
    ensures forall s :: 0 <= s < job.splits ==> result[s] == job.Result(s)
  {
    hide RingJob.Result, RingJob.SlotValue, IsInterleaving;
    var masked := ScoreParallel(job, turns);
    result := new Ct[job.splits](_ => ZeroCt(job.n));
    SumSlots(job, masked, result);
  }

  // ---- The query pipeline ----------------------------------------------------------------------

  /** The embedding values as the client hands them to the query builder. */
  method CanonicalizeEmbedding(p: Params, raw: seq<int>) returns (values: seq<int64>)
    requires Ready(p)
    ensures CanonicalEmbedding(p, raw, values)
  {
    MessageModulusBounds(p);
    values := [];
    for j := 0 to |raw|
      invariant |values| == j
      invariant forall k :: 0 <= k < j ==> values[k] == ReduceMod(raw[k], p.MessageModulus())
    {
      ReduceModIsResidue(raw[j], p.MessageModulus());
      values := values + [ReduceMod(raw[j], p.MessageModulus())];
    }
  }

  /** Ring `ring`'s residues of the embedding. */
  method RingComponents(p: Params, ghost raw: seq<int>, values: seq<int64>, ring: nat) returns (query: seq<int>)
    requires Ready(p) && CanonicalEmbedding(p, raw, values) && ring < p.numComponentRings
    ensures RingQuery(p, raw, query, RingModulus(p, ring))
  {
    if p.numComponentRings == 2 {
      FactorBound(p.compRingModulus);
    }
    query := [];
    for j := 0 to |values|
      invariant |query| == j
      invariant forall k :: 0 <= k < j ==> Congruent(query[k], raw[k], RingModulus(p, ring))
    {
      ComponentResidue(p, raw[j], values[j], ring);
      query := query + [Component(p.numComponentRings, p.compRingModulus, values[j], ring)];
    }
  }

  method BuildSelector(clusters: nat, desired: int) returns (bits: seq<int>)
    ensures bits == SelectorBits(clusters, desired)
  {
    bits := [];
    for c := 0 to clusters
      invariant bits == SelectorBits(c, desired)
    {
      bits := bits + [if c == desired then 1 else 0];
    }
  }

  /** The per-ring view of the stored database. */
  method RingDatabase(p: Params, ghost db: Database, stored: StoredForm, ring: nat)
    returns (out: seq<seq<seq<seq<int>>>>)
    requires p.q > 0 && StoredDatabase(p, db, stored) && ring < p.numComponentRings
    ensures |out| == |db| && forall c :: 0 <= c < |db| ==> |out[c]| == |db[c]|
    ensures forall c, s :: 0 <= c < |db| && 0 <= s < |db[c]| ==> StoredSplit(p, db[c][s], out[c][s])
  {
    hide StoredSplit;
    out := [];
    for c := 0 to |stored|
      invariant |out| == c && forall b :: 0 <= b < c ==> |out[b]| == |db[b]|
      invariant forall b, s :: 0 <= b < c && 0 <= s < |db[b]| ==> StoredSplit(p, db[b][s], out[b][s])
    {
      var row: seq<seq<seq<int>>> := [];
      for s := 0 to |stored[c]|
        invariant |row| == s
        invariant forall t :: 0 <= t < s ==> StoredSplit(p, db[c][t], row[t])
      {
        row := row + [stored[c][s][ring]];
      }
      out := out + [row];
    }
  }

  /** Slot (s, i) of every ring's result. */
  ghost predicate RingHolds(p: Params, db: Database, raw: seq<int>, desired: int, ring: nat, result: seq<Ct>)
    requires Ready(p) && DatabaseShape(p, db) && |raw| == p.embeddingLength && ring < p.numComponentRings
  {
    && |result| == p.splitsPerCluster
    && (forall s :: 0 <= s < |result| ==> |result[s]| == p.n)
    && (forall s, i :: 0 <= s < |result| && 0 <= i < p.n ==>
          && 0 <= result[s][i] < RingModulus(p, ring)
          && Congruent(result[s][i], Expected(p, db, raw, desired, s, i), RingModulus(p, ring)))
  }

  /** The server's work for one ring, under any interleaving of its parallel loop. */
  method ProcessRing(p: Params, ghost db: Database, stored: StoredForm, ghost raw: seq<int>,
                     query: seq<int>, bits: seq<int>, ghost desired: int, ring: nat, turns: seq<nat>)
    returns (result: seq<Ct>)
    requires Ready(p) && DatabaseShape(p, db) && DatabaseInRange(p, db) && StoredDatabase(p, db, stored)
    requires ring < p.numComponentRings
    requires |raw| == p.embeddingLength && RingQuery(p, raw, query, RingModulus(p, ring))
    requires bits == SelectorBits(|db|, desired)
    requires IsInterleaving(turns, |db| * p.splitsPerCluster)
    ensures RingHolds(p, db, raw, desired, ring, result)
  {
    hide IsInterleaving, StoredDatabase, DatabaseInRange, RingJob.Result, Expected;
    var modulus :=
      ComponentRingModulus(p.numComponentRings, p.plaintextModulus, p.compRingModulus, ring).value;
    var ringDb := RingDatabase(p, db, stored, ring);
    var job := RingJob(p.n, p.q, modulus, query, bits, ringDb, p.splitsPerCluster);
    JobIsValid(p, db, raw, desired, modulus, job);
    var scored := ScoreRing(job, turns);
    result := scored[..];
    forall s | 0 <= s < p.splitsPerCluster
      ensures |job.Result(s)| == p.n
    {
      ResultDimension(job, s);
    }
    forall s, i | 0 <= s < p.splitsPerCluster && 0 <= i < p.n
      ensures 0 <= result[s][i] < modulus
      ensures Congruent(result[s][i], Expected(p, db, raw, desired, s, i), modulus)
    {
      RingResult(p, db, raw, desired, modulus, job, s, i);
    }
  }

  lemma ResultDimension(job: RingJob, s: nat)
    requires job.Valid() && s < job.splits
    ensures |job.Result(s)| == job.n
  {
  }

  /** What the client makes of a value whose residues it holds. */
  function Decoding(p: Params, x: int): int
    requires p.MessageModulus() > 0
  {
    CenteredResidue(ReduceMod(x, p.MessageModulus()), p.MessageModulus())
  }

  /** The client's decoding of one slot: recompose the rings' residues and centre. */
  method DecodeSlot(p: Params, ghost db: Database, ghost raw: seq<int>, ghost desired: int, results: seq<seq<Ct>>,
                    s: nat, i: nat)
    returns (score: int)
    requires Ready(p) && DatabaseShape(p, db) && |raw| == p.embeddingLength
    requires |results| == p.numComponentRings
    requires forall k :: 0 <= k < |results| ==> RingHolds(p, db, raw, desired, k, results[k])
    requires s < p.splitsPerCluster && i < p.n
    ensures score == Decoding(p, Expected(p, db, raw, desired, s, i))
    ensures DatabaseInRange(p, db) && InRange(raw, p.embeddingPrecision) ==>
              score == Expected(p, db, raw, desired, s, i)
  {
    hide Expected, DatabaseInRange, DatabaseShape, RingModulus, ReduceMod;
    ghost var x := Expected(p, db, raw, desired, s, i);
    assert RingHolds(p, db, raw, desired, 0, results[0]);
    var recomposed := results[0][s][i];
    if p.numComponentRings == 2 {
      assert RingHolds(p, db, raw, desired, 1, results[1]);
      Recomposed(p, x, [results[0][s][i], results[1][s][i]]);
      recomposed := Recompose(results[0][s][i], results[1][s][i], p.compRingModulus);
    } else {
      Recomposed(p, x, [results[0][s][i]]);
    }
    MessageModulusBounds(p);
    if DatabaseInRange(p, db) && InRange(raw, p.embeddingPrecision) {
      ExpectedSurvives(p, db, raw, desired, s, i);
    }
    score := CenteredResidue(recomposed, p.MessageModulus());
  }

  /** Every split and slot holds the desired cluster's signed dot product, as far as it survives
      decoding. */
  ghost predicate DecodedAs(p: Params, db: Database, raw: seq<int>, desired: int, decoded: seq<seq<int>>)
    requires DatabaseShape(p, db) && |raw| == p.embeddingLength && p.MessageModulus() > 0
  {
    && |decoded| == p.splitsPerCluster
    && (forall s :: 0 <= s < |decoded| ==> |decoded[s]| == p.n)
    && (forall s, i :: 0 <= s < |decoded| && 0 <= i < p.n ==>
          decoded[s][i] == Decoding(p, Expected(p, db, raw, desired, s, i)))
  }

  /** Every split and slot holds the desired cluster's signed dot product. */
  ghost predicate DecodedExactly(p: Params, db: Database, raw: seq<int>, desired: int, decoded: seq<seq<int>>)
    requires DatabaseShape(p, db) && |raw| == p.embeddingLength
  {
    && |decoded| == p.splitsPerCluster
    && (forall s :: 0 <= s < |decoded| ==> |decoded[s]| == p.n)
    && (forall s, i :: 0 <= s < |decoded| && 0 <= i < p.n ==> decoded[s][i] == Expected(p, db, raw, desired, s, i))
  }

  lemma InRangeIsExact(p: Params, db: Database, raw: seq<int>, desired: int, decoded: seq<seq<int>>)
    requires Ready(p) && DatabaseShape(p, db) && DatabaseInRange(p, db)
    requires |raw| == p.embeddingLength && InRange(raw, p.embeddingPrecision)
    requires DecodedAs(p, db, raw, desired, decoded)
    ensures DecodedExactly(p, db, raw, desired, decoded)
  {
    hide Expected, DatabaseInRange, DatabaseShape, InRange, ReduceMod, CenteredResidue;
    forall s, i | 0 <= s < |decoded| && 0 <= i < p.n
      ensures decoded[s][i] == Expected(p, db, raw, desired, s, i)
    {
      ExpectedSurvives(p, db, raw, desired, s, i);
    }
  }

  /** The client's decoding of a whole response, split by split and slot by slot. */
  method DecodeResponse(p: Params, ghost db: Database, ghost raw: seq<int>, ghost desired: int,
                        results: seq<seq<Ct>>)
    returns (decoded: seq<seq<int>>)
    requires Ready(p) && DatabaseShape(p, db) && |raw| == p.embeddingLength
    requires |results| == p.numComponentRings
    requires forall k :: 0 <= k < |results| ==> RingHolds(p, db, raw, desired, k, results[k])
    ensures DecodedAs(p, db, raw, desired, decoded)
    ensures DatabaseInRange(p, db) && InRange(raw, p.embeddingPrecision) ==>
              DecodedExactly(p, db, raw, desired, decoded)
  {
    hide DatabaseInRange, Expected, RingHolds, InRange, Decoding, DecodedExactly;
    decoded := [];
    for s := 0 to p.splitsPerCluster
      invariant |decoded| == s
      invariant forall t :: 0 <= t < s ==> |decoded[t]| == p.n
      invariant forall t, i :: 0 <= t < s && 0 <= i < p.n ==>
                  decoded[t][i] == Decoding(p, Expected(p, db, raw, desired, t, i))
    {
      var row: seq<int> := [];
      for i := 0 to p.n
        invariant |row| == i
        invariant forall k :: 0 <= k < i ==> row[k] == Decoding(p, Expected(p, db, raw, desired, s, k))
      {
        var score := DecodeSlot(p, db, raw, desired, results, s, i);
        row := row + [score];
      }
      decoded := decoded + [row];
    }
    if DatabaseInRange(p, db) && InRange(raw, p.embeddingPrecision) {
      InRangeIsExact(p, db, raw, desired, decoded);
    }
  }

  /** End to end: whatever the interleaving of each ring's parallel loop, the decoded result
      is, for every split and slot, the exact signed dot product of the query with the
      desired cluster, and nothing of any other cluster. */
  method RunOneQuery(p: Params, ghost db: Database, stored: StoredForm, raw: seq<int>,
                     desired: int, turns: seq<seq<nat>>)
    returns (decoded: seq<seq<int>>)
    requires Ready(p) && DatabaseShape(p, db) && DatabaseInRange(p, db) && StoredDatabase(p, db, stored)
    requires |raw| == p.embeddingLength && InRange(raw, p.embeddingPrecision)
    requires |turns| == p.numComponentRings
    requires forall k :: 0 <= k < |turns| ==> IsInterleaving(turns[k], |db| * p.splitsPerCluster)
    ensures DecodedExactly(p, db, raw, desired, decoded)
  {
    hide IsInterleaving, StoredDatabase, DatabaseInRange, CanonicalEmbedding, Expected, RingHolds, InRange;
    var values := CanonicalizeEmbedding(p, raw);
    var bits := BuildSelector(p.numClusters, desired);
    var results: seq<seq<Ct>> := [];
    for ring := 0 to p.numComponentRings
      invariant |results| == ring
      invariant forall k :: 0 <= k < ring ==> RingHolds(p, db, raw, desired, k, results[k])
    {
      var query := RingComponents(p, raw, values, ring);
      var result := ProcessRing(p, db, stored, raw, query, bits, desired, ring, turns[ring]);
      results := results + [result];
    }
    decoded := DecodeResponse(p, db, raw, desired, results);
  }
}
