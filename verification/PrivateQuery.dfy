/** One private query with everything that crosses the network (run_one_query of
    benchmarks/benchmark_latency_seeded_parallel.cpp): seeded encryption, packed streams both
    ways, replay on the server, scoring, and decoding. */
module PrivateQuery {
  import opened MachineInts
  import Crt
  import opened DbPolynomial
  import opened Messages
  import opened Parameters
  import Schedules
  import SeededDistribution
  import opened SeededQueries
  import SeededQueryReplay
  import opened QueryReplayTheorems
  import opened StreamCodecs
  import opened StreamPacking
  import StreamTheorems
  import opened Scoring
  import ParallelScoring
  import opened EndToEnd
  import opened QueryModulus

  // ---- The encryption scheme, as what decrypting recovers ------------------------------------

  /** `value` and `bit` are what a query ciphertext of a ring and the digits of a selector
      hold; `seal` is the ciphertext a ring's evaluation ends in for a split, and `open` its
      decryption by the client. */
  datatype Scheme = Scheme(
    value: (nat, LweCt) -> int,
    bit: seq<LweCt> -> int,
    seal: (nat, nat, Ct) -> RlweCt,
    open: (nat, RlweCt) -> Ct)

  /** Up to multiples of q, `ct` is encryption number `index` of `x` for ring `k`. */
  ghost predicate HoldsValue(ctx: QueryContext, encryptor: Encryptor, k: nat, x: int, ct: LweCt, index: nat)
    requires ctx.Valid() && k < |ctx.encodings|
  {
    Congruent(ct.b, encryptor(ct.a, ctx.encodings[k](x), index), ctx.modulus)
  }

  /** Up to multiples of q, `cts` are the digits of a gadget encryption of `bit`. */
  ghost predicate HoldsBit(ctx: QueryContext, encryptor: Encryptor, bit: int, cts: seq<LweCt>, index: nat)
    requires ctx.Valid()
  {
    && |cts| == ctx.digits
    && forall d :: 0 <= d < ctx.digits ==>
         Congruent(cts[d].b, encryptor(cts[d].a, ctx.digitMessage(bit, d), index + d), ctx.modulus)
  }

  ghost predicate Residues(v: Ct, n: int, modulus: int) {
    |v| == n && forall i :: 0 <= i < |v| ==> 0 <= v[i] < modulus
  }

  ghost predicate SameRlwe(x: RlweCt, y: RlweCt, q: int)
    requires q > 0
  {
    RowCongruent(x.a, y.a, q) && RowCongruent(x.b, y.b, q)
  }

  /** Context and stream shape belong to the parameters. */
  ghost predicate SameSystem(p: Params, ctx: QueryContext, w: WireShape) {
    && Ready(p) && ctx.Valid() && SameParameters(w, ctx, p.embeddingLength)
    && ctx.modulus == p.q && ctx.rings == p.numComponentRings == |ctx.encodings| && ctx.p1 == p.compRingModulus
    && ctx.numClusters == p.numClusters && w.n == p.n && w.splitsPerCluster == p.splitsPerCluster
  }

  /** Noise stays within what decryption tolerates, and only residues modulo q matter. */
  ghost predicate Correct(p: Params, ctx: QueryContext, w: WireShape, encryptor: Encryptor, scheme: Scheme)
    requires SameSystem(p, ctx, w)
  {
    && (forall k: nat, x: int, ct: LweCt, index: nat ::
          k < ctx.rings && 0 <= x < RingModulus(p, k) && HoldsValue(ctx, encryptor, k, x, ct, index) ==>
            scheme.value(k, ct) == x)
    && (forall bit: int, cts: seq<LweCt>, index: nat ::
          0 <= bit <= 1 && HoldsBit(ctx, encryptor, bit, cts, index) ==> scheme.bit(cts) == bit)
    && (forall k: nat, s: nat, v: Ct :: |scheme.seal(k, s, v).a| == |scheme.seal(k, s, v).b| == w.n)
    && (forall k: nat, s: nat, v: Ct, ct: RlweCt ::
          k < ctx.rings && Residues(v, p.n, RingModulus(p, k)) && SameRlwe(ct, scheme.seal(k, s, v), p.q) ==>
            scheme.open(k, ct) == v)
  }

  /** Such schemes exist: encryption without noise is one. */
  lemma NoiselessScheme(p: Params, ctx: QueryContext, w: WireShape) returns (encryptor: Encryptor, scheme: Scheme)
    requires SameSystem(p, ctx, w) && ctx.digits >= 1
    requires forall k: nat :: k < ctx.rings ==> RingModulus(p, k) <= p.q
    requires forall k: nat, x: int :: k < ctx.rings ==> ctx.encodings[k](x) == x
    requires forall bit: int, d: nat :: ctx.digitMessage(bit, d) == bit
    ensures Correct(p, ctx, w, encryptor, scheme)
  {
    var q, n := p.q, w.n;
    encryptor := (a, message, index) => message;
    scheme := Scheme((k: nat, ct: LweCt) => ct.b % q,
                     (cts: seq<LweCt>) => if |cts| == 0 then 0 else cts[0].b % q,
                     (k: nat, s: nat, v: Ct) => RlweCt(Fitted(v, n), Fitted(v, n)),
                     (k: nat, ct: RlweCt) => CanonicalRow(ct.b, q));
    forall k: nat, x: int, ct: LweCt, index: nat
      | k < ctx.rings && 0 <= x < RingModulus(p, k) && HoldsValue(ctx, encryptor, k, x, ct, index)
      ensures scheme.value(k, ct) == x
    {
      QuotientUnique(x, 0, x, q);
    }
    forall bit: int, cts: seq<LweCt>, index: nat | 0 <= bit <= 1 && HoldsBit(ctx, encryptor, bit, cts, index)
      ensures scheme.bit(cts) == bit
    {
      assert Congruent(cts[0].b, ctx.digitMessage(bit, 0), q);
      QuotientUnique(bit, 0, bit, q);
    }
    forall k: nat, s: nat, v: Ct, ct: RlweCt
      | k < ctx.rings && Residues(v, p.n, RingModulus(p, k)) && SameRlwe(ct, scheme.seal(k, s, v), q)
      ensures scheme.open(k, ct) == v
    {
      forall i | 0 <= i < |v|
        ensures scheme.open(k, ct)[i] == v[i]
      {
        CanonicalResidue(ct.b[i], v[i], q);
      }
    }
  }

  function Fitted(v: Ct, n: nat): (row: Ct)
    ensures |row| == n
  {
    seq(n, i requires 0 <= i < n => if i < |v| then v[i] else 0)
  }

  lemma CanonicalResidue(b: int, v: int, q: int)
    requires q > 0 && 0 <= v < q && Congruent(b, v, q)
    ensures Canonical(b, q) == v
  {
    QuotientUnique(v, 0, v, q);
    QuotientUnique(Canonical(b, q), 0, Canonical(b, q), q);
  }

  // ---- The query as the server holds it --------------------------------------------------------

  lemma ComponentRange(p: Params, raw: int, v: int64, ring: nat)
    requires Ready(p) && ring < p.numComponentRings
    requires v == ReduceMod(raw, p.MessageModulus())
    ensures p.numComponentRings == 2 ==> p.compRingModulus <= INT64_MAX
    ensures 0 <= Crt.Component(p.numComponentRings, p.compRingModulus, v, ring) < RingModulus(p, ring)
  {
    ReduceModIsResidue(raw, p.MessageModulus());
    if p.numComponentRings == 2 {
      FactorBound(p.compRingModulus);
    }
  }

  /** Every rebuilt embedding ciphertext holds its ring's component of its raw value. */
  lemma RebuiltValue(p: Params, ctx: QueryContext, w: WireShape, scheme: Scheme, plan: QueryPlan, raw: seq<int>,
                     r: SeededQueryReplay.ReconstructedQuery, k: nat, j: nat)
    requires SameSystem(p, ctx, w) && plan.Valid() && plan.ctx == ctx && Correct(p, ctx, w, plan.encryptor, scheme)
    requires CanonicalEmbedding(p, raw, plan.values) && Rebuilt(plan, r)
    requires k < ctx.rings && j < |raw|
    ensures Congruent(scheme.value(k, r.embeddingCts[k][j]), raw[j], RingModulus(p, k))
  {
    hide SeededDistribution.DrawSlice, Drawn, Crt.Component, SeededDistribution.Productive;
    var ct, x := r.embeddingCts[k][j], Crt.Component(ctx.rings, ctx.p1, plan.values[j], k);
    ComponentRange(p, raw[j], plan.values[j], k);
    ComponentResidue(p, raw[j], plan.values[j], k);
    assert SameCt(ct, plan.EmbeddingCt(k, j), ctx.modulus);
    assert HoldsValue(ctx, plan.encryptor, k, x, ct, plan.first + j * ctx.rings + k);
  }

  /** Every rebuilt selector holds its cluster's bit. */
  lemma RebuiltBit(p: Params, ctx: QueryContext, w: WireShape, scheme: Scheme, plan: QueryPlan,
                   r: SeededQueryReplay.ReconstructedQuery, c: nat)
    requires SameSystem(p, ctx, w) && plan.Valid() && plan.ctx == ctx && Correct(p, ctx, w, plan.encryptor, scheme)
    requires Rebuilt(plan, r) && c < ctx.numClusters
    ensures scheme.bit(r.selectorCts[c]) == plan.SelectorBit(c)
  {
    hide SeededDistribution.DrawSlice, Drawn, SeededDistribution.Productive;
    var cts, bit := r.selectorCts[c], plan.SelectorBit(c);
    var index := plan.first + |plan.values| * ctx.rings + c * ctx.digits;
    forall d | 0 <= d < ctx.digits
      ensures Congruent(cts[d].b, plan.encryptor(cts[d].a, ctx.digitMessage(bit, d), index + d), ctx.modulus)
    {
      assert SameCt(cts[d], plan.SelectorCt(c, d), ctx.modulus);
    }
    assert HoldsBit(ctx, plan.encryptor, bit, cts, index);
  }

  // ---- The response's way back -------------------------------------------------------------------

  lemma CanonicalCtSame(w: WireShape, ct: RlweCt)
    requires w.Valid()
    ensures SameRlwe(RlweCt(CanonicalCt(w, ct).0, CanonicalCt(w, ct).1), ct, w.q)
  {
    hide Canonical;
  }

  /** The ciphertexts of one ring: packed, sent, unpacked and decrypted. */
  method ReturnResponse(p: Params, ctx: QueryContext, w: WireShape, ghost encryptor: Encryptor, scheme: Scheme,
                        ring: nat, result: seq<Ct>)
    returns (received: seq<Ct>)
    requires SameSystem(p, ctx, w) && Correct(p, ctx, w, encryptor, scheme) && ring < ctx.rings
    requires |result| == p.splitsPerCluster
    requires forall s :: 0 <= s < |result| ==> Residues(result[s], p.n, RingModulus(p, ring))
    ensures received == result
  {
    hide PackedResponse, UnpackedResponse, Residues, SameRlwe, Ready;
    var cts := seq(|result|, s requires 0 <= s < |result| => scheme.seal(ring, s, result[s]));
    var stream := PackResponseRing(w, cts);
    StreamTheorems.ResponseRoundTrip(w, cts);
    var back := UnpackResponseRing(w, stream.value);
    forall s | 0 <= s < |result|
      ensures scheme.open(ring, back.value[s]) == result[s]
    {
      CanonicalCtSame(w, cts[s]);
      assert SameRlwe(back.value[s], scheme.seal(ring, s, result[s]), p.q);
    }
    received := seq(|back.value|, s requires 0 <= s < |back.value| => scheme.open(ring, back.value[s]));
  }

  /** What the server's ring `ring` holds of the rebuilt query. */
  method HeldValues(p: Params, ctx: QueryContext, w: WireShape, scheme: Scheme, ghost plan: QueryPlan,
                    ghost raw: seq<int>, r: SeededQueryReplay.ReconstructedQuery, ring: nat)
    returns (query: seq<int>)
    requires SameSystem(p, ctx, w) && plan.Valid() && plan.ctx == ctx && Correct(p, ctx, w, plan.encryptor, scheme)
    requires CanonicalEmbedding(p, raw, plan.values) && Rebuilt(plan, r) && ring < ctx.rings
    ensures RingQuery(p, raw, query, RingModulus(p, ring))
  {
    hide Correct, CanonicalEmbedding;
    assert |raw| == |plan.values| by { CanonicalLength(p, raw, plan.values); }
    query := [];
    for j := 0 to |r.embeddingCts[ring]|
      invariant |query| == j
      invariant forall i :: 0 <= i < j ==> Congruent(query[i], raw[i], RingModulus(p, ring))
    {
      RebuiltValue(p, ctx, w, scheme, plan, raw, r, ring, j);
      query := query + [scheme.value(ring, r.embeddingCts[ring][j])];
    }
  }

  lemma CanonicalLength(p: Params, raw: seq<int>, values: seq<int64>)
    requires Ready(p) && CanonicalEmbedding(p, raw, values)
    ensures |raw| == |values|
  {
  }

  method HeldBits(p: Params, ctx: QueryContext, w: WireShape, scheme: Scheme, ghost plan: QueryPlan,
                  r: SeededQueryReplay.ReconstructedQuery)
    returns (bits: seq<int>)
    requires SameSystem(p, ctx, w) && plan.Valid() && plan.ctx == ctx && Correct(p, ctx, w, plan.encryptor, scheme)
    requires Rebuilt(plan, r)
    ensures bits == SelectorBits(ctx.numClusters, plan.desired)
  {
    hide Correct;
    bits := [];
    for c := 0 to |r.selectorCts|
      invariant bits == SelectorBits(c, plan.desired)
    {
      RebuiltBit(p, ctx, w, scheme, plan, r, c);
      bits := bits + [scheme.bit(r.selectorCts[c])];
    }
  }

  /** The whole query, for embedding values that stand for `raw` modulo the message modulus. For
      one or two component rings, any interleaving of the rings' replay and of every ring's
      scoring loop, and any noise the scheme tolerates, the client decodes the signed dot
      products of `raw` with the desired cluster: exactly, if `raw` is in range. Its key has
      its own distribution back. */
  method AnswerQuery(p: Params, ctx: QueryContext, w: WireShape, scheme: Scheme, gadget: LweGadgetKey,
                     ghost db: Database, stored: StoredForm, ghost raw: seq<int>, values: seq<int64>, desired: int,
                     freshSeeds: seq<seq<byte>>, replay: seq<nat>, turns: seq<seq<nat>>)
    returns (decoded: seq<seq<int>>)
    requires SameSystem(p, ctx, w) && Correct(p, ctx, w, gadget.sk.encryptor, scheme)
    requires DatabaseShape(p, db) && DatabaseInRange(p, db) && StoredDatabase(p, db, stored)
    requires |raw| == p.embeddingLength && CanonicalEmbedding(p, raw, values)
    requires |freshSeeds| == ctx.rings && forall k :: 0 <= k < |freshSeeds| ==> |freshSeeds[k]| == SEED_BYTES
    requires Schedules.Interleaves(replay, QuerySteps(ctx.rings, |raw|, gadget.sk.dim)) && |turns| == ctx.rings
    requires forall k :: 0 <= k < |turns| ==> ParallelScoring.IsInterleaving(turns[k], |db| * p.splitsPerCluster)
    modifies gadget.sk`dist, gadget.sk`encryptions
    ensures gadget.sk.dist == old(gadget.sk.dist)
    ensures DecodedAs(p, db, raw, desired, decoded)
    ensures InRange(raw, p.embeddingPrecision) ==> DecodedExactly(p, db, raw, desired, decoded)
  {
    hide Schedules.Interleaves, QuerySteps, ParallelScoring.IsInterleaving, StoredDatabase, DatabaseInRange, Expected,
      RingHolds, InRange, Correct, Rebuilt, RingQuery, CanonicalEmbedding, DecodedAs, DecodedExactly;
    CanonicalLength(p, raw, values);
    ghost var plan :=
      QueryPlan(ctx, gadget.sk.dim, gadget.sk.encryptor, freshSeeds, values, desired, gadget.sk.encryptions);
    var sent := SendQuery(ctx, gadget, w, freshSeeds, values, desired, replay);
    var bits := HeldBits(p, ctx, w, scheme, plan, sent.value);
    var results: seq<seq<Ct>> := [];
    for ring := 0 to ctx.rings
      invariant gadget.sk.dist == old(gadget.sk.dist)
      invariant |results| == ring
      invariant forall k :: 0 <= k < ring ==> RingHolds(p, db, raw, desired, k, results[k])
    {
      var query := HeldValues(p, ctx, w, scheme, plan, raw, sent.value, ring);
      var result := ProcessRing(p, db, stored, raw, query, bits, desired, ring, turns[ring]);
      HeldResidues(p, db, raw, desired, ring, result);
      var received := ReturnResponse(p, ctx, w, gadget.sk.encryptor, scheme, ring, result);
      results := results + [received];
    }
    decoded := DecodeResponse(p, db, raw, desired, results);
  }

  /** The benchmark's query: `raw` is reduced modulo the plaintext modulus before it is encrypted.
      A slot then decodes to its signed dot product exactly when the plaintext modulus times
      the column's sum over the negative coordinates is a multiple of the message modulus. */
  method AnswerBenchmarkQuery(p: Params, ctx: QueryContext, w: WireShape, scheme: Scheme, gadget: LweGadgetKey,
                              ghost db: Database, stored: StoredForm, raw: seq<int>, desired: int,
                              freshSeeds: seq<seq<byte>>, replay: seq<nat>, turns: seq<seq<nat>>)
    returns (decoded: seq<seq<int>>)
    requires SameSystem(p, ctx, w) && Correct(p, ctx, w, gadget.sk.encryptor, scheme)
    requires DatabaseShape(p, db) && DatabaseInRange(p, db) && StoredDatabase(p, db, stored)
    requires |raw| == p.embeddingLength && InRange(raw, p.embeddingPrecision)
    requires |freshSeeds| == ctx.rings && forall k :: 0 <= k < |freshSeeds| ==> |freshSeeds[k]| == SEED_BYTES
    requires Schedules.Interleaves(replay, QuerySteps(ctx.rings, |raw|, gadget.sk.dim)) && |turns| == ctx.rings
    requires forall k :: 0 <= k < |turns| ==> ParallelScoring.IsInterleaving(turns[k], |db| * p.splitsPerCluster)
    modifies gadget.sk`dist, gadget.sk`encryptions
    ensures gadget.sk.dist == old(gadget.sk.dist)
    ensures DecodedAs(p, db, ReducedQuery(p, raw), desired, decoded)
    ensures |decoded| == p.splitsPerCluster && forall s :: 0 <= s < |decoded| ==> |decoded[s]| == p.n
    ensures forall s, i :: 0 <= s < |decoded| && 0 <= i < p.n ==>
              (decoded[s][i] == Expected(p, db, raw, desired, s, i)
               <==> (p.plaintextModulus * NegativeColumn(p, db, raw, desired, s, i)) % p.MessageModulus() == 0)
  {
    hide *;
    SystemIsReady(p, ctx, w);
    var values := ReduceEmbedding(p, raw);
    decoded := AnswerQuery(p, ctx, w, scheme, gadget, db, stored, ReducedQuery(p, raw), values, desired, freshSeeds,
                           replay, turns);
    BenchmarkSlots(p, db, raw, desired, decoded);
  }

  lemma SystemIsReady(p: Params, ctx: QueryContext, w: WireShape)
    requires SameSystem(p, ctx, w)
    ensures Ready(p)
  {
  }

  /** Embedding values as the benchmark samples them. */
  method ReduceEmbedding(p: Params, raw: seq<int>) returns (values: seq<int64>)
    requires Ready(p)
    ensures p.plaintextModulus > 0 && p.MessageModulus() > 0
    ensures |ReducedQuery(p, raw)| == |raw| && CanonicalEmbedding(p, ReducedQuery(p, raw), values)
  {
    hide ReduceMod;
    MessageModulusBounds(p);
    values := [];
    for j := 0 to |raw|
      invariant |values| == j
      invariant forall k :: 0 <= k < j ==> values[k] == ReduceMod(raw[k], p.plaintextModulus)
      invariant forall k :: 0 <= k < j ==> values[k] == ReduceMod(values[k], p.MessageModulus())
    {
      ReduceModIsResidue(raw[j], p.plaintextModulus);
      var v := ReduceMod(raw[j], p.plaintextModulus);
      ReduceModIsResidue(v, p.MessageModulus());
      QuotientUnique(v, 0, v, p.MessageModulus());
      values := values + [v];
    }
  }

  lemma BenchmarkSlots(p: Params, db: Database, raw: seq<int>, desired: int, decoded: seq<seq<int>>)
    requires Ready(p) && DatabaseShape(p, db) && DatabaseInRange(p, db)
    requires |raw| == p.embeddingLength && InRange(raw, p.embeddingPrecision)
    requires DecodedAs(p, db, ReducedQuery(p, raw), desired, decoded)
    ensures |decoded| == p.splitsPerCluster && forall s :: 0 <= s < |decoded| ==> |decoded[s]| == p.n
    ensures forall s, i :: 0 <= s < |decoded| && 0 <= i < p.n ==>
              (decoded[s][i] == Expected(p, db, raw, desired, s, i)
               <==> (p.plaintextModulus * NegativeColumn(p, db, raw, desired, s, i)) % p.MessageModulus() == 0)
  {
    hide DatabaseInRange, DatabaseShape, Expected, NegativeColumn, InRange, Decoding;
    forall s, i | 0 <= s < |decoded| && 0 <= i < p.n
      ensures decoded[s][i] == Expected(p, db, raw, desired, s, i)
              <==> (p.plaintextModulus * NegativeColumn(p, db, raw, desired, s, i)) % p.MessageModulus() == 0
    {
      QueryModulusMatters(p, db, raw, desired, s, i);
    }
  }

  lemma HeldResidues(p: Params, db: Database, raw: seq<int>, desired: int, ring: nat, result: seq<Ct>)
    requires Ready(p) && DatabaseShape(p, db) && |raw| == p.embeddingLength && ring < p.numComponentRings
    requires RingHolds(p, db, raw, desired, ring, result)
    ensures |result| == p.splitsPerCluster
    ensures forall s :: 0 <= s < |result| ==> Residues(result[s], p.n, RingModulus(p, ring))
  {
  }
}
