/** The query's way from client to server: what the server rebuilds is what the client
    encrypted. */
module QueryReplayTheorems {
  import opened MachineInts
  import opened Codecs
  import opened Messages
  import opened Ragged
  import Schedules
  import SeededDistribution
  import opened SeededQueries
  import opened SeededQueryReplay
  import StreamCodecs
  import opened StreamPacking
  import StreamTheorems

  ghost predicate SameCt(x: LweCt, y: LweCt, q: int)
    requires q > 0
  {
    x.a == y.a && Congruent(x.b, y.b, q)
  }

  /** Every rebuilt ciphertext has the client's mask, and the client's b up to multiples
      of q. */
  ghost predicate Rebuilt(plan: QueryPlan, r: ReconstructedQuery)
    requires plan.Valid()
  {
    && |r.embeddingCts| == plan.ctx.rings && |r.selectorCts| == plan.ctx.numClusters
    && (forall k :: 0 <= k < plan.ctx.rings ==> |r.embeddingCts[k]| == |plan.values|)
    && (forall k, j :: 0 <= k < plan.ctx.rings && 0 <= j < |plan.values| ==>
          SameCt(r.embeddingCts[k][j], plan.EmbeddingCt(k, j), plan.ctx.modulus))
    && (forall c :: 0 <= c < plan.ctx.numClusters ==> |r.selectorCts[c]| == plan.ctx.digits)
    && (forall c, d :: 0 <= c < plan.ctx.numClusters && 0 <= d < plan.ctx.digits ==>
          SameCt(r.selectorCts[c][d], plan.SelectorCt(c, d), plan.ctx.modulus))
  }

  /** Every rebuilt ciphertext is the client's, b included. */
  ghost predicate RebuiltExactly(plan: QueryPlan, r: ReconstructedQuery)
    requires plan.Valid()
  {
    && Rebuilt(plan, r)
    && (forall k, j :: 0 <= k < plan.ctx.rings && 0 <= j < |plan.values| ==>
          r.embeddingCts[k][j] == plan.EmbeddingCt(k, j))
    && (forall c, d :: 0 <= c < plan.ctx.numClusters && 0 <= d < plan.ctx.digits ==>
          r.selectorCts[c][d] == plan.SelectorCt(c, d))
  }

  ghost predicate RowsCongruent(xs: seq<seq<int>>, ys: seq<seq<int>>, q: int)
    requires q > 0
  {
    && |xs| == |ys|
    && forall i :: 0 <= i < |xs| ==> RowCongruent(xs[i], ys[i], q)
  }

  ghost predicate RowCongruent(xs: seq<int>, ys: seq<int>, q: int)
    requires q > 0
  {
    |xs| == |ys| && forall j :: 0 <= j < |xs| ==> Congruent(xs[j], ys[j], q)
  }

  lemma EmbeddingReplayed(plan: QueryPlan, wire: SeededQuery, got: SeededQuery, r: ReconstructedQuery, k: nat, j: nat)
    requires plan.Valid() && plan.Describes(wire)
    requires got.seeds == wire.seeds && RowsCongruent(got.embeddingB, wire.embeddingB, plan.ctx.modulus)
    requires Replays(plan.ctx, plan.dim, got, r)
    requires k < plan.ctx.rings && j < |plan.values|
    ensures |r.embeddingCts[k]| == |plan.values|
    ensures r.embeddingCts[k][j].a == plan.EmbeddingCt(k, j).a
    ensures r.embeddingCts[k][j].b == got.embeddingB[k][j]
    ensures Congruent(got.embeddingB[k][j], plan.EmbeddingCt(k, j).b, plan.ctx.modulus)
    ensures wire.embeddingB[k][j] == plan.EmbeddingCt(k, j).b
  {
    assert RowReplays(plan.ctx, got.seeds[k], plan.dim, 0, got.embeddingB[k], r.embeddingCts[k]);
    assert RowCongruent(got.embeddingB[k], wire.embeddingB[k], plan.ctx.modulus);
    assert wire.embeddingB[k] == plan.EmbeddingRow(k, |plan.values|);
  }

  lemma SelectorReplayed(plan: QueryPlan, wire: SeededQuery, got: SeededQuery, r: ReconstructedQuery, c: nat, d: nat)
    requires plan.Valid() && plan.Describes(wire)
    requires got.seeds == wire.seeds && RowsCongruent(got.embeddingB, wire.embeddingB, plan.ctx.modulus)
    requires RowsCongruent(got.selectorB, wire.selectorB, plan.ctx.modulus)
    requires Replays(plan.ctx, plan.dim, got, r)
    requires c < plan.ctx.numClusters && d < plan.ctx.digits
    ensures |r.selectorCts| == plan.ctx.numClusters && |r.selectorCts[c]| == plan.ctx.digits
    ensures r.selectorCts[c][d].a == plan.SelectorCt(c, d).a
    ensures r.selectorCts[c][d].b == got.selectorB[c][d]
    ensures Congruent(got.selectorB[c][d], plan.SelectorCt(c, d).b, plan.ctx.modulus)
    ensures wire.selectorB[c][d] == plan.SelectorCt(c, d).b
  {
    hide SeededDistribution.DrawSlice, Drawn, SeededDistribution.Productive, Congruent, RowReplays, RowStart;
    forall i | 0 <= i < |got.selectorB|
      ensures |got.selectorB[i]| == plan.ctx.digits
    {
      assert RowCongruent(got.selectorB[i], wire.selectorB[i], plan.ctx.modulus);
    }
    UniformRowStart(got.selectorB, plan.ctx.digits, c);
    assert RowCongruent(got.embeddingB[0], wire.embeddingB[0], plan.ctx.modulus);
    var start := |got.embeddingB[0]| + RowStart(got.selectorB, c);
    assert start == |plan.values| + c * plan.ctx.digits;
    ReplayedCt(plan.ctx, got.seeds[0], plan.dim, start, got.selectorB[c], r.selectorCts[c]);
    assert RowCongruent(got.selectorB[c], wire.selectorB[c], plan.ctx.modulus);
    assert wire.selectorB[c] == plan.SelectorRow(c, plan.ctx.digits);
  }

  /** The server may have received other representatives of the b-values: the masks still
      come out as drawn, for every ring and for the selector behind ring 0. */
  lemma ReplayMatches(plan: QueryPlan, wire: SeededQuery, got: SeededQuery, r: ReconstructedQuery)
    requires plan.Valid() && plan.Describes(wire)
    requires got.seeds == wire.seeds && RowsCongruent(got.embeddingB, wire.embeddingB, plan.ctx.modulus)
    requires RowsCongruent(got.selectorB, wire.selectorB, plan.ctx.modulus)
    requires Replays(plan.ctx, plan.dim, got, r)
    ensures Rebuilt(plan, r)
    ensures got == wire ==> RebuiltExactly(plan, r)
  {
    hide QueryPlan.EmbeddingCt, QueryPlan.SelectorCt, RowReplays, RowCongruent, Congruent;
    forall k, j | 0 <= k < plan.ctx.rings && 0 <= j < |plan.values|
      ensures |r.embeddingCts[k]| == |plan.values|
      ensures SameCt(r.embeddingCts[k][j], plan.EmbeddingCt(k, j), plan.ctx.modulus)
      ensures got == wire ==> r.embeddingCts[k][j] == plan.EmbeddingCt(k, j)
    {
      EmbeddingReplayed(plan, wire, got, r, k, j);
    }
    forall c, d | 0 <= c < plan.ctx.numClusters && 0 <= d < plan.ctx.digits
      ensures |r.selectorCts[c]| == plan.ctx.digits
      ensures SameCt(r.selectorCts[c][d], plan.SelectorCt(c, d), plan.ctx.modulus)
      ensures got == wire ==> r.selectorCts[c][d] == plan.SelectorCt(c, d)
    {
      SelectorReplayed(plan, wire, got, r, c, d);
    }
    RowLengths(plan, wire, got, r);
  }

  lemma RowLengths(plan: QueryPlan, wire: SeededQuery, got: SeededQuery, r: ReconstructedQuery)
    requires plan.Valid() && plan.Describes(wire)
    requires got.seeds == wire.seeds && RowsCongruent(got.embeddingB, wire.embeddingB, plan.ctx.modulus)
    requires RowsCongruent(got.selectorB, wire.selectorB, plan.ctx.modulus)
    requires Replays(plan.ctx, plan.dim, got, r)
    ensures forall k :: 0 <= k < plan.ctx.rings ==> |r.embeddingCts[k]| == |plan.values|
    ensures |r.selectorCts| == plan.ctx.numClusters
    ensures forall c :: 0 <= c < plan.ctx.numClusters ==> |r.selectorCts[c]| == plan.ctx.digits
  {
    hide SeededDistribution.DrawSlice, Drawn, SeededDistribution.Productive, Congruent, RowReplays, RowStart;
    forall k | 0 <= k < plan.ctx.rings
      ensures |r.embeddingCts[k]| == |plan.values|
    {
      ReplayedCt(plan.ctx, got.seeds[k], plan.dim, 0, got.embeddingB[k], r.embeddingCts[k]);
      assert RowCongruent(got.embeddingB[k], wire.embeddingB[k], plan.ctx.modulus);
    }
    forall c | 0 <= c < plan.ctx.numClusters
      ensures |r.selectorCts[c]| == plan.ctx.digits
    {
      var start := |got.embeddingB[0]| + RowStart(got.selectorB, c);
      ReplayedCt(plan.ctx, got.seeds[0], plan.dim, start, got.selectorB[c], r.selectorCts[c]);
      assert RowCongruent(got.selectorB[c], wire.selectorB[c], plan.ctx.modulus);
    }
  }

  // ---- Through the packed streams ----------------------------------------------------------

  /** The stream shape belongs to the same parameters as the query context. */
  ghost predicate SameParameters(w: StreamCodecs.WireShape, ctx: QueryContext, embeddingLength: nat) {
    && w.Valid() && w.q == ctx.modulus && w.numComponentRings == ctx.rings
    && w.embeddingLength == embeddingLength
    && w.numClusters == ctx.numClusters && w.primeDigits == ctx.digits
  }

  lemma DescribedHasShape(w: StreamCodecs.WireShape, plan: QueryPlan, wire: SeededQuery)
    requires plan.Valid() && plan.Describes(wire) && SameParameters(w, plan.ctx, |plan.values|)
    requires forall k :: 0 <= k < |plan.seeds| ==> |plan.seeds[k]| == SEED_BYTES
    ensures QueryHasShape(w, wire)
  {
    assert RowsHaveShape(wire.selectorB, w.numClusters, w.primeDigits);
    forall k | 0 <= k < w.numComponentRings
      ensures RingHasShape(w, wire, k)
    {
      assert wire.embeddingB[k] == plan.EmbeddingRow(k, |plan.values|);
    }
  }

  lemma CanonicalRowsCongruent(rows: seq<seq<int>>, q: int)
    requires q > 0
    ensures RowsCongruent(CanonicalRows(rows, q), rows, q)
  {
    hide Canonical;
    forall i | 0 <= i < |rows|
      ensures RowCongruent(CanonicalRows(rows, q)[i], rows[i], q)
    {
      var row := CanonicalRow(rows[i], q);
      assert forall j :: 0 <= j < |row| ==> row[j] == Canonical(rows[i][j], q);
    }
  }

  /** The steps of the server's rings for a query of `cts` embedding values. */
  ghost function QuerySteps(rings: nat, cts: nat, dim: nat): seq<nat> {
    seq(rings, _ => CiphertextSteps(cts, dim))
  }

  lemma ReceivedSteps(plan: QueryPlan, wire: SeededQuery, rows: seq<seq<int>>)
    requires plan.Valid() && plan.Describes(wire) && RowsCongruent(rows, wire.embeddingB, plan.ctx.modulus)
    ensures RingSteps(rows, plan.dim) == QuerySteps(plan.ctx.rings, |plan.values|, plan.dim)
  {
    hide CiphertextSteps;
    forall k | 0 <= k < |rows|
      ensures |rows[k]| == |plan.values|
    {
      assert RowCongruent(rows[k], wire.embeddingB[k], plan.ctx.modulus);
    }
  }

  /** A query's whole way: encrypt and compress, pack one stream per ring, unpack, rebuild.
      The server holds the ciphertexts the client encrypted, with b modulo q, and the
      client's key has its own distribution back. */
  method SendQuery(ctx: QueryContext, gadget: LweGadgetKey, w: StreamCodecs.WireShape, freshSeeds: seq<seq<byte>>,
                   embeddingValues: seq<int64>, desired: int, turns: seq<nat>)
    returns (r: Option<ReconstructedQuery>)
    requires ctx.Valid() && |freshSeeds| == ctx.rings == |ctx.encodings|
    requires forall k :: 0 <= k < |freshSeeds| ==> |freshSeeds[k]| == SEED_BYTES
    requires SameParameters(w, ctx, |embeddingValues|)
    requires Schedules.Interleaves(turns, QuerySteps(ctx.rings, |embeddingValues|, gadget.sk.dim))
    modifies gadget.sk`dist, gadget.sk`encryptions
    ensures gadget.sk.dist == old(gadget.sk.dist)
    ensures r.Some?
    ensures var plan := QueryPlan(ctx, gadget.sk.dim, gadget.sk.encryptor, freshSeeds, embeddingValues, desired,
                                  old(gadget.sk.encryptions));
            Rebuilt(plan, r.value)
  {
    hide PackedQuery, UnpackedQuery, QueryHasShape, Replays, Rebuilt, RebuiltExactly;
    ghost var plan := QueryPlan(ctx, gadget.sk.dim, gadget.sk.encryptor, freshSeeds, embeddingValues, desired,
                                gadget.sk.encryptions);
    var wire := BuildSeededQuery(ctx, gadget, freshSeeds, embeddingValues, desired);
    DescribedHasShape(w, plan, wire.value);
    var streams := PackQuery(w, wire.value);
    StreamTheorems.QueryRoundTrip(w, wire.value);
    var received := UnpackQuery(w, streams.value);
    CanonicalRowsCongruent(wire.value.embeddingB, w.q);
    CanonicalRowsCongruent(wire.value.selectorB, w.q);
    ReceivedSteps(plan, wire.value, received.value.embeddingB);
    r := ReconstructQuery(ctx, gadget.sk.dim, received.value, turns);
    ReplayMatches(plan, wire.value, received.value, r.value);
  }
}
