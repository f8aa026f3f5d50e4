/** The server's side of the seed-compressed query (src/seeded_query.cpp): rebuilding every
    ciphertext from the seeds and the b-values alone. */
module SeededQueryReplay {
  import opened MachineInts
  import opened Codecs
  import opened Messages
  import opened Ragged
  import opened Schedules
  import opened SeededDistribution
  import opened SeededQueries

  datatype ReconstructedQuery = ReconstructedQuery(
    embeddingCts: seq<seq<LweCt>>,   // [ring][j]
    selectorCts: seq<seq<LweCt>>)    // [cluster][digit]

  /** Ciphertexts with the given b-values, masked by consecutive slices of a keystream. */
  ghost function ReplayedRow(g: Generator, dim: nat, start: nat, bs: seq<int>): (row: seq<LweCt>)
    requires Productive(g)
    ensures |row| == |bs|
    ensures forall j :: 0 <= j < |bs| ==> row[j] == LweCt(bs[j], DrawSlice(g, Drawn(start + j, dim), dim))
  {
    seq(|bs|, j requires 0 <= j < |bs| => LweCt(bs[j], DrawSlice(g, Drawn(start + j, dim), dim)))
  }

  ghost predicate RowReplays(ctx: QueryContext, seed: seq<byte>, dim: nat, start: nat, bs: seq<int>, cts: seq<LweCt>)
    requires ctx.Valid()
  {
    assert Productive(ctx.RingGen(seed));
    cts == ReplayedRow(ctx.RingGen(seed), dim, start, bs)
  }

  /** A replayed row has a ciphertext for every b, and ciphertext `j` is masked by slice
      `start + j`. */
  lemma ReplayedCt(ctx: QueryContext, seed: seq<byte>, dim: nat, start: nat, bs: seq<int>, cts: seq<LweCt>)
    requires ctx.Valid() && RowReplays(ctx, seed, dim, start, bs, cts)
    ensures Productive(ctx.RingGen(seed)) && |cts| == |bs|
    ensures forall j :: 0 <= j < |bs| ==>
              cts[j] == LweCt(bs[j], DrawSlice(ctx.RingGen(seed), Drawn(start + j, dim), dim))
  {
    assert Productive(ctx.RingGen(seed));
  }

  /** Ring k's ciphertext j, spelled out: its mask is draws j * dim, ..., j * dim + dim - 1 of seed
      k's stream. */
  lemma EmbeddingReplaySpelledOut(ctx: QueryContext, dim: nat, wire: SeededQuery, r: ReconstructedQuery, k: nat, j: nat)
    requires ctx.Valid() && Replays(ctx, dim, wire, r) && k < ctx.rings && j < |wire.embeddingB[k]|
    ensures |r.embeddingCts| == ctx.rings && |r.embeddingCts[k]| == |wire.embeddingB[k]|
    ensures IsCiphertext(ctx, wire.seeds[k], dim, j * dim, wire.embeddingB[k][j], r.embeddingCts[k][j])
  {
    hide RowReplays, IsCiphertext;
    RowSpelledOut(ctx, wire.seeds[k], dim, 0, wire.embeddingB[k], r.embeddingCts[k], j);
  }

  /** Digit d of cluster c: its mask is the draws of seed 0's stream behind ring 0's embedding and
      all digits before it. */
  lemma SelectorReplaySpelledOut(ctx: QueryContext, dim: nat, wire: SeededQuery, r: ReconstructedQuery, c: nat, d: nat)
    requires ctx.Valid() && Replays(ctx, dim, wire, r) && c < |wire.selectorB| && d < |wire.selectorB[c]|
    ensures |r.selectorCts| == |wire.selectorB| && |r.selectorCts[c]| == |wire.selectorB[c]|
    ensures IsCiphertext(ctx, wire.seeds[0], dim, (|wire.embeddingB[0]| + RowStart(wire.selectorB, c) + d) * dim,
                         wire.selectorB[c][d], r.selectorCts[c][d])
  {
    hide RowReplays, IsCiphertext, RowStart;
    RowSpelledOut(ctx, wire.seeds[0], dim, |wire.embeddingB[0]| + RowStart(wire.selectorB, c), wire.selectorB[c],
                  r.selectorCts[c], d);
  }

  /** The given b, masked by the `dim` draws on [0, q] from draw `at` on. */
  ghost predicate IsCiphertext(ctx: QueryContext, seed: seq<byte>, dim: nat, at: int, b: int, ct: LweCt)
    requires ctx.Valid()
  {
    var g := Generator(ctx.cipher(seed), 0, ctx.modulus);
    && at >= 0 && Productive(g)
    && ct.b == b && |ct.a| == dim && forall i :: 0 <= i < dim ==> ct.a[i] == Draw(g, at + i)
  }

  lemma RowSpelledOut(ctx: QueryContext, seed: seq<byte>, dim: nat, start: nat, bs: seq<int>, cts: seq<LweCt>, j: nat)
    requires ctx.Valid() && RowReplays(ctx, seed, dim, start, bs, cts) && j < |bs|
    ensures |cts| == |bs| && IsCiphertext(ctx, seed, dim, (start + j) * dim, bs[j], cts[j])
  {
    hide RowReplays;
    ReplayedCt(ctx, seed, dim, start, bs, cts);
    MulNonNegative(start + j, dim);
  }

  method ReconstructLwe(dim: nat, aStream: SeededUniformDistribution, b: int) returns (ct: LweCt)
    requires aStream.Valid() && Productive(aStream.Gen())
    modifies aStream, aStream.buffer
    ensures aStream.Valid() && aStream.Count() == old(aStream.Count()) + dim
    ensures ct == LweCt(b, DrawSlice(aStream.Gen(), old(aStream.Count()), dim))
  {
    ghost var start := aStream.Count();
    var a := [];
    for i := 0 to dim
      invariant aStream.Valid() && aStream.Count() == start + i
      invariant a == DrawSlice(aStream.Gen(), start, i)
    {
      var v := aStream.Next();
      a := a + [v];
    }
    ct := LweCt(b, a);
  }

  method ReconstructRow(ghost ctx: QueryContext, ghost seed: seq<byte>, ghost start: nat, dim: nat,
                        aStream: SeededUniformDistribution, bs: seq<int>)
    returns (cts: seq<LweCt>)
    requires ctx.Valid() && StreamAt(ctx, seed, aStream, Drawn(start, dim))
    modifies aStream, aStream.buffer
    ensures StreamAt(ctx, seed, aStream, Drawn(start + |bs|, dim))
    ensures RowReplays(ctx, seed, dim, start, bs, cts)
  {
    hide Drawn, SeededUniformDistribution.Valid, SeededUniformDistribution.Count, Productive, DrawSlice;
    assert Productive(ctx.RingGen(seed));
    cts := [];
    for j := 0 to |bs|
      invariant StreamAt(ctx, seed, aStream, Drawn(start + j, dim))
      invariant cts == ReplayedRow(ctx.RingGen(seed), dim, start, bs[..j])
    {
      NextSlice(start + j, dim);
      var ct := ReconstructLwe(dim, aStream, bs[j]);
      cts := cts + [ct];
    }
    assert bs[..|bs|] == bs;
  }

  /** Ring by ring: each row replays its ring's stream from the start, and the selector goes
      on where ring 0's embedding ended. */
  ghost predicate Replays(ctx: QueryContext, dim: nat, wire: SeededQuery, rebuilt: ReconstructedQuery)
    requires ctx.Valid()
  {
    && |wire.seeds| == |wire.embeddingB| == |rebuilt.embeddingCts| == ctx.rings
    && (forall k :: 0 <= k < ctx.rings ==>
          RowReplays(ctx, wire.seeds[k], dim, 0, wire.embeddingB[k], rebuilt.embeddingCts[k]))
    && SelectorReplays(ctx, wire.seeds[0], dim, |wire.embeddingB[0]|, wire.selectorB, rebuilt.selectorCts)
  }

  ghost predicate SelectorReplays(ctx: QueryContext, seed: seq<byte>, dim: nat, start: nat,
                                  rows: seq<seq<int>>, cts: seq<seq<LweCt>>)
    requires ctx.Valid()
  {
    && |cts| == |rows|
    && forall c :: 0 <= c < |rows| ==> RowReplays(ctx, seed, dim, start + RowStart(rows, c), rows[c], cts[c])
  }

  /** The parallel loop over rings may interleave the rings' draws in any way. None (the sources
      throw) when the wire form has the wrong number of rings. */
  method ReconstructQuery(ctx: QueryContext, dim: nat, wire: SeededQuery, turns: seq<nat>)
    returns (r: Option<ReconstructedQuery>)
    requires ctx.Valid() && Interleaves(turns, RingSteps(wire.embeddingB, dim))
    ensures r.Some? <==> |wire.seeds| == |wire.embeddingB| == ctx.rings
    ensures r.Some? ==> Replays(ctx, dim, wire, r.value)
  {
    hide Drawn, SeededUniformDistribution.Valid, SeededUniformDistribution.Count, Productive, RowReplays,
      SelectorReplays;
    if |wire.seeds| != ctx.rings || |wire.embeddingB| != ctx.rings {
      return None;
    }
    var dists := OpenStreams(ctx, wire.seeds);
    var rows := RebuildRings(ctx, dim, wire, turns, dists);
    var selector := RebuildSelector(ctx, wire.seeds[0], dim, |wire.embeddingB[0]|, dists[0], wire.selectorB);
    return Some(ReconstructedQuery(rows, selector));
  }

  method RebuildSelector(ctx: QueryContext, ghost seed: seq<byte>, dim: nat, ghost start: nat,
                         aStream: SeededUniformDistribution, rows: seq<seq<int>>)
    returns (selector: seq<seq<LweCt>>)
    requires ctx.Valid() && StreamAt(ctx, seed, aStream, Drawn(start, dim))
    modifies aStream, aStream.buffer
    ensures SelectorReplays(ctx, seed, dim, start, rows, selector)
  {
    hide Drawn, SeededUniformDistribution.Valid, SeededUniformDistribution.Count, Productive, RowReplays, StreamAt,
      RowStart;
    selector := [];
    RowStarts(rows, 0);
    for c := 0 to |rows|
      invariant StreamAt(ctx, seed, aStream, Drawn(start + RowStart(rows, c), dim))
      invariant |selector| == c
      invariant forall i :: 0 <= i < c ==> RowReplays(ctx, seed, dim, start + RowStart(rows, i), rows[i], selector[i])
    {
      RowStarts(rows, c);
      var cts := ReconstructRow(ctx, seed, start + RowStart(rows, c), dim, aStream, rows[c]);
      selector := selector + [cts];
    }
  }

  // ---- The parallel loop over rings ----------------------------------------------------------

  /** A ciphertext of mask length `dim` takes one step for each draw and one to store it. */
  function CiphertextSteps(cts: nat, dim: nat): nat {
    cts * (dim + 1)
  }

  ghost function RingSteps(rows: seq<seq<int>>, dim: nat): (steps: seq<nat>)
    ensures |steps| == |rows|
    ensures forall k :: 0 <= k < |rows| ==> steps[k] == CiphertextSteps(|rows[k]|, dim)
  {
    seq(|rows|, k requires 0 <= k < |rows| => CiphertextSteps(|rows[k]|, dim))
  }

  /** A ring that has made `steps` steps: the ciphertexts stored so far, and the beginning of the
      mask of the next. */
  ghost predicate RingAt(ctx: QueryContext, seed: seq<byte>, dim: nat, bs: seq<int>, steps: nat,
                         aStream: SeededUniformDistribution, row: seq<LweCt>, mask: seq<int>)
    requires ctx.Valid()
    reads aStream, aStream.buffer
  {
    && |row| <= |bs| && |mask| <= dim && steps == CiphertextSteps(|row|, dim) + |mask|
    && StreamAt(ctx, seed, aStream, Drawn(|row|, dim) + |mask|)
    && RowReplays(ctx, seed, dim, 0, bs[..|row|], row)
    && MaskAt(ctx, seed, Drawn(|row|, dim), mask)
  }

  ghost predicate MaskAt(ctx: QueryContext, seed: seq<byte>, start: nat, mask: seq<int>)
    requires ctx.Valid()
  {
    assert Productive(ctx.RingGen(seed));
    mask == DrawSlice(ctx.RingGen(seed), start, |mask|)
  }

  /** With steps left there is a ciphertext left; without, every one is stored. */
  lemma StepsLeft(row: nat, mask: nat, cts: nat, dim: nat)
    requires row <= cts && mask <= dim
    ensures CiphertextSteps(row, dim) + mask < CiphertextSteps(cts, dim) <==> row < cts
    ensures CiphertextSteps(row, dim) + mask == CiphertextSteps(cts, dim) ==> row == cts && mask == 0
    ensures CiphertextSteps(row + 1, dim) == CiphertextSteps(row, dim) + dim + 1
  {
    assert (row + 1) * (dim + 1) == row * (dim + 1) + dim + 1;
    if row < cts {
      MulMonotone(row + 1, cts, dim + 1);
    }
  }

  lemma RingStarts(ctx: QueryContext, seed: seq<byte>, dim: nat, bs: seq<int>, aStream: SeededUniformDistribution)
    requires ctx.Valid() && StreamAt(ctx, seed, aStream, 0)
    ensures RingAt(ctx, seed, dim, bs, 0, aStream, [], [])
  {
    NextSlice(0, dim);
    assert 0 * (dim + 1) == 0;
  }

  lemma RingEnds(ctx: QueryContext, seed: seq<byte>, dim: nat, bs: seq<int>, aStream: SeededUniformDistribution,
                 row: seq<LweCt>, mask: seq<int>)
    requires ctx.Valid() && RingAt(ctx, seed, dim, bs, CiphertextSteps(|bs|, dim), aStream, row, mask)
    ensures StreamAt(ctx, seed, aStream, Drawn(|bs|, dim))
    ensures RowReplays(ctx, seed, dim, 0, bs, row)
  {
    StepsLeft(|row|, |mask|, |bs|, dim);
    assert bs[..|row|] == bs;
  }

  lemma StoreCiphertext(ctx: QueryContext, seed: seq<byte>, dim: nat, bs: seq<int>, row: seq<LweCt>, mask: seq<int>)
    requires ctx.Valid() && |row| < |bs| && |mask| == dim
    requires RowReplays(ctx, seed, dim, 0, bs[..|row|], row) && MaskAt(ctx, seed, Drawn(|row|, dim), mask)
    ensures RowReplays(ctx, seed, dim, 0, bs[..|row| + 1], row + [LweCt(bs[|row|], mask)])
    ensures MaskAt(ctx, seed, Drawn(|row| + 1, dim), [])
  {
    hide Drawn;
  }

  /** One step of one ring: a draw, or storing a ciphertext whose mask is complete. */
  method StepRing(ghost ctx: QueryContext, ghost seed: seq<byte>, ghost steps: nat, dim: nat,
                  aStream: SeededUniformDistribution, bs: seq<int>, row: seq<LweCt>, mask: seq<int>)
    returns (row': seq<LweCt>, mask': seq<int>)
    requires ctx.Valid() && RingAt(ctx, seed, dim, bs, steps, aStream, row, mask)
    requires steps < CiphertextSteps(|bs|, dim)
    modifies aStream, aStream.buffer
    ensures RingAt(ctx, seed, dim, bs, steps + 1, aStream, row', mask')
  {
    hide Drawn, CiphertextSteps, SeededUniformDistribution.Valid, SeededUniformDistribution.Count, Productive,
      DrawSlice, RowReplays;
    StepsLeft(|row|, |mask|, |bs|, dim);
    if |mask| < dim {
      assert Productive(ctx.RingGen(seed));
      var v := aStream.Next();
      row', mask' := row, mask + [v];
    } else {
      StoreCiphertext(ctx, seed, dim, bs, row, mask);
      NextSlice(|row|, dim);
      row', mask' := row + [LweCt(bs[|row|], mask)], [];
    }
  }

  method RebuildRings(ctx: QueryContext, dim: nat, wire: SeededQuery, turns: seq<nat>,
                      dists: seq<SeededUniformDistribution>)
    returns (rows: seq<seq<LweCt>>)
    requires ctx.Valid() && Interleaves(turns, RingSteps(wire.embeddingB, dim))
    requires |wire.seeds| == |wire.embeddingB| == ctx.rings && Separate(dists)
    requires StreamsAt(ctx, wire.seeds, dists, seq(ctx.rings, _ => 0))
    modifies set k | 0 <= k < |dists| :: dists[k]
    modifies set k | 0 <= k < |dists| :: dists[k].buffer
    ensures StreamAt(ctx, wire.seeds[0], dists[0], Drawn(|wire.embeddingB[0]|, dim))
    ensures |rows| == ctx.rings
    ensures forall k :: 0 <= k < ctx.rings ==> RowReplays(ctx, wire.seeds[k], dim, 0, wire.embeddingB[k], rows[k])
  {
    hide Drawn, CiphertextSteps, SeededUniformDistribution.Valid, SeededUniformDistribution.Count, Productive,
      RowReplays, StreamAt, RingAt, Interleaves, Occurrences;
    ghost var steps := RingSteps(wire.embeddingB, dim);
    rows := seq(ctx.rings, _ => []);
    var masks: seq<seq<int>> := seq(ctx.rings, _ => []);
    NoTurns(turns);
    forall k | 0 <= k < ctx.rings
      ensures RingAt(ctx, wire.seeds[k], dim, wire.embeddingB[k], 0, dists[k], rows[k], masks[k])
    {
      assert StreamAt(ctx, wire.seeds[k], dists[k], 0);
      RingStarts(ctx, wire.seeds[k], dim, wire.embeddingB[k], dists[k]);
    }
    for t := 0 to |turns|
      invariant |rows| == |masks| == ctx.rings
      invariant forall k: nat :: k < ctx.rings ==>
                  RingAt(ctx, wire.seeds[k], dim, wire.embeddingB[k], Occurrences(turns[..t], k), dists[k], rows[k],
                         masks[k])
    {
      TurnsSoFar(turns, steps, t);
      var k := turns[t];
      var row, mask := StepRing(ctx, wire.seeds[k], Occurrences(turns[..t], k), dim, dists[k], wire.embeddingB[k],
                                rows[k], masks[k]);
      rows, masks := rows[k := row], masks[k := mask];
    }
    AllTurns(turns, steps);
    forall k | 0 <= k < ctx.rings
      ensures StreamAt(ctx, wire.seeds[k], dists[k], Drawn(|wire.embeddingB[k]|, dim))
      ensures RowReplays(ctx, wire.seeds[k], dim, 0, wire.embeddingB[k], rows[k])
    {
      RingEnds(ctx, wire.seeds[k], dim, wire.embeddingB[k], dists[k], rows[k], masks[k]);
    }
  }
}
