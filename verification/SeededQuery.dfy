/** Building and rebuilding a seed-compressed query (src/seeded_query.cpp). The client
    interleaves its per-ring streams per value; the server replays them ring by ring. */
module SeededQueries {
  import opened MachineInts
  import opened Codecs
  import opened Crt
  import opened Messages
  import opened SeededDistribution

  /** b together with the mask a; `b` is slot 0 of the sources' vector. */
  datatype LweCt = LweCt(b: int, a: seq<int>)

  /** AES-128 in counter mode under a key, as a keystream (a parameter of this model). */
  type Cipher = seq<byte> -> (nat -> byte)

  /** Computes b from the mask, the encoded message, and the number of the encryption, which
      stands for the noise it samples. */
  type Encryptor = (seq<int>, int, nat) -> int

  /** Distributions are installed in the key and drawn from by every encryption. */
  class LweSecretKey {
    const dim: nat
    const encryptor: Encryptor
    var dist: SeededUniformDistribution
    var encryptions: nat

    constructor (dim: nat, encryptor: Encryptor, dist: SeededUniformDistribution)
      ensures this.dim == dim && this.encryptor == encryptor && this.dist == dist && encryptions == 0
    {
      this.dim, this.encryptor, this.dist, encryptions := dim, encryptor, dist, 0;
    }

    method SetUnifDist(d: SeededUniformDistribution) returns (previous: SeededUniformDistribution)
      modifies this`dist
      ensures dist == d && previous == old(dist)
    {
      previous := dist;
      dist := d;
    }

    /** Draws the mask from the installed distribution, in index order. */
    method Encrypt(message: int) returns (ct: LweCt)
      requires dist.Valid() && Productive(dist.Gen())
      modifies this`encryptions, dist, dist.buffer
      ensures dist.Valid() && dist.Count() == old(dist.Count()) + dim
      ensures encryptions == old(encryptions) + 1
      ensures ct == Encryption(dist.Gen(), old(dist.Count()), dim, encryptor, message, old(encryptions))
    {
      ghost var g, start := dist.Gen(), dist.Count();
      var a := [];
      for i := 0 to dim
        invariant dist.Valid() && dist.Count() == start + i
        invariant encryptions == old(encryptions)
        invariant a == DrawSlice(g, start, i)
      {
        var v := dist.Next();
        a := a + [v];
      }
      ct := LweCt(encryptor(a, message, encryptions), a);
      encryptions := encryptions + 1;
    }
  }

  ghost function Encryption(g: Generator, start: nat, dim: nat, encryptor: Encryptor, message: int, index: nat): LweCt
    requires Productive(g)
  {
    var a := DrawSlice(g, start, dim);
    LweCt(encryptor(a, message, index), a)
  }

  /** Draws made by `cts` encryptions, `dim` each. */
  function Drawn(cts: nat, dim: nat): nat {
    cts * dim
  }

  /** What client and server agree on beforehand. */
  datatype QueryContext = QueryContext(
    cipher: Cipher,
    modulus: int,
    encodings: seq<int -> int>,   // one plaintext encoding per component ring
    digitMessage: (int, nat) -> int,  // the message digit d of a gadget encryption carries
    digits: nat,
    rings: nat,
    p1: int,
    numClusters: nat)
  {
    /** The parameters were validated, and no seed's keystream dries up. */
    ghost predicate Valid() {
      && 1 <= rings <= 2
      && (rings == 2 ==> 2 <= p1 <= INT64_MAX)
      && 0 < modulus < INT64_MAX
      && forall seed: seq<byte> :: Productive(RingGen(seed))
    }

    ghost function RingGen(seed: seq<byte>): Generator {
      Generator(cipher(seed), 0, modulus)
    }
  }

  /** The ciphertexts a client's query stands for, in closed form: which slice of which
      keystream masks each of them, and which message under which encryption number. */
  datatype QueryPlan = QueryPlan(
    ctx: QueryContext, dim: nat, encryptor: Encryptor, seeds: seq<seq<byte>>, values: seq<int64>,
    desired: int, first: nat)
  {
    ghost predicate Valid() {
      ctx.Valid() && |seeds| == ctx.rings == |ctx.encodings|
    }

    ghost function EmbeddingCt(k: nat, j: nat): LweCt
      requires Valid() && k < ctx.rings && j < |values|
    {
      Encryption(ctx.RingGen(seeds[k]), Drawn(j, dim), dim, encryptor,
                 ctx.encodings[k](Component(ctx.rings, ctx.p1, values[j], k)),
                 first + j * ctx.rings + k)
    }

    function SelectorBit(c: nat): int {
      if c == desired then 1 else 0
    }

    /** The selector continues ring 0's stream behind all its embedding masks. */
    ghost function SelectorCt(c: nat, d: nat): LweCt
      requires Valid() && c < ctx.numClusters && d < ctx.digits
    {
      Encryption(ctx.RingGen(seeds[0]), Drawn(|values| + c * ctx.digits + d, dim), dim, encryptor,
                 ctx.digitMessage(SelectorBit(c), d),
                 first + |values| * ctx.rings + c * ctx.digits + d)
    }

    ghost function EmbeddingRow(k: nat, len: nat): (row: seq<int>)
      requires Valid() && k < ctx.rings && len <= |values|
      ensures |row| == len
      ensures forall j :: 0 <= j < len ==> row[j] == EmbeddingCt(k, j).b
    {
      seq(len, j requires 0 <= j < len => EmbeddingCt(k, j).b)
    }

    ghost function SelectorRow(c: nat, len: nat): (row: seq<int>)
      requires Valid() && c < ctx.numClusters && len <= ctx.digits
      ensures |row| == len
      ensures forall d :: 0 <= d < len ==> row[d] == SelectorCt(c, d).b
    {
      seq(len, d requires 0 <= d < len => SelectorCt(c, d).b)
    }

    /** The wire form: seeds in the clear, and the b of every ciphertext. */
    ghost predicate Describes(wire: SeededQuery)
      requires Valid()
    {
      && wire.seeds == seeds
      && |wire.embeddingB| == ctx.rings
      && (forall k :: 0 <= k < ctx.rings ==> wire.embeddingB[k] == EmbeddingRow(k, |values|))
      && |wire.selectorB| == ctx.numClusters
      && (forall c :: 0 <= c < ctx.numClusters ==> wire.selectorB[c] == SelectorRow(c, ctx.digits))
    }
  }

  // ---- The draws of a ring ---------------------------------------------------------------------

  /** Draw `k` of a ring is the remainder modulo q + 1 of the one kept word of its seed's keystream
      that has `k` kept words before it. */
  lemma RingDraw(ctx: QueryContext, seed: seq<byte>, k: nat) returns (w: nat)
    requires ctx.Valid()
    ensures var g := Generator(ctx.cipher(seed), 0, ctx.modulus);
            Productive(g) && Draw(g, k) == Word(ctx.cipher(seed), w) % (ctx.modulus + 1)
            && 0 <= Draw(g, k) <= ctx.modulus && w in Kept(g, w + 1) && |Kept(g, w)| == k
  {
    assert Productive(ctx.RingGen(seed));
    w := DrawIsWord(ctx.RingGen(seed), k);
  }

  /** Draws are uniform on [0, q], both ends included: every value is the remainder of the same
      number of kept words, and there is at least one. */
  lemma RingDrawsCover(ctx: QueryContext, v: int)
    requires ctx.Valid() && 0 <= v <= ctx.modulus
    ensures var range := ctx.modulus + 1;
            var hits := set raw: int | 0 <= raw < (UINT64_MAX / range) * range && raw % range == v;
            |hits| == UINT64_MAX / range >= 1
  {
    var range := ctx.modulus + 1;
    PreimageCount(range, v, UINT64_MAX / range);
    var hits := set raw: int | 0 <= raw < (UINT64_MAX / range) * range && raw % range == v;
    assert hits == Preimages(range, v, UINT64_MAX / range);
    assert UINT64_MAX == (UINT64_MAX / range) * range + UINT64_MAX % range;
  }

  // ---- A query's b-values, spelled out -----------------------------------------------------------

  /** Value `j` in ring `k`: encrypted with the mask of draws j * dim, ..., j * dim + dim - 1 of seed
      k's stream, from the ring's component of the value. */
  lemma EmbeddingSpelledOut(plan: QueryPlan, wire: SeededQuery, k: nat, j: nat)
    requires plan.Valid() && plan.Describes(wire) && k < plan.ctx.rings && j < |plan.values|
    ensures |wire.seeds| == |wire.embeddingB| == plan.ctx.rings && wire.seeds[k] == plan.seeds[k]
    ensures |wire.embeddingB[k]| == |plan.values|
    ensures var g := Generator(plan.ctx.cipher(plan.seeds[k]), 0, plan.ctx.modulus);
            var v, p1 := plan.values[j], plan.ctx.p1;
            var component := if plan.ctx.rings == 1 then v else if k == 0 then Rem(v, p1) else Rem(v, p1 - 1);
            var a := plan.EmbeddingCt(k, j).a;
            && Productive(g) && |a| == plan.dim
            && (forall i :: 0 <= i < plan.dim ==> j * plan.dim + i >= 0 && a[i] == Draw(g, j * plan.dim + i))
            && wire.embeddingB[k][j]
               == plan.encryptor(a, plan.ctx.encodings[k](component), plan.first + j * plan.ctx.rings + k)
  {
    assert Productive(plan.ctx.RingGen(plan.seeds[k]));
    MulNonNegative(j, plan.dim);
    assert wire.embeddingB[k] == plan.EmbeddingRow(k, |plan.values|);
  }

  /** Digit `d` of cluster `c`: its bit, encrypted with the mask of the draws of seed 0's stream behind
      all embedding masks and all digits before it. */
  lemma SelectorSpelledOut(plan: QueryPlan, wire: SeededQuery, c: nat, d: nat)
    requires plan.Valid() && plan.Describes(wire) && c < plan.ctx.numClusters && d < plan.ctx.digits
    ensures |wire.selectorB| == plan.ctx.numClusters && |wire.selectorB[c]| == plan.ctx.digits
    ensures var g := Generator(plan.ctx.cipher(plan.seeds[0]), 0, plan.ctx.modulus);
            var cts := c * plan.ctx.digits + d;
            var start := (|plan.values| + cts) * plan.dim;
            var a := plan.SelectorCt(c, d).a;
            && Productive(g) && |a| == plan.dim
            && (forall i :: 0 <= i < plan.dim ==> start + i >= 0 && a[i] == Draw(g, start + i))
            && wire.selectorB[c][d]
               == plan.encryptor(a, plan.ctx.digitMessage(if c == plan.desired then 1 else 0, d),
                                 plan.first + |plan.values| * plan.ctx.rings + cts)
  {
    assert Productive(plan.ctx.RingGen(plan.seeds[0]));
    MulNonNegative(c, plan.ctx.digits);
    MulNonNegative(|plan.values| + c * plan.ctx.digits + d, plan.dim);
    assert wire.selectorB[c] == plan.SelectorRow(c, plan.ctx.digits);
  }

  // ---- The per-ring streams ------------------------------------------------------------------

  ghost predicate Separate(dists: seq<SeededUniformDistribution>) {
    forall i, j :: 0 <= i < j < |dists| ==> dists[i] != dists[j] && dists[i].buffer != dists[j].buffer
  }

  /** Stream `k` belongs to seed `k` and has made `counts[k]` draws. */
  ghost predicate StreamsAt(ctx: QueryContext, seeds: seq<seq<byte>>, dists: seq<SeededUniformDistribution>,
                            counts: seq<int>)
    reads set k | 0 <= k < |dists| :: dists[k]
    reads set k | 0 <= k < |dists| :: dists[k].buffer
  {
    && |seeds| == |dists| == |counts|
    && forall k :: 0 <= k < |dists| ==> StreamAt(ctx, seeds[k], dists[k], counts[k])
  }

  ghost predicate StreamAt(ctx: QueryContext, seed: seq<byte>, dist: SeededUniformDistribution, count: int)
    reads dist, dist.buffer
  {
    dist.Valid() && dist.Gen() == ctx.RingGen(seed) && dist.Count() == count
  }

  method OpenStreams(ctx: QueryContext, seeds: seq<seq<byte>>) returns (dists: seq<SeededUniformDistribution>)
    requires ctx.Valid()
    ensures |dists| == |seeds| && Separate(dists)
    ensures forall k :: 0 <= k < |dists| ==> fresh(dists[k]) && fresh(dists[k].buffer)
    ensures StreamsAt(ctx, seeds, dists, seq(|seeds|, _ => 0))
  {
    dists := [];
    for k := 0 to |seeds|
      invariant |dists| == k && Separate(dists)
      invariant forall i :: 0 <= i < k ==> fresh(dists[i]) && fresh(dists[i].buffer)
      invariant forall i :: 0 <= i < k ==> StreamAt(ctx, seeds[i], dists[i], 0)
    {
      assert Productive(ctx.RingGen(seeds[k]));
      var d := new SeededUniformDistribution(ctx.cipher(seeds[k]), 0, ctx.modulus);
      dists := dists + [d];
    }
  }

  // ---- Client --------------------------------------------------------------------------------

  /** Wraps the same key object: its encryptions draw from the distribution installed there. */
  class LweGadgetKey {
    const sk: LweSecretKey

    constructor (sk: LweSecretKey)
      ensures this.sk == sk
    {
      this.sk := sk;
    }

    /** The b-values of a gadget encryption of `bit`, digit by digit. */
    method GadgetEncrypt(ghost plan: QueryPlan, ghost c: nat, ctx: QueryContext, bit: int) returns (bs: seq<int>)
      requires plan.Valid() && plan.ctx == ctx && c < ctx.numClusters && bit == plan.SelectorBit(c)
      requires plan.dim == sk.dim && plan.encryptor == sk.encryptor
      requires StreamAt(ctx, plan.seeds[0], sk.dist, Drawn(|plan.values| + c * ctx.digits, sk.dim))
      requires sk.encryptions == plan.first + |plan.values| * ctx.rings + c * ctx.digits
      modifies sk`encryptions, sk.dist, sk.dist.buffer
      ensures bs == plan.SelectorRow(c, ctx.digits)
      ensures StreamAt(ctx, plan.seeds[0], sk.dist, Drawn(|plan.values| + (c + 1) * ctx.digits, sk.dim))
      ensures sk.encryptions == plan.first + |plan.values| * ctx.rings + (c + 1) * ctx.digits
    {
      hide Drawn, SeededUniformDistribution.Valid, SeededUniformDistribution.Count, Productive, DrawSlice;
      ghost var masked, issued := |plan.values| + c * ctx.digits, sk.encryptions;
      bs := [];
      for d := 0 to ctx.digits
        invariant StreamAt(ctx, plan.seeds[0], sk.dist, Drawn(masked + d, sk.dim))
        invariant sk.encryptions == issued + d
        invariant bs == plan.SelectorRow(c, d)
      {
        NextSlice(masked + d, sk.dim);
        assert Productive(ctx.RingGen(plan.seeds[0]));
        var ct := sk.Encrypt(ctx.digitMessage(bit, d));
        assert ct == plan.SelectorCt(c, d);
        bs := bs + [ct.b];
      }
      assert (c + 1) * ctx.digits == c * ctx.digits + ctx.digits;
    }

    /** One gadget encryption per cluster: 1 for the desired one, 0 for all others. */
    method EncryptSelector(ghost plan: QueryPlan, ctx: QueryContext, desired: int) returns (selector: seq<seq<int>>)
      requires plan.Valid() && plan.ctx == ctx && desired == plan.desired
      requires plan.dim == sk.dim && plan.encryptor == sk.encryptor
      requires StreamAt(ctx, plan.seeds[0], sk.dist, Drawn(|plan.values|, sk.dim))
      requires sk.encryptions == plan.first + |plan.values| * ctx.rings
      modifies sk`encryptions, sk.dist, sk.dist.buffer
      ensures |selector| == ctx.numClusters
      ensures forall c :: 0 <= c < ctx.numClusters ==> selector[c] == plan.SelectorRow(c, ctx.digits)
      ensures sk.encryptions == plan.first + |plan.values| * ctx.rings + ctx.numClusters * ctx.digits
    {
      hide Drawn, SeededUniformDistribution.Valid, SeededUniformDistribution.Count, Productive, DrawSlice,
        QueryPlan.SelectorRow;
      selector := [];
      for c := 0 to ctx.numClusters
        invariant StreamAt(ctx, plan.seeds[0], sk.dist, Drawn(|plan.values| + c * ctx.digits, sk.dim))
        invariant sk.encryptions == plan.first + |plan.values| * ctx.rings + c * ctx.digits
        invariant |selector| == c
        invariant forall i :: 0 <= i < c ==> selector[i] == plan.SelectorRow(i, ctx.digits)
      {
        var bs := GadgetEncrypt(plan, c, ctx, if c == desired then 1 else 0);
        selector := selector + [bs];
      }
    }
  }

  lemma NextSlice(j: nat, dim: nat)
    ensures Drawn(j + 1, dim) == Drawn(j, dim) + dim
    ensures Drawn(0, dim) == 0
  {
  }

  lemma RowSnoc(plan: QueryPlan, k: nat, j: nat)
    requires plan.Valid() && k < plan.ctx.rings && j < |plan.values|
    ensures plan.EmbeddingRow(k, j + 1) == plan.EmbeddingRow(k, j) + [plan.EmbeddingCt(k, j).b]
  {
  }

  /** Counts of draws per ring while value `j` has been encrypted for the first `k` rings. */
  ghost function Counts(rings: nat, dim: nat, j: nat, k: nat): seq<int>
    requires k <= rings
  {
    seq(rings, i requires 0 <= i < rings => Drawn(if i < k then j + 1 else j, dim))
  }

  /** One component, under its ring's encoding and masked from its ring's stream. */
  method EncryptComponent(ghost plan: QueryPlan, ctx: QueryContext, key: LweSecretKey,
                          dist: SeededUniformDistribution, component: int, k: nat, j: nat)
    returns (ct: LweCt)
    requires plan.Valid() && plan.ctx == ctx && j < |plan.values| && k < ctx.rings
    requires component == Component(ctx.rings, ctx.p1, plan.values[j], k)
    requires plan.dim == key.dim && plan.encryptor == key.encryptor
    requires StreamAt(ctx, plan.seeds[k], dist, Drawn(j, key.dim))
    requires key.encryptions == plan.first + j * ctx.rings + k
    modifies key`dist, key`encryptions, dist, dist.buffer
    ensures StreamAt(ctx, plan.seeds[k], dist, Drawn(j + 1, key.dim))
    ensures key.encryptions == old(key.encryptions) + 1
    ensures ct == plan.EmbeddingCt(k, j)
  {
    hide Drawn, SeededUniformDistribution.Valid, SeededUniformDistribution.Count, Split, Productive, DrawSlice,
      Encryption, Component;
    NextSlice(j, key.dim);
    var _ := key.SetUnifDist(dist);
    assert Productive(ctx.RingGen(plan.seeds[k]));
    ct := key.Encrypt(ctx.encodings[k](component));
  }

  /** One embedding value: its component for each ring, on that ring's own stream. */
  method EncryptValue(ghost plan: QueryPlan, ctx: QueryContext, key: LweSecretKey,
                      dists: seq<SeededUniformDistribution>, v: int64, j: nat, rows: seq<seq<int>>)
    returns (out: seq<seq<int>>)
    requires plan.Valid() && plan.ctx == ctx && j < |plan.values| && v == plan.values[j]
    requires plan.dim == key.dim && plan.encryptor == key.encryptor
    requires |dists| == ctx.rings && Separate(dists)
    requires StreamsAt(ctx, plan.seeds, dists, Counts(ctx.rings, key.dim, j, 0))
    requires |rows| == ctx.rings && forall k :: 0 <= k < ctx.rings ==> rows[k] == plan.EmbeddingRow(k, j)
    requires key.encryptions == plan.first + j * ctx.rings
    modifies key`dist, key`encryptions
    modifies set k | 0 <= k < |dists| :: dists[k]
    modifies set k | 0 <= k < |dists| :: dists[k].buffer
    ensures StreamsAt(ctx, plan.seeds, dists, Counts(ctx.rings, key.dim, j + 1, 0))
    ensures |out| == ctx.rings && forall k :: 0 <= k < ctx.rings ==> out[k] == plan.EmbeddingRow(k, j + 1)
    ensures key.encryptions == plan.first + (j + 1) * ctx.rings
  {
    hide Drawn, SeededUniformDistribution.Valid, SeededUniformDistribution.Count, Split, Productive, DrawSlice,
      Encryption, QueryPlan.EmbeddingRow, QueryPlan.EmbeddingCt, StreamAt;
    var components := if ctx.rings == 1 then [v] else [Split(v, ctx.p1).0, Split(v, ctx.p1).1];
    assert forall k :: 0 <= k < ctx.rings ==> components[k] == Component(ctx.rings, ctx.p1, v, k);
    out := rows;
    for k := 0 to ctx.rings
      invariant StreamsAt(ctx, plan.seeds, dists, Counts(ctx.rings, key.dim, j, k))
      invariant |out| == ctx.rings
      invariant forall i :: 0 <= i < ctx.rings ==> out[i] == plan.EmbeddingRow(i, if i < k then j + 1 else j)
      invariant key.encryptions == plan.first + j * ctx.rings + k
    {
      ghost var counts := Counts(ctx.rings, key.dim, j, k);
      assert StreamAt(ctx, plan.seeds[k], dists[k], counts[k]);
      var ct := EncryptComponent(plan, ctx, key, dists[k], components[k], k, j);
      RowSnoc(plan, k, j);
      out := out[k := out[k] + [ct.b]];
    }
    assert (j + 1) * ctx.rings == j * ctx.rings + ctx.rings;
    assert Counts(ctx.rings, key.dim, j, ctx.rings) == Counts(ctx.rings, key.dim, j + 1, 0);
  }

  /** None (the sources throw) when the context was not built for this number of rings. */
  method BuildSeededQuery(ctx: QueryContext, gadget: LweGadgetKey, freshSeeds: seq<seq<byte>>,
                          embeddingValues: seq<int64>, desired: int)
    returns (r: Option<SeededQuery>)
    requires ctx.Valid() && |freshSeeds| == ctx.rings
    modifies gadget.sk`dist, gadget.sk`encryptions
    ensures gadget.sk.dist == old(gadget.sk.dist)
    ensures r.None? <==> |ctx.encodings| != ctx.rings
    ensures r.None? ==> gadget.sk.encryptions == old(gadget.sk.encryptions)
    ensures r.Some? ==>
              var plan := QueryPlan(ctx, gadget.sk.dim, gadget.sk.encryptor, freshSeeds, embeddingValues, desired,
                                    old(gadget.sk.encryptions));
              plan.Describes(r.value)
    ensures r.Some? ==> gadget.sk.encryptions == old(gadget.sk.encryptions)
                        + |embeddingValues| * ctx.rings + ctx.numClusters * ctx.digits
  {
    hide Drawn, SeededUniformDistribution.Valid, SeededUniformDistribution.Count, Productive, DrawSlice, Encryption,
      QueryPlan.EmbeddingRow, QueryPlan.SelectorRow, QueryPlan.EmbeddingCt;
    var key := gadget.sk;
    if |ctx.encodings| != ctx.rings {
      return None;
    }
    ghost var plan := QueryPlan(ctx, key.dim, key.encryptor, freshSeeds, embeddingValues, desired, key.encryptions);
    var dists := OpenStreams(ctx, freshSeeds);
    var original := key.SetUnifDist(dists[0]);
    var rows: seq<seq<int>> := seq(ctx.rings, _ => []);
    NextSlice(0, key.dim);
    assert Counts(ctx.rings, key.dim, 0, 0) == seq(|freshSeeds|, _ => 0);
    for j := 0 to |embeddingValues|
      invariant StreamsAt(ctx, freshSeeds, dists, Counts(ctx.rings, key.dim, j, 0))
      invariant |rows| == ctx.rings
      invariant forall k :: 0 <= k < ctx.rings ==> rows[k] == plan.EmbeddingRow(k, j)
      invariant key.encryptions == plan.first + j * ctx.rings
    {
      rows := EncryptValue(plan, ctx, key, dists, embeddingValues[j], j, rows);
    }
    var _ := key.SetUnifDist(dists[0]);
    assert StreamAt(ctx, freshSeeds[0], dists[0], Counts(ctx.rings, key.dim, |embeddingValues|, 0)[0]);
    var selector := gadget.EncryptSelector(plan, ctx, desired);
    var _ := key.SetUnifDist(original);
    return Some(SeededQuery(freshSeeds, rows, selector));
  }
}
