/** Seed-compressed evaluation keys (src/seeded_eval_keys.cpp): one keystream covers the
    automorphism keys level by level and then the rows of RLWE'(sk^2). */
module SeededEvalKeys {
  import opened MachineInts
  import opened Messages
  import opened Ragged
  import opened SeededDistribution
  import opened SeededQueries

  /** Rows of RLWE ciphertexts, as the key objects hold them. */
  datatype PublicMaterial = PublicMaterial(
    automorphism: seq<seq<RlweCt>>,   // [level][digit]
    skSquared: seq<RlweCt>)           // [digit]

  /** Computes a key row's b from its a, the number of the row, and the number of encryptions
      made so far, which stands for the noise it samples. */
  type RowEncryptor = (seq<int>, nat, nat) -> seq<int>

  /** The client's ring secret key: every row drawn from it takes its a, coefficient by
      coefficient, from the installed distribution. */
  class RlweSecretKey {
    const n: nat
    const encryptor: RowEncryptor
    var dist: SeededUniformDistribution
    var encryptions: nat

    constructor (n: nat, encryptor: RowEncryptor, dist: SeededUniformDistribution)
      ensures this.n == n && this.encryptor == encryptor && this.dist == dist && encryptions == 0
    {
      this.n, this.encryptor, this.dist, encryptions := n, encryptor, dist, 0;
    }

    method SetUnifDist(d: SeededUniformDistribution) returns (previous: SeededUniformDistribution)
      modifies this`dist
      ensures dist == d && previous == old(dist)
    {
      previous := dist;
      dist := d;
    }

    method EncryptRow(row: nat) returns (ct: RlweCt)
      requires dist.Valid() && Productive(dist.Gen())
      modifies this`encryptions, dist, dist.buffer
      ensures dist.Valid() && dist.Count() == old(dist.Count()) + n
      ensures encryptions == old(encryptions) + 1
      ensures ct.a == DrawSlice(dist.Gen(), old(dist.Count()), n)
      ensures ct.b == encryptor(ct.a, row, old(encryptions))
    {
      var issued := encryptions;
      var a := ReadPolynomial(dist, n);
      ct := RlweCt(a, encryptor(a, row, issued));
      encryptions := encryptions + 1;
    }
  }

  /** The next `n` draws of a stream, as the coefficients of a polynomial. */
  method ReadPolynomial(aStream: SeededUniformDistribution, n: nat) returns (a: seq<int>)
    requires aStream.Valid() && Productive(aStream.Gen())
    modifies aStream, aStream.buffer
    ensures aStream.Valid() && aStream.Count() == old(aStream.Count()) + n
    ensures a == DrawSlice(aStream.Gen(), old(aStream.Count()), n)
  {
    ghost var start := aStream.Count();
    a := [];
    for j := 0 to n
      invariant aStream.Valid() && aStream.Count() == start + j
      invariant a == DrawSlice(aStream.Gen(), start, j)
    {
      var v := aStream.Next();
      a := a + [v];
    }
  }

  // ---- Client --------------------------------------------------------------------------------

  /** Row `row` of the keys, counting all automorphism digits first and the sk^2 digits
      behind them. */
  ghost predicate KeyRow(ctx: QueryContext, seed: seq<byte>, n: nat, encryptor: RowEncryptor, first: nat,
                         row: nat, ct: RlweCt)
    requires ctx.Valid()
  {
    && ct.a == DrawSlice(KeyGen(ctx, seed), Drawn(row, n), n)
    && ct.b == encryptor(ct.a, row, first + row)
  }

  ghost function KeyGen(ctx: QueryContext, seed: seq<byte>): (g: Generator)
    requires ctx.Valid()
    ensures Productive(g)
  {
    assert Productive(ctx.RingGen(seed));
    ctx.RingGen(seed)
  }

  /** Key material of `levels` levels of `kskDigits` rows, and `primeDigits` sk^2 rows. */
  ghost predicate KeyMaterial(ctx: QueryContext, seed: seq<byte>, n: nat, encryptor: RowEncryptor, first: nat,
                              kskDigits: nat, pub: PublicMaterial)
    requires ctx.Valid()
  {
    && (forall v :: 0 <= v < |pub.automorphism| ==> |pub.automorphism[v]| == kskDigits)
    && (forall v, d :: 0 <= v < |pub.automorphism| && 0 <= d < kskDigits ==>
          KeyRow(ctx, seed, n, encryptor, first, v * kskDigits + d, pub.automorphism[v][d]))
    && (forall d :: 0 <= d < |pub.skSquared| ==>
          KeyRow(ctx, seed, n, encryptor, first, |pub.automorphism| * kskDigits + d, pub.skSquared[d]))
  }

  /** `count` further rows, on the stream behind row `start`. */
  method EncryptRows(ghost ctx: QueryContext, ghost seed: seq<byte>, ghost first: nat, key: RlweSecretKey,
                     start: nat, count: nat)
    returns (cts: seq<RlweCt>)
    requires ctx.Valid() && StreamAt(ctx, seed, key.dist, Drawn(start, key.n))
    requires key.encryptions == first + start
    modifies key`encryptions, key.dist, key.dist.buffer
    ensures StreamAt(ctx, seed, key.dist, Drawn(start + count, key.n))
    ensures key.encryptions == first + start + count
    ensures |cts| == count
    ensures forall d :: 0 <= d < count ==> KeyRow(ctx, seed, key.n, key.encryptor, first, start + d, cts[d])
  {
    hide Drawn, SeededUniformDistribution.Valid, SeededUniformDistribution.Count, Productive, DrawSlice;
    cts := [];
    for d := 0 to count
      invariant StreamAt(ctx, seed, key.dist, Drawn(start + d, key.n))
      invariant key.encryptions == first + start + d
      invariant |cts| == d
      invariant forall i :: 0 <= i < d ==> KeyRow(ctx, seed, key.n, key.encryptor, first, start + i, cts[i])
    {
      NextSlice(start + d, key.n);
      assert Productive(KeyGen(ctx, seed));
      var ct := key.EncryptRow(start + d);
      cts := cts + [ct];
    }
  }

  /** The order in which the library builds the keys: all automorphism levels, then sk^2. */
  method GenerateClientPublicMaterial(ghost ctx: QueryContext, ghost seed: seq<byte>, key: RlweSecretKey,
                                      levels: nat, kskDigits: nat, primeDigits: nat)
    returns (pub: PublicMaterial)
    requires ctx.Valid() && StreamAt(ctx, seed, key.dist, 0)
    modifies key`encryptions, key.dist, key.dist.buffer
    ensures |pub.automorphism| == levels && |pub.skSquared| == primeDigits
    ensures KeyMaterial(ctx, seed, key.n, key.encryptor, old(key.encryptions), kskDigits, pub)
  {
    hide Drawn, SeededUniformDistribution.Valid, SeededUniformDistribution.Count, Productive, KeyRow, StreamAt;
    ghost var first := key.encryptions;
    var automorphism: seq<seq<RlweCt>> := [];
    NextSlice(0, key.n);
    for v := 0 to levels
      invariant StreamAt(ctx, seed, key.dist, Drawn(v * kskDigits, key.n))
      invariant key.encryptions == first + v * kskDigits
      invariant |automorphism| == v
      invariant forall u :: 0 <= u < v ==> |automorphism[u]| == kskDigits
      invariant forall u, d :: 0 <= u < v && 0 <= d < kskDigits ==>
                  KeyRow(ctx, seed, key.n, key.encryptor, first, u * kskDigits + d, automorphism[u][d])
    {
      var level := EncryptRows(ctx, seed, first, key, v * kskDigits, kskDigits);
      automorphism := automorphism + [level];
      assert (v + 1) * kskDigits == v * kskDigits + kskDigits;
    }
    var skSquared := EncryptRows(ctx, seed, first, key, levels * kskDigits, primeDigits);
    pub := PublicMaterial(automorphism, skSquared);
  }

  ghost function BRows(cts: seq<RlweCt>): (rows: seq<seq<int>>)
    ensures |rows| == |cts|
    ensures forall d :: 0 <= d < |cts| ==> rows[d] == cts[d].b
  {
    seq(|cts|, d requires 0 <= d < |cts| => cts[d].b)
  }

  method ExtractB(cts: seq<RlweCt>) returns (rows: seq<seq<int>>)
    ensures rows == BRows(cts)
  {
    rows := [];
    for d := 0 to |cts|
      invariant rows == BRows(cts[..d])
    {
      rows := rows + [cts[d].b];
    }
    assert cts[..|cts|] == cts;
  }

  /** Builds the keys on a fresh seed's stream and keeps only what is sent. The keys
      themselves are a ghost result: the sources drop them. */
  method BuildSeededPublicMaterial(ctx: QueryContext, freshSeed: seq<byte>, key: RlweSecretKey,
                                   levels: nat, kskDigits: nat, primeDigits: nat)
    returns (wire: SeededPublicMaterial, ghost pub: PublicMaterial)
    requires ctx.Valid()
    modifies key`dist, key`encryptions
    ensures key.dist == old(key.dist)
    ensures |pub.automorphism| == levels && |pub.skSquared| == primeDigits
    ensures KeyMaterial(ctx, freshSeed, key.n, key.encryptor, old(key.encryptions), kskDigits, pub)
    ensures SentOf(freshSeed, pub, wire)
  {
    hide SeededUniformDistribution.Valid, SeededUniformDistribution.Count, Productive, KeyMaterial;
    var dists := OpenStreams(ctx, [freshSeed]);
    var original := key.SetUnifDist(dists[0]);
    var keys := GenerateClientPublicMaterial(ctx, freshSeed, key, levels, kskDigits, primeDigits);
    var _ := key.SetUnifDist(original);
    var automorphismB: seq<seq<seq<int>>> := [];
    for v := 0 to levels
      invariant key.dist == original
      invariant |automorphismB| == v
      invariant forall u :: 0 <= u < v ==> automorphismB[u] == BRows(keys.automorphism[u])
    {
      var rows := ExtractB(keys.automorphism[v]);
      automorphismB := automorphismB + [rows];
    }
    var skSquaredB := ExtractB(keys.skSquared);
    wire := SeededPublicMaterial(freshSeed, automorphismB, skSquaredB);
    pub := keys;
  }

  // ---- Server --------------------------------------------------------------------------------

  /** Row `row` of the stream, with the first `n` coefficients of a received b. */
  ghost function RebuiltRow(ctx: QueryContext, seed: seq<byte>, n: nat, row: nat, b: seq<int>): RlweCt
    requires ctx.Valid() && |b| >= n
  {
    RlweCt(DrawSlice(KeyGen(ctx, seed), Drawn(row, n), n), b[..n])
  }

  ghost predicate LongEnough(rows: seq<seq<int>>, n: nat) {
    forall d :: 0 <= d < |rows| ==> |rows[d]| >= n
  }

  ghost predicate RowsRebuilt(ctx: QueryContext, seed: seq<byte>, n: nat, start: nat, rows: seq<seq<int>>,
                              cts: seq<RlweCt>)
    requires ctx.Valid() && LongEnough(rows, n)
  {
    && |cts| == |rows|
    && forall d :: 0 <= d < |rows| ==> cts[d] == RebuiltRow(ctx, seed, n, start + d, rows[d])
  }

  method RebuildRows(ghost ctx: QueryContext, ghost seed: seq<byte>, ghost start: nat, n: nat,
                     aStream: SeededUniformDistribution, rows: seq<seq<int>>)
    returns (cts: seq<RlweCt>)
    requires ctx.Valid() && StreamAt(ctx, seed, aStream, Drawn(start, n)) && LongEnough(rows, n)
    modifies aStream, aStream.buffer
    ensures StreamAt(ctx, seed, aStream, Drawn(start + |rows|, n))
    ensures RowsRebuilt(ctx, seed, n, start, rows, cts)
  {
    hide Drawn, SeededUniformDistribution.Valid, SeededUniformDistribution.Count, Productive, DrawSlice;
    cts := [];
    for d := 0 to |rows|
      invariant StreamAt(ctx, seed, aStream, Drawn(start + d, n))
      invariant |cts| == d
      invariant forall i :: 0 <= i < d ==> cts[i] == RebuiltRow(ctx, seed, n, start + i, rows[i])
    {
      NextSlice(start + d, n);
      assert Productive(KeyGen(ctx, seed));
      var a := ReadPolynomial(aStream, n);
      cts := cts + [RlweCt(a, rows[d][..n])];
    }
  }

  ghost predicate MaterialLong(wire: SeededPublicMaterial, n: nat) {
    && (forall v :: 0 <= v < |wire.automorphismB| ==> LongEnough(wire.automorphismB[v], n))
    && LongEnough(wire.skSquaredB, n)
  }

  /** Whatever the number of digits of each level, level `v` starts where the levels before
      it end, and the sk^2 rows start behind the last level. */
  ghost predicate RebuiltFrom(ctx: QueryContext, n: nat, wire: SeededPublicMaterial, pub: PublicMaterial)
    requires ctx.Valid() && MaterialLong(wire, n)
  {
    && |pub.automorphism| == |wire.automorphismB|
    && (forall v :: 0 <= v < |wire.automorphismB| ==>
          RowsRebuilt(ctx, wire.evalKeySeed, n, RowStart(wire.automorphismB, v), wire.automorphismB[v],
                      pub.automorphism[v]))
    && RowsRebuilt(ctx, wire.evalKeySeed, n, RowStart(wire.automorphismB, |wire.automorphismB|), wire.skSquaredB,
                   pub.skSquared)
  }

  method ReconstructPublicMaterial(ctx: QueryContext, n: nat, wire: SeededPublicMaterial) returns (pub: PublicMaterial)
    requires ctx.Valid() && MaterialLong(wire, n)
    ensures RebuiltFrom(ctx, n, wire, pub)
  {
    hide Drawn, SeededUniformDistribution.Valid, SeededUniformDistribution.Count, Productive, RowsRebuilt, RowStart;
    var dists := OpenStreams(ctx, [wire.evalKeySeed]);
    assert StreamAt(ctx, wire.evalKeySeed, dists[0], 0);
    var aStream := dists[0];
    ghost var levels := wire.automorphismB;
    var automorphism: seq<seq<RlweCt>> := [];
    NextSlice(0, n);
    RowStarts(levels, 0);
    for v := 0 to |wire.automorphismB|
      invariant StreamAt(ctx, wire.evalKeySeed, aStream, Drawn(RowStart(levels, v), n))
      invariant |automorphism| == v
      invariant forall u :: 0 <= u < v ==>
                  RowsRebuilt(ctx, wire.evalKeySeed, n, RowStart(levels, u), levels[u], automorphism[u])
    {
      RowStarts(levels, v);
      var cts := RebuildRows(ctx, wire.evalKeySeed, RowStart(levels, v), n, aStream, wire.automorphismB[v]);
      automorphism := automorphism + [cts];
    }
    var skSquared := RebuildRows(ctx, wire.evalKeySeed, RowStart(levels, |levels|), n, aStream, wire.skSquaredB);
    pub := PublicMaterial(automorphism, skSquared);
  }

  // ---- The replay theorem ----------------------------------------------------------------------

  ghost predicate RowsFull(cts: seq<RlweCt>, n: nat) {
    forall d :: 0 <= d < |cts| ==> |cts[d].b| == n
  }

  lemma RowsEqual(ctx: QueryContext, seed: seq<byte>, n: nat, encryptor: RowEncryptor, first: nat, start: nat,
                  sent: seq<RlweCt>, got: seq<RlweCt>)
    requires ctx.Valid() && RowsFull(sent, n)
    requires LongEnough(BRows(sent), n) && RowsRebuilt(ctx, seed, n, start, BRows(sent), got)
    requires forall d :: 0 <= d < |sent| ==> KeyRow(ctx, seed, n, encryptor, first, start + d, sent[d])
    ensures got == sent
  {
    forall d | 0 <= d < |sent|
      ensures got[d] == sent[d]
    {
      assert got[d] == RebuiltRow(ctx, seed, n, start + d, BRows(sent)[d]);
      assert KeyRow(ctx, seed, n, encryptor, first, start + d, sent[d]);
      assert sent[d].b[..n] == sent[d].b;
    }
  }

  /** `wire` is what is sent of `pub`. */
  ghost predicate SentOf(seed: seq<byte>, pub: PublicMaterial, wire: SeededPublicMaterial) {
    && wire.evalKeySeed == seed
    && |wire.automorphismB| == |pub.automorphism|
    && (forall v :: 0 <= v < |pub.automorphism| ==> wire.automorphismB[v] == BRows(pub.automorphism[v]))
    && wire.skSquaredB == BRows(pub.skSquared)
  }

  ghost predicate RowEncryptorOf(encryptor: RowEncryptor, n: nat) {
    forall a: seq<int>, row: nat, e: nat :: |encryptor(a, row, e)| == n
  }

  lemma MaterialFull(ctx: QueryContext, seed: seq<byte>, n: nat, encryptor: RowEncryptor, first: nat,
                     kskDigits: nat, pub: PublicMaterial)
    requires ctx.Valid() && KeyMaterial(ctx, seed, n, encryptor, first, kskDigits, pub)
    requires RowEncryptorOf(encryptor, n)
    ensures forall v :: 0 <= v < |pub.automorphism| ==> RowsFull(pub.automorphism[v], n)
    ensures RowsFull(pub.skSquared, n)
  {
    hide DrawSlice, Drawn, KeyGen;
    forall v, d | 0 <= v < |pub.automorphism| && 0 <= d < kskDigits
      ensures |pub.automorphism[v][d].b| == n
    {
      assert KeyRow(ctx, seed, n, encryptor, first, v * kskDigits + d, pub.automorphism[v][d]);
    }
    forall d | 0 <= d < |pub.skSquared|
      ensures |pub.skSquared[d].b| == n
    {
      assert KeyRow(ctx, seed, n, encryptor, first, |pub.automorphism| * kskDigits + d, pub.skSquared[d]);
    }
  }

  lemma LevelEqual(ctx: QueryContext, seed: seq<byte>, n: nat, encryptor: RowEncryptor, first: nat, kskDigits: nat,
                   pub: PublicMaterial, wire: SeededPublicMaterial, v: nat, got: seq<RlweCt>)
    requires ctx.Valid() && KeyMaterial(ctx, seed, n, encryptor, first, kskDigits, pub) && SentOf(seed, pub, wire)
    requires v < |pub.automorphism| && RowsFull(pub.automorphism[v], n)
    requires LongEnough(wire.automorphismB[v], n)
    requires RowsRebuilt(ctx, seed, n, RowStart(wire.automorphismB, v), wire.automorphismB[v], got)
    ensures got == pub.automorphism[v]
  {
    hide RowsRebuilt, KeyRow, RowsFull;
    UniformRowStart(wire.automorphismB, kskDigits, v);
    RowsEqual(ctx, seed, n, encryptor, first, v * kskDigits, pub.automorphism[v], got);
  }

  lemma SkSquaredEqual(ctx: QueryContext, seed: seq<byte>, n: nat, encryptor: RowEncryptor, first: nat, kskDigits: nat,
                       pub: PublicMaterial, wire: SeededPublicMaterial, got: seq<RlweCt>)
    requires ctx.Valid() && KeyMaterial(ctx, seed, n, encryptor, first, kskDigits, pub) && SentOf(seed, pub, wire)
    requires RowsFull(pub.skSquared, n) && LongEnough(wire.skSquaredB, n)
    requires RowsRebuilt(ctx, seed, n, RowStart(wire.automorphismB, |wire.automorphismB|), wire.skSquaredB, got)
    ensures got == pub.skSquared
  {
    hide RowsRebuilt, KeyRow, RowsFull;
    UniformRowStart(wire.automorphismB, kskDigits, |wire.automorphismB|);
    RowsEqual(ctx, seed, n, encryptor, first, |pub.automorphism| * kskDigits, pub.skSquared, got);
  }

  /** A row's a, spelled out: the `n` draws on [0, q] of the seed's stream from draw `at` on. */
  ghost predicate IsMask(ctx: QueryContext, seed: seq<byte>, n: nat, at: int, a: seq<int>)
    requires ctx.Valid()
  {
    var g := Generator(ctx.cipher(seed), 0, ctx.modulus);
    at >= 0 && Productive(g) && |a| == n && forall j :: 0 <= j < n ==> a[j] == Draw(g, at + j)
  }

  lemma MaskSpelledOut(ctx: QueryContext, seed: seq<byte>, n: nat, row: nat)
    requires ctx.Valid()
    ensures IsMask(ctx, seed, n, row * n, DrawSlice(KeyGen(ctx, seed), Drawn(row, n), n))
  {
    assert Productive(ctx.RingGen(seed));
    MulNonNegative(row, n);
  }

  /** What is sent, spelled out: digit d of level v is row v * digits + d of the stream, the rows of
      sk^2 come behind all levels, and of each row the b is sent. */
  lemma SentSpelledOut(ctx: QueryContext, seed: seq<byte>, n: nat, encryptor: RowEncryptor, first: nat, digits: nat,
                       pub: PublicMaterial, wire: SeededPublicMaterial, v: nat, d: nat)
    requires ctx.Valid() && KeyMaterial(ctx, seed, n, encryptor, first, digits, pub) && SentOf(seed, pub, wire)
    ensures wire.evalKeySeed == seed
    ensures |wire.automorphismB| == |pub.automorphism| && |wire.skSquaredB| == |pub.skSquared|
    ensures v < |pub.automorphism| ==> |wire.automorphismB[v]| == |pub.automorphism[v]| == digits
    ensures v < |pub.automorphism| && d < digits ==>
              var ct := pub.automorphism[v][d];
              && wire.automorphismB[v][d] == ct.b == encryptor(ct.a, v * digits + d, first + (v * digits + d))
              && IsMask(ctx, seed, n, (v * digits + d) * n, ct.a)
    ensures d < |pub.skSquared| ==>
              var ct, row := pub.skSquared[d], |pub.automorphism| * digits + d;
              && wire.skSquaredB[d] == ct.b == encryptor(ct.a, row, first + row)
              && IsMask(ctx, seed, n, row * n, ct.a)
  {
    hide IsMask, DrawSlice, Drawn, KeyGen;
    MulNonNegative(v, digits);
    if v < |pub.automorphism| && d < digits {
      assert KeyRow(ctx, seed, n, encryptor, first, v * digits + d, pub.automorphism[v][d]);
      MaskSpelledOut(ctx, seed, n, v * digits + d);
    }
    if d < |pub.skSquared| {
      MulNonNegative(|pub.automorphism|, digits);
      assert KeyRow(ctx, seed, n, encryptor, first, |pub.automorphism| * digits + d, pub.skSquared[d]);
      MaskSpelledOut(ctx, seed, n, |pub.automorphism| * digits + d);
    }
  }

  /** What is rebuilt, spelled out, for ragged levels. */
  lemma RebuiltSpelledOut(ctx: QueryContext, n: nat, wire: SeededPublicMaterial, pub: PublicMaterial, v: nat, d: nat)
    requires ctx.Valid() && MaterialLong(wire, n) && RebuiltFrom(ctx, n, wire, pub)
    ensures |pub.automorphism| == |wire.automorphismB| && |pub.skSquared| == |wire.skSquaredB|
    ensures v < |wire.automorphismB| && d < |wire.automorphismB[v]| ==>
              && |pub.automorphism[v]| == |wire.automorphismB[v]| && |wire.automorphismB[v][d]| >= n
              && IsMask(ctx, wire.evalKeySeed, n, (RowStart(wire.automorphismB, v) + d) * n, pub.automorphism[v][d].a)
              && pub.automorphism[v][d].b == wire.automorphismB[v][d][..n]
    ensures d < |wire.skSquaredB| ==>
              && |wire.skSquaredB[d]| >= n
              && IsMask(ctx, wire.evalKeySeed, n, (RowStart(wire.automorphismB, |wire.automorphismB|) + d) * n,
                        pub.skSquared[d].a)
              && pub.skSquared[d].b == wire.skSquaredB[d][..n]
  {
    hide IsMask, DrawSlice, Drawn, KeyGen, RowStart;
    if v < |wire.automorphismB| && d < |wire.automorphismB[v]| {
      assert RowsRebuilt(ctx, wire.evalKeySeed, n, RowStart(wire.automorphismB, v), wire.automorphismB[v],
                         pub.automorphism[v]);
      MaskSpelledOut(ctx, wire.evalKeySeed, n, RowStart(wire.automorphismB, v) + d);
    }
    if d < |wire.skSquaredB| {
      MaskSpelledOut(ctx, wire.evalKeySeed, n, RowStart(wire.automorphismB, |wire.automorphismB|) + d);
    }
  }

  /** What is rebuilt from what was sent is what was sent of. */
  lemma RebuiltIsSent(ctx: QueryContext, seed: seq<byte>, n: nat, encryptor: RowEncryptor, first: nat, kskDigits: nat,
                      pub: PublicMaterial, wire: SeededPublicMaterial, server: PublicMaterial)
    requires ctx.Valid() && KeyMaterial(ctx, seed, n, encryptor, first, kskDigits, pub) && SentOf(seed, pub, wire)
    requires RowEncryptorOf(encryptor, n)
    ensures MaterialLong(wire, n)
    ensures RebuiltFrom(ctx, n, wire, server) ==> server == pub
  {
    hide DrawSlice, KeyGen, RebuiltRow, RowsRebuilt, KeyRow, KeyMaterial, RowStart;
    MaterialFull(ctx, seed, n, encryptor, first, kskDigits, pub);
    if RebuiltFrom(ctx, n, wire, server) {
      forall v | 0 <= v < |pub.automorphism|
        ensures server.automorphism[v] == pub.automorphism[v]
      {
        LevelEqual(ctx, seed, n, encryptor, first, kskDigits, pub, wire, v, server.automorphism[v]);
      }
      SkSquaredEqual(ctx, seed, n, encryptor, first, kskDigits, pub, wire, server.skSquared);
      assert server.automorphism == pub.automorphism;
    }
  }

  /** Coefficient j of digit d at level v is draw (v * kskDigits + d) * n + j on both sides,
      and the sk^2 digits go on behind levels * kskDigits * n draws: the server's keys are
      the client's. */
  method KeyReplay(ctx: QueryContext, freshSeed: seq<byte>, key: RlweSecretKey,
                   levels: nat, kskDigits: nat, primeDigits: nat)
    returns (server: PublicMaterial, ghost client: PublicMaterial)
    requires ctx.Valid()
    requires RowEncryptorOf(key.encryptor, key.n)
    modifies key`dist, key`encryptions
    ensures key.dist == old(key.dist)
    ensures |client.automorphism| == levels && |client.skSquared| == primeDigits
    ensures KeyMaterial(ctx, freshSeed, key.n, key.encryptor, old(key.encryptions), kskDigits, client)
    ensures server == client
  {
    hide *;
    ghost var first := key.encryptions;
    var wire, pub := BuildSeededPublicMaterial(ctx, freshSeed, key, levels, kskDigits, primeDigits);
    client := pub;
    RebuiltIsSent(ctx, freshSeed, key.n, key.encryptor, first, kskDigits, pub, wire, pub);
    server := ReconstructPublicMaterial(ctx, key.n, wire);
    RebuiltIsSent(ctx, freshSeed, key.n, key.encryptor, first, kskDigits, pub, wire, server);
  }
}
