/** The evaluation keys' way from client to server: what the server rebuilds from the packed
    stream is what the client encrypted. */
module KeyReplayTheorems {
  import opened MachineInts
  import opened Messages
  import opened Ragged
  import SeededDistribution
  import opened SeededQueries
  import opened SeededEvalKeys
  import opened StreamCodecs
  import opened StreamPacking
  import StreamTheorems

  /** `got` has the masks of `sent`, and its b-polynomials reduced to [0, q). */
  ghost predicate Reduced(sent: seq<RlweCt>, got: seq<RlweCt>, q: int)
    requires q > 0
  {
    && |got| == |sent|
    && forall d :: 0 <= d < |sent| ==> got[d] == RlweCt(sent[d].a, CanonicalRow(sent[d].b, q))
  }

  lemma RowsReduced(ctx: QueryContext, seed: seq<byte>, n: nat, encryptor: RowEncryptor, first: nat, start: nat,
                    q: int, sent: seq<RlweCt>, got: seq<RlweCt>)
    requires ctx.Valid() && q > 0 && RowsFull(sent, n)
    requires LongEnough(CanonicalRows(BRows(sent), q), n)
    requires RowsRebuilt(ctx, seed, n, start, CanonicalRows(BRows(sent), q), got)
    requires forall d :: 0 <= d < |sent| ==> KeyRow(ctx, seed, n, encryptor, first, start + d, sent[d])
    ensures Reduced(sent, got, q)
  {
    hide Canonical, SeededDistribution.DrawSlice, Drawn;
    var rows := CanonicalRows(BRows(sent), q);
    forall d | 0 <= d < |sent|
      ensures got[d] == RlweCt(sent[d].a, CanonicalRow(sent[d].b, q))
    {
      assert got[d] == RebuiltRow(ctx, seed, n, start + d, rows[d]);
      assert KeyRow(ctx, seed, n, encryptor, first, start + d, sent[d]);
      assert rows[d][..n] == rows[d];
    }
  }

  lemma SentHasShape(w: WireShape, seed: seq<byte>, pub: PublicMaterial, wire: SeededPublicMaterial)
    requires w.Valid() && |seed| == SEED_BYTES && SentOf(seed, pub, wire)
    requires |pub.automorphism| == w.automorphismLevels && |pub.skSquared| == w.primeDigits
    requires forall v :: 0 <= v < |pub.automorphism| ==>
               |pub.automorphism[v]| == w.kskDigits && RowsFull(pub.automorphism[v], w.n)
    requires RowsFull(pub.skSquared, w.n)
    ensures KeysHaveShape(w, wire)
  {
    forall v | 0 <= v < |wire.automorphismB|
      ensures RowsHaveShape(wire.automorphismB[v], w.kskDigits, w.n)
    {
      assert RowsFull(pub.automorphism[v], w.n);
    }
  }

  /** The material that arrives is uniform: level v starts at row v * kskDigits. */
  lemma LevelReduced(ctx: QueryContext, seed: seq<byte>, w: WireShape, encryptor: RowEncryptor, first: nat,
                     pub: PublicMaterial, wire: SeededPublicMaterial, received: SeededPublicMaterial,
                     v: nat, got: seq<RlweCt>)
    requires ctx.Valid() && w.Valid() && SentOf(seed, pub, wire) && received == CanonicalKeys(w, wire)
    requires KeyMaterial(ctx, seed, w.n, encryptor, first, w.kskDigits, pub)
    requires v < |pub.automorphism| && RowsFull(pub.automorphism[v], w.n)
    requires LongEnough(received.automorphismB[v], w.n)
    requires RowsRebuilt(ctx, seed, w.n, RowStart(received.automorphismB, v), received.automorphismB[v], got)
    ensures Reduced(pub.automorphism[v], got, w.q)
  {
    hide RowsRebuilt, KeyRow, RowsFull, CanonicalRow;
    UniformRowStart(received.automorphismB, w.kskDigits, v);
    RowsReduced(ctx, seed, w.n, encryptor, first, v * w.kskDigits, w.q, pub.automorphism[v], got);
  }

  lemma SkSquaredReduced(ctx: QueryContext, seed: seq<byte>, w: WireShape, encryptor: RowEncryptor, first: nat,
                         pub: PublicMaterial, wire: SeededPublicMaterial, received: SeededPublicMaterial,
                         got: seq<RlweCt>)
    requires ctx.Valid() && w.Valid() && SentOf(seed, pub, wire) && received == CanonicalKeys(w, wire)
    requires KeyMaterial(ctx, seed, w.n, encryptor, first, w.kskDigits, pub)
    requires RowsFull(pub.skSquared, w.n) && LongEnough(received.skSquaredB, w.n)
    requires RowsRebuilt(ctx, seed, w.n, RowStart(received.automorphismB, |received.automorphismB|),
                         received.skSquaredB, got)
    ensures Reduced(pub.skSquared, got, w.q)
  {
    hide RowsRebuilt, KeyRow, RowsFull, CanonicalRow;
    UniformRowStart(received.automorphismB, w.kskDigits, |received.automorphismB|);
    RowsReduced(ctx, seed, w.n, encryptor, first, |pub.automorphism| * w.kskDigits, w.q, pub.skSquared, got);
  }

  lemma ReceivedLongEnough(w: WireShape, wire: SeededPublicMaterial)
    requires w.Valid() && KeysHaveShape(w, wire)
    ensures var received := CanonicalKeys(w, wire);
            && (forall v :: 0 <= v < |received.automorphismB| ==> LongEnough(received.automorphismB[v], w.n))
            && LongEnough(received.skSquaredB, w.n)
  {
  }

  /** The keys' whole way: encrypt and compress, pack, unpack, rebuild. Every row the server
      holds has the client's a, and the client's b modulo q; the client's key has its own
      distribution back. */
  method SendKeys(ctx: QueryContext, w: WireShape, freshSeed: seq<byte>, key: RlweSecretKey)
    returns (server: PublicMaterial, ghost client: PublicMaterial)
    requires ctx.Valid() && w.Valid() && w.n == key.n && |freshSeed| == SEED_BYTES
    requires RowEncryptorOf(key.encryptor, key.n)
    modifies key`dist, key`encryptions
    ensures key.dist == old(key.dist)
    ensures |client.automorphism| == w.automorphismLevels && |client.skSquared| == w.primeDigits
    ensures KeyMaterial(ctx, freshSeed, key.n, key.encryptor, old(key.encryptions), w.kskDigits, client)
    ensures |server.automorphism| == |client.automorphism|
    ensures forall v :: 0 <= v < |client.automorphism| ==>
              Reduced(client.automorphism[v], server.automorphism[v], w.q)
    ensures Reduced(client.skSquared, server.skSquared, w.q)
  {
    hide Drawn, SeededDistribution.Productive, SeededDistribution.DrawSlice, StreamAt, KeyGen, RebuiltRow,
      RowsRebuilt, KeyRow, RowStart, KeysHaveShape, PackedKeys, UnpackedKeys, CanonicalRow, Reduced, CanonicalKeys,
      RowEncryptorOf, LongEnough, RowsFull;
    ghost var first := key.encryptions;
    var wire, pub := BuildSeededPublicMaterial(ctx, freshSeed, key, w.automorphismLevels, w.kskDigits, w.primeDigits);
    client := pub;
    MaterialFull(ctx, freshSeed, key.n, key.encryptor, first, w.kskDigits, pub);
    SentHasShape(w, freshSeed, pub, wire);
    var stream := PackPublicMaterial(w, wire);
    StreamTheorems.KeysRoundTrip(w, wire);
    var received := UnpackPublicMaterial(w, stream.value);
    ReceivedLongEnough(w, wire);
    ReceivedSeed(w, wire);
    server := ReconstructPublicMaterial(ctx, key.n, received.value);
    forall v | 0 <= v < |pub.automorphism|
      ensures Reduced(pub.automorphism[v], server.automorphism[v], w.q)
    {
      LevelReduced(ctx, freshSeed, w, key.encryptor, first, pub, wire, received.value, v, server.automorphism[v]);
    }
    SkSquaredReduced(ctx, freshSeed, w, key.encryptor, first, pub, wire, received.value, server.skSquared);
  }

  lemma ReceivedSeed(w: WireShape, wire: SeededPublicMaterial)
    requires w.Valid()
    ensures CanonicalKeys(w, wire).evalKeySeed == wire.evalKeySeed
    ensures |CanonicalKeys(w, wire).automorphismB| == |wire.automorphismB|
  {
  }
}
