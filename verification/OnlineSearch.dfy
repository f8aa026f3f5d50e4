/** A search by a client of a running server (src/client_core.cpp, src/server_dispatch.cpp): it
    registers, queries among any other requests, and reads its best match off the reply. */
module OnlineSearch {
  import opened MachineInts
  import opened Codecs
  import opened Messages
  import opened Parameters
  import DbPolynomial
  import SeededDistribution
  import opened SeededQueries
  import SeededQueryReplay
  import opened SeededEvalKeys
  import QueryReplayTheorems
  import opened Scoring
  import opened EndToEnd
  import opened ServerDb
  import opened BestMatch
  import opened PrivateSearch
  import opened PrivateQuery
  import opened QueryProcessing
  import opened StreamCodecs
  import opened WireCodecs
  import opened WireProtocol
  import opened WireTheorems
  import opened Sessions
  import opened Dispatch

  // ---- The server ----------------------------------------------------------------------------

  /** What evaluation keys make of ciphertexts: a scheme for every key material. */
  type Evaluation = PublicMaterial -> Scheme

  /** The server rebuilds material as `ReconstructPublicMaterial` does, and processes queries as
      `ProcessQuery` does. */
  ghost predicate Serves(server: Server<PublicMaterial>, p: Params, ctx: QueryContext, dim: nat,
                         evaluation: Evaluation, db: ServerDatabase)
    requires Loaded(p, db) && ctx.Valid()
  {
    && (forall m: SeededPublicMaterial :: MaterialLong(m, p.n) ==> RebuildsAs(server, p, ctx, m))
    && (forall pub: PublicMaterial, wire: SeededQuery :: QueryFits(p, wire) ==>
          ProcessesAs(server, p, ctx, dim, evaluation, db, pub, wire))
  }

  ghost predicate RebuildsAs(server: Server<PublicMaterial>, p: Params, ctx: QueryContext, m: SeededPublicMaterial)
    requires ctx.Valid() && p.n >= 0 && MaterialLong(m, p.n)
  {
    server.reconstruct(m).Some? && RebuiltFrom(ctx, p.n, m, server.reconstruct(m).value)
  }

  ghost predicate ProcessesAs(server: Server<PublicMaterial>, p: Params, ctx: QueryContext, dim: nat,
                              evaluation: Evaluation, db: ServerDatabase, pub: PublicMaterial, wire: SeededQuery)
    requires Loaded(p, db) && ctx.Valid()
  {
    && server.process(pub, wire).Some?
    && Processed(p, ctx, dim, evaluation(pub), db, wire, server.process(pub, wire).value)
  }

  // ---- What fits the format ------------------------------------------------------------------

  /** Ciphertext coefficients are int64 values. */
  ghost predicate Int64Ciphertexts(encryptor: Encryptor, rowEncryptor: RowEncryptor, scheme: Scheme) {
    && (forall a: seq<int>, message: int, index: nat :: INT64_MIN <= encryptor(a, message, index) <= INT64_MAX)
    && (forall a: seq<int>, row: nat, index: nat :: Int64s(rowEncryptor(a, row, index)))
    && (forall k: nat, s: nat, v: Ct :: Int64s(scheme.seal(k, s, v).a) && Int64s(scheme.seal(k, s, v).b))
  }

  /** Every count of the parameters fits its prefix. */
  ghost predicate CountsFit(w: WireShape) {
    && w.n < COUNT_LIMIT && w.embeddingLength < COUNT_LIMIT && w.numClusters < COUNT_LIMIT
    && w.splitsPerCluster < COUNT_LIMIT && w.automorphismLevels < COUNT_LIMIT
    && w.kskDigits < COUNT_LIMIT && w.primeDigits < COUNT_LIMIT
  }

  // ---- The client ----------------------------------------------------------------------------

  /** Fresh evaluation keys under a session id, as a message. */
  method BuildRegistration(ctx: QueryContext, w: WireShape, id: SessionId, evalKeySeed: seq<byte>, key: RlweSecretKey)
    returns (bytes: seq<byte>, ghost material: SeededPublicMaterial, ghost client: PublicMaterial)
    requires ctx.Valid()
    modifies key`dist, key`encryptions
    ensures key.dist == old(key.dist)
    ensures |client.automorphism| == w.automorphismLevels && |client.skSquared| == w.primeDigits
    ensures KeyMaterial(ctx, evalKeySeed, key.n, key.encryptor, old(key.encryptions), w.kskDigits, client)
    ensures SentOf(evalKeySeed, client, material)
    ensures bytes == RegistrationBytes(RegistrationMessage(id, material))
  {
    hide KeyMaterial, SentOf, RegistrationWire;
    var wire, pub := BuildSeededPublicMaterial(ctx, evalKeySeed, key, w.automorphismLevels, w.kskDigits, w.primeDigits);
    material, client := wire, pub;
    bytes := SerializeRegistrationMessage(RegistrationMessage(id, wire));
  }

  /** A query under a session id, as a message. */
  method BuildQueryMessage(ctx: QueryContext, id: SessionId, gadget: LweGadgetKey, freshSeeds: seq<seq<byte>>,
                           values: seq<int64>, desired: int)
    returns (bytes: seq<byte>, ghost wire: SeededQuery)
    requires ctx.Valid() && |freshSeeds| == ctx.rings == |ctx.encodings|
    requires forall k :: 0 <= k < |freshSeeds| ==> |freshSeeds[k]| == SEED_BYTES
    modifies gadget.sk`dist, gadget.sk`encryptions
    ensures gadget.sk.dist == old(gadget.sk.dist)
    ensures var plan := QueryPlan(ctx, gadget.sk.dim, gadget.sk.encryptor, freshSeeds, values, desired,
                                  old(gadget.sk.encryptions));
            plan.Describes(wire)
    ensures bytes == QueryMessageBytes(QueryMessage(id, wire))
  {
    hide QueryMessageWire;
    var query := BuildSeededQuery(ctx, gadget, freshSeeds, values, desired);
    wire := query.value;
    bytes := SerializeQueryMessage(QueryMessage(id, query.value));
  }

  // ---- Both messages arrive -------------------------------------------------------------------

  lemma KeyRowsFit(ctx: QueryContext, seed: seq<byte>, n: nat, encryptor: RowEncryptor, first: nat, start: nat,
                   cts: seq<RlweCt>)
    requires ctx.Valid() && n < COUNT_LIMIT && |cts| < COUNT_LIMIT && RowsFull(cts, n)
    requires forall a: seq<int>, row: nat, index: nat :: Int64s(encryptor(a, row, index))
    requires forall d :: 0 <= d < |cts| ==> KeyRow(ctx, seed, n, encryptor, first, start + d, cts[d])
    ensures RowsFit(BRows(cts)) && Int64Rows(BRows(cts))
  {
    hide SeededDistribution.DrawSlice, Drawn, KeyGen, Int64s;
    forall d | 0 <= d < |cts|
      ensures Int64s(BRows(cts)[d])
    {
      assert KeyRow(ctx, seed, n, encryptor, first, start + d, cts[d]);
    }
  }

  lemma LevelRows(ctx: QueryContext, seed: seq<byte>, n: nat, encryptor: RowEncryptor, first: nat, digits: nat,
                  client: PublicMaterial, v: nat)
    requires ctx.Valid() && KeyMaterial(ctx, seed, n, encryptor, first, digits, client) && v < |client.automorphism|
    ensures |client.automorphism[v]| == digits
    ensures forall d :: 0 <= d < digits ==>
              KeyRow(ctx, seed, n, encryptor, first, v * digits + d, client.automorphism[v][d])
  {
    hide KeyRow;
  }

  lemma SkSquaredRows(ctx: QueryContext, seed: seq<byte>, n: nat, encryptor: RowEncryptor, first: nat, digits: nat,
                      client: PublicMaterial)
    requires ctx.Valid() && KeyMaterial(ctx, seed, n, encryptor, first, digits, client)
    ensures forall d :: 0 <= d < |client.skSquared| ==>
              KeyRow(ctx, seed, n, encryptor, first, |client.automorphism| * digits + d, client.skSquared[d])
  {
    hide KeyRow;
  }

  lemma RegistrationArrives(w: WireShape, id: SessionId, seed: seq<byte>, n: nat, encryptor: RowEncryptor,
                            ctx: QueryContext, first: nat, client: PublicMaterial, material: SeededPublicMaterial)
    requires ctx.Valid() && w.n == n && CountsFit(w) && RowEncryptorOf(encryptor, n)
    requires |id| == SESSION_ID_BYTES && |seed| == SEED_BYTES
    requires forall a: seq<int>, row: nat, index: nat :: Int64s(encryptor(a, row, index))
    requires |client.automorphism| == w.automorphismLevels && |client.skSquared| == w.primeDigits
    requires KeyMaterial(ctx, seed, n, encryptor, first, w.kskDigits, client) && SentOf(seed, client, material)
    ensures DecodedRegistration(RegistrationBytes(RegistrationMessage(id, material)))
            == Some(RegistrationMessage(id, material))
  {
    hide KeyMaterial, KeyRow, RowsFull, RegistrationBytes, DecodedRegistration, Int64Rows, RowsFit;
    MaterialFull(ctx, seed, n, encryptor, first, w.kskDigits, client);
    forall v | 0 <= v < |material.automorphismB|
      ensures RowsFit(material.automorphismB[v]) && Int64Rows(material.automorphismB[v])
    {
      LevelRows(ctx, seed, n, encryptor, first, w.kskDigits, client, v);
      KeyRowsFit(ctx, seed, n, encryptor, first, v * w.kskDigits, client.automorphism[v]);
    }
    SkSquaredRows(ctx, seed, n, encryptor, first, w.kskDigits, client);
    KeyRowsFit(ctx, seed, n, encryptor, first, |client.automorphism| * w.kskDigits, client.skSquared);
    var m := RegistrationMessage(id, material);
    RegistrationRoundTrip(m, []);
    assert RegistrationBytes(m) + [] == RegistrationBytes(m);
  }

  lemma QueryArrives(w: WireShape, id: SessionId, plan: QueryPlan, wire: SeededQuery)
    requires plan.Valid() && plan.Describes(wire) && CountsFit(w)
    requires QueryReplayTheorems.SameParameters(w, plan.ctx, |plan.values|)
    requires |id| == SESSION_ID_BYTES && forall k :: 0 <= k < |plan.seeds| ==> |plan.seeds[k]| == SEED_BYTES
    requires forall a: seq<int>, message: int, index: nat ::
               INT64_MIN <= plan.encryptor(a, message, index) <= INT64_MAX
    ensures DecodedQueryMessage(QueryMessageBytes(QueryMessage(id, wire))) == Some(QueryMessage(id, wire))
  {
    hide SeededDistribution.DrawSlice, Drawn, QueryMessageBytes, DecodedQueryMessage;
    forall k | 0 <= k < |wire.embeddingB|
      ensures |wire.embeddingB[k]| == w.embeddingLength && Int64s(wire.embeddingB[k])
    {
      assert wire.embeddingB[k] == plan.EmbeddingRow(k, |plan.values|);
    }
    forall c | 0 <= c < |wire.selectorB|
      ensures |wire.selectorB[c]| == w.primeDigits && Int64s(wire.selectorB[c])
    {
      assert wire.selectorB[c] == plan.SelectorRow(c, plan.ctx.digits);
    }
    var m := QueryMessage(id, wire);
    QueryMessageRoundTrip(m, []);
    assert QueryMessageBytes(m) + [] == QueryMessageBytes(m);
  }

  // ---- The reply -------------------------------------------------------------------------------

  lemma SealedArrives(p: Params, ctx: QueryContext, w: WireShape, encryptor: Encryptor, rowEncryptor: RowEncryptor,
                      scheme: Scheme, job: RingJob)
    requires SameSystem(p, ctx, w) && Correct(p, ctx, w, encryptor, scheme)
    requires Int64Ciphertexts(encryptor, rowEncryptor, scheme) && CountsFit(w)
    requires job.Valid() && job.splits == p.splitsPerCluster
    ensures p.n >= 0
    ensures Decoded(ResponseWire(p.n), ResponseWire(p.n).enc(CtTuples(Sealed(scheme, job))))
            == Some(CtTuples(Sealed(scheme, job)))
    ensures CtsOf(CtTuples(Sealed(scheme, job))) == Sealed(scheme, job)
  {
    hide RingJob.Valid, RingJob.Result, ResponseWire;
    var cts := Sealed(scheme, job);
    ResponseRoundTrip(p.n, cts, [], []);
    assert ResponseWire(p.n).enc(CtTuples(cts)) + [] == ResponseWire(p.n).enc(CtTuples(cts));
  }

  /** The client's reading of a response to its query. */
  method ReadBestMatch(p: Params, ghost ctx: QueryContext, ghost w: WireShape, ghost scheme: Scheme,
                       open: (nat, RlweCt) -> Ct, ghost rowEncryptor: RowEncryptor, ghost db: ServerDatabase,
                       ghost plan: QueryPlan, ghost raw: seq<int>, ghost wire: SeededQuery, bytes: seq<byte>)
    returns (best: ClientQueryResult)
    requires Loaded(p, db) && SameSystem(p, ctx, w) && Correct(p, ctx, w, plan.encryptor, scheme) && CountsFit(w)
    requires Int64Ciphertexts(plan.encryptor, rowEncryptor, scheme) && scheme.open == open
    requires plan.Valid() && plan.ctx == ctx && plan.Describes(wire) && 0 <= plan.desired < p.numClusters
    requires |raw| == p.embeddingLength && DbPolynomial.InRange(raw, p.embeddingPrecision)
    requires CanonicalEmbedding(p, raw, plan.values)
    requires Processed(p, ctx, plan.dim, scheme, db, wire, bytes)
    ensures BestSoFar(p.n, SlotScores(db, plan.desired, raw, GlobalIndex(p.splitsPerCluster, p.n, 0)), best)
  {
    hide Correct, CanonicalEmbedding, Int64Ciphertexts, CountsFit, SeededQueryReplay.Replays, QueryPlan.Describes,
      RingHolds, AllWithin, RingJob.Valid, RingJob.Result, ResponseWire, JobOver, JobFor, DatabaseShape,
      DatabaseInRange, DbPolynomial.InRange, BestSoFar, GlobalIndex, AllSplits;
    ghost var rebuilt, job :| Responds(p, ctx, plan.dim, scheme, db, wire, bytes, rebuilt, job);
    JobOverSize(p, scheme, db, rebuilt, job);
    JobIsForQuery(p, ctx, w, scheme, db, plan, raw, wire, rebuilt, job);
    ValidatedDatabase(db, p);
    ghost var all := AllSplits(db, p);
    SumsHold(p, all, raw, plan.desired, job);
    SealedArrives(p, ctx, w, plan.encryptor, rowEncryptor, scheme, job);
    var response := DeserializeQueryResponse(p.n, bytes);
    var cts := response.value;
    forall s | 0 <= s < job.splits
      ensures scheme.open(0, Sealed(scheme, job)[s]) == Sums(job)[s]
    {
      OpenedSums(p, ctx, w, plan.encryptor, scheme, all, raw, plan.desired, job, s);
    }
    var residues := seq(|cts|, s requires 0 <= s < |cts| => open(0, cts[s]));
    assert residues == Sums(job);
    DecodedScores(p, db, raw, plan.desired, residues);
    HeldResidues(p, all, raw, plan.desired, 0, residues);
    best := DecryptAndFindBest(residues, p.n, p.plaintextModulus);
  }

  lemma JobOverSize(p: Params, scheme: Scheme, db: ServerDatabase, rebuilt: SeededQueryReplay.ReconstructedQuery,
                    job: RingJob)
    requires Loaded(p, db) && JobOver(p, scheme, db, rebuilt, job)
    ensures job.n == p.n && job.splits == p.splitsPerCluster
  {
  }

  // ---- The whole exchange ------------------------------------------------------------------------

  /** Evaluation keys that a key makes on a seed. */
  ghost predicate IsClients(ctx: QueryContext, w: WireShape, n: nat, encryptor: RowEncryptor, first: nat,
                            seed: seq<byte>, client: PublicMaterial)
    requires ctx.Valid()
  {
    && |client.automorphism| == w.automorphismLevels && |client.skSquared| == w.primeDigits
    && KeyMaterial(ctx, seed, n, encryptor, first, w.kskDigits, client)
  }

  /** The server registers the very keys the client made. */
  lemma RegisteredClients(server: Server<PublicMaterial>, p: Params, ctx: QueryContext, w: WireShape, dim: nat,
                          evaluation: Evaluation, db: ServerDatabase, id: SessionId, seed: seq<byte>,
                          encryptor: RowEncryptor, first: nat, client: PublicMaterial, material: SeededPublicMaterial)
    requires Loaded(p, db) && SameSystem(p, ctx, w) && CountsFit(w) && Serves(server, p, ctx, dim, evaluation, db)
    requires RowEncryptorOf(encryptor, w.n) && forall a: seq<int>, row: nat, e: nat :: Int64s(encryptor(a, row, e))
    requires |id| == SESSION_ID_BYTES && |seed| == SEED_BYTES
    requires IsClients(ctx, w, w.n, encryptor, first, seed, client) && SentOf(seed, client, material)
    ensures RegisteredBy(server, Message(Registration, RegistrationBytes(RegistrationMessage(id, material))), id,
                         client)
  {
    hide DecodedRegistration, RegistrationBytes, KeyMaterial, SentOf, RowEncryptorOf, AllWithin, MaterialLong,
      RebuiltFrom, ProcessesAs, CountsFit;
    RegistrationArrives(w, id, seed, w.n, encryptor, ctx, first, client, material);
    RebuiltIsSent(ctx, seed, w.n, encryptor, first, w.kskDigits, client, material, client);
    assert RebuildsAs(server, p, ctx, material);
    RebuiltIsSent(ctx, seed, w.n, encryptor, first, w.kskDigits, client, material,
                  server.reconstruct(material).value);
  }

  lemma Acknowledged(server: Server<PublicMaterial>, history: seq<Event<PublicMaterial>>, ttl: int, message: Message,
                     now: int, id: SessionId, client: PublicMaterial)
    requires RegisteredBy(server, message, id, client)
    ensures Answered(server, history, ttl, message, now) == Reply(Message(RegistrationAck, []))
  {
    hide DecodedRegistration;
  }

  lemma DescribedFits(p: Params, ctx: QueryContext, w: WireShape, plan: QueryPlan, wire: SeededQuery)
    requires SameSystem(p, ctx, w) && ctx.rings == 1 && plan.Valid() && plan.ctx == ctx && plan.Describes(wire)
    requires |plan.values| == p.embeddingLength
    ensures QueryFits(p, wire)
  {
    assert wire.embeddingB[0] == plan.EmbeddingRow(0, |plan.values|);
  }

  /** ... and answers the client's query under them. */
  lemma QueryIsProcessed(server: Server<PublicMaterial>, p: Params, ctx: QueryContext, w: WireShape,
                         evaluation: Evaluation, db: ServerDatabase, plan: QueryPlan, wire: SeededQuery, id: SessionId,
                         client: PublicMaterial, before: seq<Request>, registration: Request, between: seq<Request>,
                         now: int, ttl: int)
    requires Loaded(p, db) && SameSystem(p, ctx, w) && CountsFit(w)
    requires Serves(server, p, ctx, plan.dim, evaluation, db)
    requires plan.Valid() && plan.ctx == ctx && plan.Describes(wire) && |plan.values| == p.embeddingLength
    requires |id| == SESSION_ID_BYTES && forall k :: 0 <= k < |plan.seeds| ==> |plan.seeds[k]| == SEED_BYTES
    requires forall a: seq<int>, message: int, e: nat :: INT64_MIN <= plan.encryptor(a, message, e) <= INT64_MAX
    requires RegisteredBy(server, registration.message, id, client)
    requires forall i :: 0 <= i < |between| ==> !CarriesRegistration(between[i].message, id)
    requires Steady([registration.time] + QueryTimes(between, id) + [now], ttl)
    ensures var reply := Answered(server, History(server, before + [registration] + between), ttl,
                                  Message(Query, QueryMessageBytes(QueryMessage(id, wire))), now);
            && reply.Reply? && reply.message.kind == QueryResponse
            && Processed(p, ctx, plan.dim, evaluation(client), db, wire, reply.message.payload)
  {
    hide Answered, History, QueryMessageBytes, Steady, QueryTimes, QueryPlan.Describes, RegisteredBy, QueryFits,
      CarriesRegistration, DecodedQueryMessage, AllWithin, CountsFit, Processed, RebuildsAs;
    QueryArrives(w, id, plan, wire);
    DescribedFits(p, ctx, w, plan, wire);
    assert ProcessesAs(server, p, ctx, plan.dim, evaluation, db, client, wire);
    LiveQueryProcessed(server, before, registration, between, id, client, wire,
                       QueryMessageBytes(QueryMessage(id, wire)), now, ttl);
  }

  /** A client registers with a server that has served and goes on serving any other requests, and
      queries later. If it was never silent for longer than the lifetime and nobody registered
      its id again, what it reads off the reply is the first slot of greatest score in the
      desired cluster. */
  method SearchOnline(p: Params, ctx: QueryContext, w: WireShape, ghost evaluation: Evaluation,
                      open: (nat, RlweCt) -> Ct, server: Server<PublicMaterial>, ttl: int, ghost db: ServerDatabase,
                      key: RlweSecretKey, gadget: LweGadgetKey, id: SessionId, raw: seq<int>, desired: nat,
                      evalKeySeed: seq<byte>, freshSeeds: seq<seq<byte>>,
                      before: seq<Request>, registered: int, between: seq<Request>, asked: int)
    returns (acknowledgement: Reply, best: ClientQueryResult)
    requires Loaded(p, db) && SameSystem(p, ctx, w) && CountsFit(w)
    requires Serves(server, p, ctx, gadget.sk.dim, evaluation, db)
    requires key.n == w.n && RowEncryptorOf(key.encryptor, key.n)
    requires forall client: PublicMaterial ::
               IsClients(ctx, w, key.n, key.encryptor, key.encryptions, evalKeySeed, client) ==>
                 EvaluatesFor(p, ctx, w, gadget.sk.encryptor, key.encryptor, evaluation(client), open)
    requires |id| == SESSION_ID_BYTES && |evalKeySeed| == SEED_BYTES
    requires |freshSeeds| == 1 && |freshSeeds[0]| == SEED_BYTES
    requires |raw| == p.embeddingLength && DbPolynomial.InRange(raw, p.embeddingPrecision) && desired < p.numClusters
    requires forall i :: 0 <= i < |between| ==> !CarriesRegistration(between[i].message, id)
    requires Steady([registered] + QueryTimes(between, id) + [asked], ttl)
    modifies key`dist, key`encryptions, gadget.sk`dist, gadget.sk`encryptions
    ensures key.dist == old(key.dist) && gadget.sk.dist == old(gadget.sk.dist)
    ensures acknowledgement == Reply(Message(RegistrationAck, []))
    ensures BestSoFar(p.n, SlotScores(db, desired, raw, GlobalIndex(p.splitsPerCluster, p.n, 0)), best)
  {
    hide Loaded, CountsFit, Serves, RowEncryptorOf, Steady, QueryTimes, CarriesRegistration, BestSoFar, SlotScores,
      GlobalIndex, KeyMaterial, SentOf, RegistrationBytes, QueryMessageBytes, QueryPlan.Describes, Answered, History,
      CanonicalEmbedding, DbPolynomial.InRange, Correct, Processed, Ready, RegisteredBy;
    OneRing(p, ctx, w, db);
    ghost var first := key.encryptions;
    var registration, material, client := BuildRegistration(ctx, w, id, evalKeySeed, key);
    assert IsClients(ctx, w, key.n, key.encryptor, first, evalKeySeed, client);
    assert EvaluatesFor(p, ctx, w, gadget.sk.encryptor, key.encryptor, evaluation(client), open);
    var values := CanonicalizeEmbedding(p, raw);
    CanonicalLength(p, raw, values);
    ghost var plan := QueryPlan(ctx, gadget.sk.dim, gadget.sk.encryptor, freshSeeds, values, desired,
                                gadget.sk.encryptions);
    var query, wire := BuildQueryMessage(ctx, id, gadget, freshSeeds, values, desired);
    var first' := Request(Message(Registration, registration), registered);
    var last := Request(Message(Query, query), asked);
    var requests := before + [first'] + between + [last];
    var replies := Serve(server, ttl, requests);
    assert requests[..|requests| - 1] == before + [first'] + between;
    RegisteredClients(server, p, ctx, w, gadget.sk.dim, evaluation, db, id, evalKeySeed, key.encryptor, first, client,
                      material);
    QueryIsProcessed(server, p, ctx, w, evaluation, db, plan, wire, id, client, before, first', between, asked, ttl);
    acknowledgement := replies[|before|];
    assert requests[..|before|] == before && requests[|before|] == first';
    Acknowledged(server, History(server, before), ttl, first'.message, registered, id, client);
    var reply := replies[|replies| - 1];
    best := ReadBestMatch(p, ctx, w, evaluation(client), open, key.encryptor, db, plan, raw, wire,
                          reply.message.payload);
  }

  /** A scheme that is right for this client, and decrypts as it does. */
  ghost predicate EvaluatesFor(p: Params, ctx: QueryContext, w: WireShape, encryptor: Encryptor,
                               rowEncryptor: RowEncryptor, scheme: Scheme, open: (nat, RlweCt) -> Ct)
    requires SameSystem(p, ctx, w)
  {
    Correct(p, ctx, w, encryptor, scheme) && Int64Ciphertexts(encryptor, rowEncryptor, scheme) && scheme.open == open
  }

  lemma OneRing(p: Params, ctx: QueryContext, w: WireShape, db: ServerDatabase)
    requires Loaded(p, db) && SameSystem(p, ctx, w)
    ensures Ready(p) && ctx.rings == |ctx.encodings| == 1
  {
  }
}
