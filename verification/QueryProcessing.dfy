/** The server's processing of a query from a length-prefixed message, with one component ring
    (src/server_query_processing.cpp), and what its response stands for. */
module QueryProcessing {
  import opened MachineInts
  import opened Messages
  import opened Parameters
  import DbPolynomial
  import Schedules
  import opened SeededQueries
  import opened SeededQueryReplay
  import QueryReplayTheorems
  import opened Scoring
  import ParallelScoring
  import opened EndToEnd
  import opened ServerDb
  import opened PrivateSearch
  import opened PrivateQuery
  import WireCodecs
  import WireProtocol
  import StreamCodecs

  /** A ciphertext for every coordinate and a selector for every cluster. */
  ghost predicate QueryFits(p: Params, wire: SeededQuery) {
    && |wire.seeds| == |wire.embeddingB| == 1
    && |wire.embeddingB[0]| == p.embeddingLength
    && |wire.selectorB| == p.numClusters
  }

  ghost predicate SealsFit(p: Params, scheme: Scheme) {
    forall k: nat, s: nat, v: Ct :: |scheme.seal(k, s, v).a| == |scheme.seal(k, s, v).b| == p.n
  }

  /** The job of scoring a database for a rebuilt query. */
  ghost predicate JobOver(p: Params, scheme: Scheme, db: ServerDatabase, rebuilt: ReconstructedQuery, job: RingJob)
    requires Loaded(p, db)
  {
    && job.n == p.n && job.q == p.q && job.p == p.plaintextModulus && job.splits == p.splitsPerCluster
    && |rebuilt.embeddingCts| == 1 && |job.query| == |rebuilt.embeddingCts[0]|
    && (forall j :: 0 <= j < |job.query| ==> job.query[j] == scheme.value(0, rebuilt.embeddingCts[0][j]))
    && |job.bits| == |rebuilt.selectorCts|
    && (forall c :: 0 <= c < |job.bits| ==> job.bits[c] == scheme.bit(rebuilt.selectorCts[c]))
    && JobStores(p, AllSplits(db, p), job)
  }

  ghost predicate JobStores(p: Params, all: Database, job: RingJob)
    requires p.q > 0
  {
    && |job.db| == |all|
    && (forall c :: 0 <= c < |all| ==> |job.db[c]| == |all[c]|)
    && (forall c, s :: 0 <= c < |all| && 0 <= s < |all[c]| ==> StoredSplit(p, all[c][s], job.db[c][s]))
  }

  /** One ciphertext per split. */
  ghost function Sealed(scheme: Scheme, job: RingJob): (cts: seq<RlweCt>)
    requires job.Valid()
    ensures |cts| == job.splits
    ensures forall s :: 0 <= s < |cts| ==> cts[s] == scheme.seal(0, s, job.Result(s))
  {
    seq(job.splits, s requires 0 <= s < job.splits => scheme.seal(0, s, job.Result(s)))
  }

  ghost predicate Responds(p: Params, ctx: QueryContext, dim: nat, scheme: Scheme, db: ServerDatabase,
                           wire: SeededQuery, bytes: seq<byte>, rebuilt: ReconstructedQuery, job: RingJob)
    requires Loaded(p, db) && ctx.Valid()
  {
    && Replays(ctx, dim, wire, rebuilt) && JobOver(p, scheme, db, rebuilt, job) && job.Valid()
    && bytes == WireCodecs.ResponseWire(p.n).enc(WireProtocol.CtTuples(Sealed(scheme, job)))
  }

  /** The bytes of the database's scores for the replayed query. */
  ghost predicate Processed(p: Params, ctx: QueryContext, dim: nat, scheme: Scheme, db: ServerDatabase,
                            wire: SeededQuery, bytes: seq<byte>)
    requires Loaded(p, db) && ctx.Valid()
  {
    exists rebuilt, job :: Responds(p, ctx, dim, scheme, db, wire, bytes, rebuilt, job)
  }

  lemma ShapesAgree(p: Params, db: ServerDatabase, job: RingJob)
    requires Loaded(p, db) && JobStores(p, AllSplits(db, p), job)
    requires job.n == p.n && job.q == p.q && job.p == p.plaintextModulus && job.splits == p.splitsPerCluster
    requires |job.query| == p.embeddingLength && |job.bits| == p.numClusters
    ensures job.Valid()
  {
    hide DbPolynomial.StoredPolynomial, SplitRows, GlobalIndex;
    ValidatedDatabase(db, p);
    var all := AllSplits(db, p);
    forall c, s | 0 <= c < |job.db| && 0 <= s < job.splits
      ensures job.SplitFits(job.db[c][s])
    {
      assert SplitShape(p, all[c][s]) && StoredSplit(p, all[c][s], job.db[c][s]);
    }
  }

  lemma ReplayedShape(ctx: QueryContext, dim: nat, wire: SeededQuery, rebuilt: ReconstructedQuery)
    requires ctx.Valid() && ctx.rings == 1 && Replays(ctx, dim, wire, rebuilt)
    ensures |rebuilt.embeddingCts| == 1 && |rebuilt.embeddingCts[0]| == |wire.embeddingB[0]|
    ensures |rebuilt.selectorCts| == |wire.selectorB|
  {
    assert RowReplays(ctx, wire.seeds[0], dim, 0, wire.embeddingB[0], rebuilt.embeddingCts[0]);
  }

  /** One ring's share of a stored database. */
  method FirstRing(p: Params, db: ServerDatabase, stored: StoredForm) returns (out: seq<seq<seq<seq<int>>>>)
    requires Loaded(p, db) && StoredDatabase(p, AllSplits(db, p), stored)
    ensures forall job: RingJob :: job.db == out ==> JobStores(p, AllSplits(db, p), job)
  {
    hide StoredSplit, AllSplits, AllWithin;
    out := RingDatabase(p, AllSplits(db, p), stored, 0);
  }

  /** Rebuilding, scoring under any interleaving, masking, summing, and writing the response. */
  method ProcessQuery(p: Params, ctx: QueryContext, dim: nat, scheme: Scheme, db: ServerDatabase, wire: SeededQuery,
                      replay: seq<nat>, turns: seq<nat>)
    returns (bytes: seq<byte>)
    requires Loaded(p, db) && ctx.Valid() && ctx.rings == 1 && QueryFits(p, wire) && SealsFit(p, scheme)
    requires Schedules.Interleaves(replay, RingSteps(wire.embeddingB, dim))
    requires ParallelScoring.IsInterleaving(turns, p.numClusters * p.splitsPerCluster)
    ensures Processed(p, ctx, dim, scheme, db, wire, bytes)
  {
    hide Schedules.Interleaves, RingSteps, ParallelScoring.IsInterleaving, StoredDatabase, AllWithin, Replays,
      JobStores, RingJob.Result, AllSplits, WireCodecs.ResponseWire, RingJob.Valid;
    var rebuilt := ReconstructQuery(ctx, dim, wire, replay);
    ReplayedShape(ctx, dim, wire, rebuilt.value);
    var query := seq(|rebuilt.value.embeddingCts[0]|,
                     j requires 0 <= j < |rebuilt.value.embeddingCts[0]| =>
                       scheme.value(0, rebuilt.value.embeddingCts[0][j]));
    var bits := seq(|rebuilt.value.selectorCts|,
                    c requires 0 <= c < |rebuilt.value.selectorCts| => scheme.bit(rebuilt.value.selectorCts[c]));
    var stored := StoreDatabase(p, db);
    var splits := FirstRing(p, db, stored);
    var job := RingJob(p.n, p.q, p.plaintextModulus, query, bits, splits, p.splitsPerCluster);
    ShapesAgree(p, db, job);
    var result := ScoreRing(job, turns);
    var sums := result[..];
    var cts := seq(|sums|, s requires 0 <= s < |sums| => scheme.seal(0, s, sums[s]));
    assert cts == Sealed(scheme, job);
    bytes := WireProtocol.SerializeQueryResponse(p.n, cts);
    assert Responds(p, ctx, dim, scheme, db, wire, bytes, rebuilt.value, job);
  }

  // ---- What the response holds -------------------------------------------------------------------

  ghost function Sums(job: RingJob): (sums: seq<Ct>)
    requires job.Valid()
    ensures |sums| == job.splits
    ensures forall s :: 0 <= s < |sums| ==> sums[s] == job.Result(s)
  {
    seq(job.splits, s requires 0 <= s < job.splits => job.Result(s))
  }

  lemma RowsCongruentToThemselves(rows: seq<seq<int>>, q: int)
    requires q > 0
    ensures QueryReplayTheorems.RowsCongruent(rows, rows, q)
  {
  }

  /** The job of a client's query computes on the residues and the bits the client meant. */
  lemma JobIsForQuery(p: Params, ctx: QueryContext, w: StreamCodecs.WireShape, scheme: Scheme, db: ServerDatabase,
                      plan: QueryPlan, raw: seq<int>, wire: SeededQuery, rebuilt: ReconstructedQuery, job: RingJob)
    requires Loaded(p, db) && SameSystem(p, ctx, w) && Correct(p, ctx, w, plan.encryptor, scheme)
    requires plan.Valid() && plan.ctx == ctx && plan.Describes(wire)
    requires CanonicalEmbedding(p, raw, plan.values)
    requires Replays(ctx, plan.dim, wire, rebuilt) && JobOver(p, scheme, db, rebuilt, job)
    ensures JobFor(p, AllSplits(db, p), raw, plan.desired, p.plaintextModulus, job)
  {
    hide Correct, CanonicalEmbedding, Replays, AllWithin, QueryPlan.Describes, AllSplits, StoredSplit,
      QueryPlan.EmbeddingCt, QueryPlan.SelectorCt, QueryReplayTheorems.SameCt;
    RowsCongruentToThemselves(wire.embeddingB, ctx.modulus);
    RowsCongruentToThemselves(wire.selectorB, ctx.modulus);
    QueryReplayTheorems.ReplayMatches(plan, wire, wire, rebuilt);
    CanonicalLength(p, raw, plan.values);
    forall j | 0 <= j < |raw|
      ensures Congruent(job.query[j], raw[j], p.plaintextModulus)
    {
      RebuiltValue(p, ctx, w, scheme, plan, raw, rebuilt, 0, j);
    }
    forall c | 0 <= c < ctx.numClusters
      ensures job.bits[c] == plan.SelectorBit(c)
    {
      RebuiltBit(p, ctx, w, scheme, plan, rebuilt, c);
    }
    assert job.bits == SelectorBits(p.numClusters, plan.desired);
  }

  /** The sums are the residues of what was asked for. */
  lemma SumsHold(p: Params, db: Database, raw: seq<int>, desired: int, job: RingJob)
    requires Ready(p) && p.numComponentRings == 1 && DatabaseShape(p, db) && DatabaseInRange(p, db)
    requires |raw| == p.embeddingLength && job.Valid()
    requires JobFor(p, db, raw, desired, p.plaintextModulus, job)
    ensures RingHolds(p, db, raw, desired, 0, Sums(job))
  {
    hide JobFor, DatabaseInRange, Expected, RingJob.Result;
    JobSize(p, db, raw, desired, job);
    forall s | 0 <= s < job.splits
      ensures |job.Result(s)| == p.n
    {
      ResultDimension(job, s);
    }
    forall s, i | 0 <= s < job.splits && 0 <= i < p.n
      ensures 0 <= job.Result(s)[i] < p.plaintextModulus
      ensures Congruent(job.Result(s)[i], Expected(p, db, raw, desired, s, i), p.plaintextModulus)
    {
      RingResult(p, db, raw, desired, p.plaintextModulus, job, s, i);
    }
  }

  lemma JobSize(p: Params, db: Database, raw: seq<int>, desired: int, job: RingJob)
    requires p.q > 0 && p.plaintextModulus > 0 && JobFor(p, db, raw, desired, p.plaintextModulus, job)
    ensures job.n == p.n && job.splits == p.splitsPerCluster
  {
  }

  /** Opening the ciphertexts gives the sums back. */
  lemma OpenedSums(p: Params, ctx: QueryContext, w: StreamCodecs.WireShape, encryptor: Encryptor, scheme: Scheme,
                   db: Database, raw: seq<int>, desired: int, job: RingJob, s: nat)
    requires SameSystem(p, ctx, w) && Correct(p, ctx, w, encryptor, scheme) && ctx.rings == 1
    requires DatabaseShape(p, db) && |raw| == p.embeddingLength && job.Valid() && s < job.splits
    requires RingHolds(p, db, raw, desired, 0, Sums(job))
    ensures scheme.open(0, Sealed(scheme, job)[s]) == Sums(job)[s]
  {
    hide RingJob.Result, Expected;
    HeldResidues(p, db, raw, desired, 0, Sums(job));
    var ct := scheme.seal(0, s, job.Result(s));
    assert SameRlwe(ct, ct, p.q);
  }
}
