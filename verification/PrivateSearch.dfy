/** A private search over a loaded database with one component ring: the server's processing
    (src/server_query_processing.cpp) followed by the client's scan (src/client_core.cpp). */
module PrivateSearch {
  import opened MachineInts
  import Crt
  import opened DbPolynomial
  import opened Parameters
  import Scoring
  import ParallelScoring
  import opened EndToEnd
  import opened ServerDb
  import opened BestMatch

  /** A loaded database that passed both validations, for these parameters. */
  ghost predicate Loaded(p: Params, db: ServerDatabase) {
    && Ready(p) && p.numComponentRings == 1
    && db.Valid() && db.embeddingLength == p.embeddingLength && |db.clusterSizes| == p.numClusters
    && AllWithin(db, MinEmbeddingValue(p.embeddingPrecision), MaxEmbeddingValue(p.embeddingPrecision))
    && forall c :: 0 <= c < |db.clusterSizes| ==> db.clusterSizes[c] == p.clusterSize
  }

  /** The database as the scoring loop sees it, one ring's copy of every split. */
  method StoreDatabase(p: Params, db: ServerDatabase) returns (stored: StoredForm)
    requires Loaded(p, db)
    ensures StoredDatabase(p, AllSplits(db, p), stored)
  {
    hide StoredSplit, AllWithin, Ready, SplitRows;
    assert p.n > 0 && p.q > 0 && p.splitsPerCluster >= 0 by { LoadedBasics(p, db); }
    ghost var all := AllSplits(db, p);
    stored := [];
    for c := 0 to |db.clusterSizes|
      invariant |stored| == c
      invariant forall b :: 0 <= b < c ==> |stored[b]| == p.splitsPerCluster
      invariant forall b, s :: 0 <= b < c && 0 <= s < p.splitsPerCluster ==>
                  |stored[b][s]| == 1 && StoredSplit(p, SplitRows(db, b, s, p.n), stored[b][s][0])
    {
      var row: seq<seq<seq<seq<int>>>> := [];
      for s := 0 to p.splitsPerCluster
        invariant |row| == s
        invariant forall t :: 0 <= t < s ==>
                    |row[t]| == 1 && StoredSplit(p, SplitRows(db, c, t, p.n), row[t][0])
      {
        var split, _ := BuildSplit(db, p, c, s);
        row := row + [[split.value]];
      }
      stored := stored + [row];
    }
  }

  lemma LoadedBasics(p: Params, db: ServerDatabase)
    requires Loaded(p, db)
    ensures p.n > 0 && p.q > 0 && p.splitsPerCluster >= 0 && p.embeddingLength >= 0
  {
  }

  // ---- Scores of a cluster ---------------------------------------------------------------------

  /** The scores of `count` global indices: the documents', then zeros. */
  ghost function SlotScores(db: ServerDatabase, cluster: nat, raw: seq<int>, count: nat): (scores: seq<int>)
    requires db.Valid() && cluster < |db.clusterSizes| && |raw| == db.embeddingLength
    ensures |scores| == count
    ensures forall k :: 0 <= k < count ==> scores[k] == ScoreAt(db, cluster, raw, k)
  {
    seq(count, k requires 0 <= k < count => ScoreAt(db, cluster, raw, k))
  }

  lemma ExpectedIsScore(p: Params, db: ServerDatabase, raw: seq<int>, desired: nat, s: nat, i: nat)
    requires Loaded(p, db) && |raw| == p.embeddingLength && desired < p.numClusters
    requires s < p.splitsPerCluster && i < p.n && DatabaseShape(p, AllSplits(db, p))
    ensures Expected(p, AllSplits(db, p), raw, desired, s, i) == ScoreAt(db, desired, raw, GlobalIndex(s, p.n, i))
  {
    hide GlobalIndex, ScoreAt, SplitRows;
    SlotScore(db, desired, raw, s, p.n, i);
  }

  /** Decoding the residues of a ring that holds the expected values, slot after slot. */
  lemma DecodedScores(p: Params, db: ServerDatabase, raw: seq<int>, desired: nat, residues: seq<Scoring.Ct>)
    requires Loaded(p, db) && |raw| == p.embeddingLength && InRange(raw, p.embeddingPrecision)
    requires desired < p.numClusters
    requires DatabaseShape(p, AllSplits(db, p)) && DatabaseInRange(p, AllSplits(db, p))
    requires RingHolds(p, AllSplits(db, p), raw, desired, 0, residues)
    ensures Rectangular(residues, p.n)
    ensures Flat(SignedRows(residues, p.plaintextModulus))
            == SlotScores(db, desired, raw, GlobalIndex(p.splitsPerCluster, p.n, 0))
  {
    hide Expected, ScoreAt, DatabaseInRange, DatabaseShape, InRange, AllSplits;
    var rows := SignedRows(residues, p.plaintextModulus);
    forall s, i | 0 <= s < |rows| && 0 <= i < p.n
      ensures rows[s][i] == ScoreAt(db, desired, raw, GlobalIndex(s, p.n, i))
    {
      var x := Expected(p, AllSplits(db, p), raw, desired, s, i);
      Recomposed(p, x, [residues[s][i]]);
      ExpectedSurvives(p, AllSplits(db, p), raw, desired, s, i);
      ExpectedIsScore(p, db, raw, desired, s, i);
    }
    FlatIsIndexed(db, desired, raw, rows, p.n);
  }

  lemma FlatIsIndexed(db: ServerDatabase, cluster: nat, raw: seq<int>, rows: seq<seq<int>>, n: nat)
    requires db.Valid() && cluster < |db.clusterSizes| && |raw| == db.embeddingLength
    requires n > 0 && Rectangular(rows, n)
    requires forall s, i :: 0 <= s < |rows| && 0 <= i < n ==>
               rows[s][i] == ScoreAt(db, cluster, raw, GlobalIndex(s, n, i))
    ensures Flat(rows) == SlotScores(db, cluster, raw, GlobalIndex(|rows|, n, 0))
  {
    hide ScoreAt;
    FlatLength(rows, n);
    var scores := SlotScores(db, cluster, raw, GlobalIndex(|rows|, n, 0));
    forall k | 0 <= k < |Flat(rows)|
      ensures Flat(rows)[k] == scores[k]
    {
      SlotOfIndex(k, n, |rows|);
      FlatAt(rows, n, k / n, k % n);
    }
  }

  lemma SlotOfIndex(k: nat, n: nat, rows: nat)
    requires n > 0 && k < GlobalIndex(rows, n, 0)
    ensures 0 <= k / n < rows && 0 <= k % n < n && GlobalIndex(k / n, n, k % n) == k
  {
    DivNonNegative(k, n);
    BlockBelow(k / n, k % n, n, rows);
  }

  /** The whole search. Whatever the interleaving of the server's parallel loop, the client
      ends up with the first slot of greatest score in the desired cluster, where a slot's
      score is its document's signed dot product with the query, or 0 for padding. */
  method Search(p: Params, db: ServerDatabase, raw: seq<int>, desired: nat, turns: seq<nat>)
    returns (best: ClientQueryResult)
    requires Loaded(p, db) && |raw| == p.embeddingLength && InRange(raw, p.embeddingPrecision)
    requires desired < p.numClusters
    requires ParallelScoring.IsInterleaving(turns, p.numClusters * p.splitsPerCluster)
    ensures BestSoFar(p.n, SlotScores(db, desired, raw, GlobalIndex(p.splitsPerCluster, p.n, 0)), best)
  {
    hide ParallelScoring.IsInterleaving, StoredDatabase, DatabaseInRange, DatabaseShape, CanonicalEmbedding, InRange,
      AllWithin, BestSoFar, GlobalIndex, Expected;
    ghost var all := AllSplits(db, p);
    ValidatedDatabase(db, p);
    var stored := StoreDatabase(p, db);
    var values := CanonicalizeEmbedding(p, raw);
    var bits := BuildSelector(p.numClusters, desired);
    var query := RingComponents(p, raw, values, 0);
    var residues := ProcessRing(p, all, stored, raw, query, bits, desired, 0, turns);
    DecodedScores(p, db, raw, desired, residues);
    best := DecryptAndFindBest(residues, p.n, p.plaintextModulus);
  }

  lemma FirstOfScores(n: nat, scores: seq<int>, best: ClientQueryResult)
    requires scores != [] && BestSoFar(n, scores, best)
    ensures best.splitIndex >= 0 && 0 <= best.positionInSplit < n
    ensures 0 <= best.splitIndex * n + best.positionInSplit < |scores|
    ensures best.score == scores[best.splitIndex * n + best.positionInSplit]
    ensures forall k :: 0 <= k < |scores| ==> scores[k] <= best.score
    ensures forall k :: 0 <= k < best.splitIndex * n + best.positionInSplit ==> scores[k] < best.score
  {
    MulNonNegative(best.splitIndex, n);
  }

  /** The result of a search, spelled out: the score of the reported document, or 0 for an empty slot; no
      document scores more, and none before the reported slot as much. */
  lemma BestSpelledOut(db: ServerDatabase, cluster: nat, raw: seq<int>, n: nat, slots: nat, best: ClientQueryResult)
    requires db.Valid() && cluster < |db.clusterSizes| && |raw| == db.embeddingLength
    requires BestSoFar(n, SlotScores(db, cluster, raw, slots), best) && db.clusterSizes[cluster] <= slots && slots > 0
    ensures best.splitIndex >= 0 && 0 <= best.positionInSplit < n
    ensures var at, size := best.splitIndex * n + best.positionInSplit, db.clusterSizes[cluster];
            && 0 <= at < slots
            && (at < size ==> best.score == Crt.SumOfProducts(raw, db.Document(cluster, at)))
            && (at >= size ==> best.score == 0)
            && (size < slots ==> best.score >= 0)
    ensures forall d: nat :: d < db.clusterSizes[cluster] ==>
              && Crt.SumOfProducts(raw, db.Document(cluster, d)) <= best.score
              && (d < best.splitIndex * n + best.positionInSplit ==>
                    Crt.SumOfProducts(raw, db.Document(cluster, d)) < best.score)
  {
    hide Crt.SumOfProducts, ServerDatabase.Document, BestSoFar, ServerDatabase.Valid;
    var scores := SlotScores(db, cluster, raw, slots);
    FirstOfScores(n, scores, best);
    var at := best.splitIndex * n + best.positionInSplit;
    assert scores[at] == ScoreAt(db, cluster, raw, at);
    if db.clusterSizes[cluster] < slots {
      assert scores[slots - 1] == ScoreAt(db, cluster, raw, slots - 1);
    }
    forall d: nat | d < db.clusterSizes[cluster]
      ensures Crt.SumOfProducts(raw, db.Document(cluster, d)) == scores[d]
    {
      assert scores[d] == ScoreAt(db, cluster, raw, d);
    }
  }

  // ---- Which document --------------------------------------------------------------------------

  /** The reported index is the best document's exactly when there is no padding or the best
      document does not score below zero; otherwise it is the first padding slot. */
  lemma BestIsADocument(db: ServerDatabase, cluster: nat, raw: seq<int>, slots: nat, reported: nat, best: nat)
    requires db.Valid() && cluster < |db.clusterSizes| && |raw| == db.embeddingLength
    requires db.clusterSizes[cluster] <= slots
    requires FirstMax(SlotScores(db, cluster, raw, slots), reported)
    requires FirstMax(SlotScores(db, cluster, raw, db.clusterSizes[cluster]), best)
    ensures reported == best <==> slots == db.clusterSizes[cluster] || ScoreAt(db, cluster, raw, best) >= 0
    ensures reported != best ==> reported == db.clusterSizes[cluster] && ScoreAt(db, cluster, raw, reported) == 0
  {
    var size := db.clusterSizes[cluster];
    var all, docs := SlotScores(db, cluster, raw, slots), SlotScores(db, cluster, raw, size);
    if slots == size || docs[best] >= 0 {
      assert FirstMax(all, best);
      FirstMaxUnique(all, reported, best);
    } else {
      assert FirstMax(all, size);
      FirstMaxUnique(all, reported, size);
    }
  }

  /** One document [-1] in a split of two slots, searched with [1]: the empty slot behind it is
      reported. */
  lemma PaddingReported() returns (db: ServerDatabase)
    ensures db == ServerDatabase(1, [1], [[-1]]) && db.Valid()
    ensures SlotScores(db, 0, [1], 2) == [-1, 0]
    ensures FirstMax(SlotScores(db, 0, [1], 1), 0)
    ensures FirstMax(SlotScores(db, 0, [1], 2), 1)
  {
    db := ServerDatabase(1, [1], [[-1]]);
    assert db.Valid() by {
      assert db.clusterSizes[0] * db.embeddingLength == 1;
    }
    var doc := db.Document(0, 0);
    assert doc == [-1];
    assert [1][..0] == doc[..0] == [];
    assert Crt.SumOfProducts([1], doc) == -1;
    assert SlotScores(db, 0, [1], 2) == [-1, 0];
    assert SlotScores(db, 0, [1], 1) == [-1];
  }
}
