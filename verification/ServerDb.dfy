/** The loaded database and its cut into splits of ring dimension size (src/server_db.cpp). */
module ServerDb {
  import opened MachineInts
  import opened Codecs
  import Crt
  import opened DbPolynomial
  import opened Parameters
  import opened EndToEnd

  /** What the loader leaves behind: each cluster's documents one after another, each a run of
      `embeddingLength` signed bytes. It is never changed afterwards. */
  datatype ServerDatabase = ServerDatabase(
    embeddingLength: nat,
    clusterSizes: seq<nat>,
    clusterData: seq<seq<int>>)
  {
    ghost predicate Valid() {
      && |clusterSizes| == |clusterData|
      && (forall c :: 0 <= c < |clusterData| ==> |clusterData[c]| == clusterSizes[c] * embeddingLength)
      && (forall c, k :: 0 <= c < |clusterData| && 0 <= k < |clusterData[c]| ==> -0x80 <= clusterData[c][k] < 0x80)
    }

    /** None (the sources throw) for a cluster there is not. */
    function SplitsInCluster(cluster: int, n: int): Option<int>
      requires n > 0
    {
      if 0 <= cluster < |clusterSizes| then Some((clusterSizes[cluster] + n - 1) / n) else None
    }

    /** Document `d` of a cluster. */
    ghost function Document(cluster: nat, d: nat): (doc: seq<int>)
      requires Valid() && cluster < |clusterSizes| && d < clusterSizes[cluster]
      ensures |doc| == embeddingLength
      ensures 0 <= d * embeddingLength && (d + 1) * embeddingLength <= |clusterData[cluster]|
      ensures doc == clusterData[cluster][d * embeddingLength..(d + 1) * embeddingLength]
    {
      DocumentBounds(d, clusterSizes[cluster], embeddingLength);
      clusterData[cluster][d * embeddingLength..(d + 1) * embeddingLength]
    }

    /** The document at a global index, or all zeros behind the last one. */
    ghost function Padded(cluster: nat, index: nat): (doc: seq<int>)
      requires Valid() && cluster < |clusterSizes|
      ensures |doc| == embeddingLength
    {
      if index < clusterSizes[cluster] then Document(cluster, index) else seq(embeddingLength, _ => 0)
    }
  }

  lemma DocumentBounds(d: nat, size: nat, length: nat)
    requires d < size
    ensures 0 <= d * length <= (d + 1) * length <= size * length
    ensures (d + 1) * length == d * length + length
  {
    MulNonNegative(d, length);
    MulMonotone(d + 1, size, length);
  }

  /** The global index of a slot: position `i` of a split. */
  function GlobalIndex(split: nat, n: nat, i: nat): nat {
    split * n + i
  }

  // ---- Splits -----------------------------------------------------------------------------

  /** Coordinate j of every document of the split, slot by slot. */
  ghost function SplitRow(db: ServerDatabase, cluster: nat, split: nat, n: nat, j: nat): (row: seq<int>)
    requires db.Valid() && cluster < |db.clusterSizes| && j < db.embeddingLength
    ensures |row| == n
    ensures forall i :: 0 <= i < n ==> row[i] == db.Padded(cluster, GlobalIndex(split, n, i))[j]
  {
    seq(n, i requires 0 <= i < n => db.Padded(cluster, GlobalIndex(split, n, i))[j])
  }

  ghost function SplitRows(db: ServerDatabase, cluster: nat, split: nat, n: nat): (rows: seq<seq<int>>)
    requires db.Valid() && cluster < |db.clusterSizes|
    ensures |rows| == db.embeddingLength
    ensures forall j :: 0 <= j < |rows| ==> rows[j] == SplitRow(db, cluster, split, n, j)
  {
    seq(db.embeddingLength, j requires 0 <= j < db.embeddingLength => SplitRow(db, cluster, split, n, j))
  }

  lemma RawValueIsCoordinate(db: ServerDatabase, cluster: nat, index: nat, j: nat)
    requires db.Valid() && cluster < |db.clusterSizes| && index < db.clusterSizes[cluster] && j < db.embeddingLength
    ensures 0 <= index * db.embeddingLength + j < |db.clusterData[cluster]|
    ensures db.clusterData[cluster][index * db.embeddingLength + j] == db.Document(cluster, index)[j]
  {
    DocumentBounds(index, db.clusterSizes[cluster], db.embeddingLength);
  }

  lemma PaddedCoordinate(db: ServerDatabase, cluster: nat, index: nat, j: nat)
    requires db.Valid() && cluster < |db.clusterSizes| && j < db.embeddingLength
    ensures index < db.clusterSizes[cluster] ==>
              && 0 <= index * db.embeddingLength + j < |db.clusterData[cluster]|
              && db.Padded(cluster, index)[j] == db.clusterData[cluster][index * db.embeddingLength + j]
    ensures index >= db.clusterSizes[cluster] ==> db.Padded(cluster, index)[j] == 0
  {
    if index < db.clusterSizes[cluster] {
      RawValueIsCoordinate(db, cluster, index, j);
    }
  }

  lemma ClusterCounts(db: ServerDatabase)
    requires db.Valid()
    ensures |db.clusterSizes| == |db.clusterData|
  {
  }

  lemma SlotPlace(split: nat, n: nat, i: nat)
    ensures GlobalIndex(split, n, i) == split * n + i
  {
  }

  /** One coordinate of a split's documents; places behind the last document stay zero. */
  method CoordinateRow(db: ServerDatabase, cluster: nat, split: nat, n: nat, j: nat) returns (values: seq<int>)
    requires db.Valid() && cluster < |db.clusterSizes| && j < db.embeddingLength
    ensures values == SplitRow(db, cluster, split, n, j)
  {
    hide ServerDatabase.Padded, ServerDatabase.Document, GlobalIndex;
    var data, size := db.clusterData[cluster], db.clusterSizes[cluster];
    var start := split * n;
    values := seq(n, _ => 0);
    for i := 0 to n
      invariant |values| == n
      invariant forall k :: 0 <= k < i ==> values[k] == db.Padded(cluster, GlobalIndex(split, n, k))[j]
      invariant forall k :: i <= k < n ==> values[k] == 0
    {
      var index := start + i;
      SlotPlace(split, n, i);
      PaddedCoordinate(db, cluster, index, j);
      if index < size {
        values := values[i := data[index * db.embeddingLength + j]];
      }
    }
  }

  /** Modulo q, `x` is coordinate `j` of document `index`, which stands at place index * length + j of
      its cluster's data, or 0 behind the last document. */
  ghost predicate HoldsCoordinate(db: ServerDatabase, cluster: int, index: int, j: nat, x: int, q: int)
    requires q > 0 && 0 <= cluster < |db.clusterSizes| && |db.clusterData| == |db.clusterSizes|
  {
    && 0 <= x < q
    && if index < db.clusterSizes[cluster] then
         && 0 <= index * db.embeddingLength + j < |db.clusterData[cluster]|
         && Congruent(x, db.clusterData[cluster][index * db.embeddingLength + j], q)
       else x == 0
  }

  lemma SplitIsStored(p: Params, raw: seq<seq<int>>, polys: seq<seq<int>>)
    requires p.q > 0 && |polys| == |raw| && forall j :: 0 <= j < |raw| ==> polys[j] == StoredPolynomial(raw[j], p.q)
    ensures StoredSplit(p, raw, polys)
  {
  }

  lemma SplitHolds(db: ServerDatabase, p: Params, cluster: nat, split: nat, raw: seq<seq<int>>, polys: seq<seq<int>>)
    requires db.Valid() && p.n > 0 && p.q > 0 && cluster < |db.clusterSizes|
    requires raw == SplitRows(db, cluster, split, p.n) && StoredSplit(p, raw, polys)
    ensures forall j :: 0 <= j < |polys| ==> |polys[j]| == p.n
    ensures forall j: nat, i: nat :: j < |polys| && i < p.n ==>
              HoldsCoordinate(db, cluster, split * p.n + i, j, polys[j][i], p.q)
  {
    hide ReduceMod, ServerDatabase.Padded, ServerDatabase.Document, GlobalIndex;
    forall j | 0 <= j < |polys|
      ensures |polys[j]| == p.n
    {
      assert polys[j] == StoredPolynomial(raw[j], p.q);
    }
    forall j: nat, i: nat | j < |polys| && i < p.n
      ensures HoldsCoordinate(db, cluster, split * p.n + i, j, polys[j][i], p.q)
    {
      SlotPlace(split, p.n, i);
      MulNonNegative(split, p.n);
      PaddedCoordinate(db, cluster, split * p.n + i, j);
      assert polys[j] == StoredPolynomial(raw[j], p.q);
      assert raw[j][i] == db.Padded(cluster, GlobalIndex(split, p.n, i))[j];
      ZeroResidue(polys[j][i], p.q);
    }
  }

  lemma ZeroResidue(x: int, q: int)
    requires q > 0 && 0 <= x < q
    ensures Congruent(x, 0, q) ==> x == 0
  {
    QuotientUnique(x, 0, x, q);
    QuotientUnique(0, 0, 0, q);
  }

  /** The raw values and the stored form of one split. None (the sources throw) when the
      database has another embedding length or the cluster does not exist. */
  method BuildSplit(db: ServerDatabase, p: Params, cluster: int, split: nat)
    returns (r: Option<seq<seq<int>>>, ghost raw: seq<seq<int>>)
    requires db.Valid() && p.n > 0 && p.q > 0 && p.embeddingLength >= 0
    ensures r.Some? <==> db.embeddingLength == p.embeddingLength && 0 <= cluster < |db.clusterSizes|
    ensures r.Some? ==> raw == SplitRows(db, cluster, split, p.n) && StoredSplit(p, raw, r.value)
    ensures r.Some? ==> |r.value| == p.embeddingLength && forall j :: 0 <= j < |r.value| ==> |r.value[j]| == p.n
    ensures r.Some? ==> forall j: nat, i: nat :: j < |r.value| && i < p.n ==>
                          HoldsCoordinate(db, cluster, split * p.n + i, j, r.value[j][i], p.q)
  {
    hide SplitRow, SplitRows, StoredPolynomial, StoredSplit, ServerDatabase.Valid, HoldsCoordinate, ReduceMod,
      Congruent, GlobalIndex;
    raw := [];
    ClusterCounts(db);
    if db.embeddingLength != p.embeddingLength {
      return None, raw;
    }
    if cluster < 0 || cluster >= |db.clusterData| {
      return None, raw;
    }
    var polys: seq<seq<int>> := [];
    for j := 0 to p.embeddingLength
      invariant |polys| == |raw| == j
      invariant forall k :: 0 <= k < j ==> raw[k] == SplitRow(db, cluster, split, p.n, k)
      invariant forall k :: 0 <= k < j ==> polys[k] == StoredPolynomial(raw[k], p.q)
    {
      var values := CoordinateRow(db, cluster, split, p.n, j);
      var poly := BuildPolynomialFromRawValues(p.n, p.q, values, p.plaintextModulus);
      polys := polys + [poly.value];
      raw := raw + [values];
    }
    assert raw == SplitRows(db, cluster, split, p.n);
    SplitIsStored(p, raw, polys);
    SplitHolds(db, p, cluster, split, raw, polys);
    return Some(polys), raw;
  }

  // ---- The index: slots and documents --------------------------------------------------------

  /** A cluster has the least number of splits that hold it; there are splits of existing clusters
      only. */
  lemma SplitsCover(db: ServerDatabase, cluster: int, n: int)
    requires n > 0
    ensures db.SplitsInCluster(cluster, n).Some? <==> 0 <= cluster < |db.clusterSizes|
    ensures 0 <= cluster < |db.clusterSizes| ==>
              var splits := db.SplitsInCluster(cluster, n).value;
              (splits - 1) * n < db.clusterSizes[cluster] <= splits * n
  {
    if 0 <= cluster < |db.clusterSizes| {
      CeilingDivision(db.clusterSizes[cluster], n);
    }
  }

  /** Every document has exactly one slot among the cluster's splits. */
  lemma DocumentHasOneSlot(size: nat, n: nat, splits: nat, d: nat)
    requires n > 0 && IsCeiling(splits, size, n) && d < size
    ensures 0 <= d / n < splits && 0 <= d % n < n
    ensures GlobalIndex(d / n, n, d % n) == d
    ensures forall s: nat, i: nat :: i < n && GlobalIndex(s, n, i) == d ==> s == d / n && i == d % n
  {
    DivNonNegative(d, n);
    assert d == (d / n) * n + d % n;
    BlockBelow(d / n, d % n, n, splits);
    forall s: nat, i: nat | i < n && GlobalIndex(s, n, i) == d
      ensures s == d / n && i == d % n
    {
      QuotientUnique(d, s, i, n);
    }
  }

  lemma BlockBelow(q: nat, r: nat, n: nat, blocks: nat)
    requires q * n + r < blocks * n
    ensures q < blocks
  {
    if q >= blocks {
      MulMonotone(blocks, q, n);
    }
  }

  /** A slot's column is its document, or zeros when there is none. */
  lemma SlotIsDocument(db: ServerDatabase, cluster: nat, split: nat, n: nat, i: nat)
    requires db.Valid() && cluster < |db.clusterSizes| && i < n
    ensures Slot(SplitRows(db, cluster, split, n), i) == db.Padded(cluster, GlobalIndex(split, n, i))
  {
  }

  lemma {:induction false} ZeroScore(raw: seq<int>, zeros: seq<int>)
    requires |raw| == |zeros| && forall j :: 0 <= j < |zeros| ==> zeros[j] == 0
    ensures Crt.SumOfProducts(raw, zeros) == 0
  {
    if |raw| == 0 {
    } else {
      var k := |raw| - 1;
      ZeroScore(raw[..k], zeros[..k]);
    }
  }

  /** The score of a document, and 0 behind the last one. */
  ghost function ScoreAt(db: ServerDatabase, cluster: nat, raw: seq<int>, index: nat): int
    requires db.Valid() && cluster < |db.clusterSizes| && |raw| == db.embeddingLength
  {
    if index < db.clusterSizes[cluster] then Crt.SumOfProducts(raw, db.Document(cluster, index)) else 0
  }

  lemma SlotScore(db: ServerDatabase, cluster: nat, raw: seq<int>, split: nat, n: nat, i: nat)
    requires db.Valid() && cluster < |db.clusterSizes| && |raw| == db.embeddingLength && i < n
    ensures Crt.SumOfProducts(raw, Slot(SplitRows(db, cluster, split, n), i))
            == ScoreAt(db, cluster, raw, GlobalIndex(split, n, i))
  {
    SlotIsDocument(db, cluster, split, n, i);
    if GlobalIndex(split, n, i) >= db.clusterSizes[cluster] {
      ZeroScore(raw, db.Padded(cluster, GlobalIndex(split, n, i)));
    }
  }

  // ---- Validation ------------------------------------------------------------------------------

  ghost predicate AllWithin(db: ServerDatabase, low: int, high: int) {
    forall c, k :: 0 <= c < |db.clusterData| && 0 <= k < |db.clusterData[c]| ==> low <= db.clusterData[c][k] <= high
  }

  /** The least and greatest value; the limits of the integer type when there are none. */
  method ScanValueRange(db: ServerDatabase) returns (minVal: int, maxVal: int)
    requires db.Valid()
    ensures AllWithin(db, minVal, maxVal)
    ensures (exists c, k :: 0 <= c < |db.clusterData| && 0 <= k < |db.clusterData[c]| && db.clusterData[c][k] == minVal)
            || (minVal == INT64_MAX && forall c :: 0 <= c < |db.clusterData| ==> |db.clusterData[c]| == 0)
    ensures (exists c, k :: 0 <= c < |db.clusterData| && 0 <= k < |db.clusterData[c]| && db.clusterData[c][k] == maxVal)
            || (maxVal == INT64_MIN && forall c :: 0 <= c < |db.clusterData| ==> |db.clusterData[c]| == 0)
  {
    hide ServerDatabase.Valid;
    ByteValues(db);
    minVal, maxVal := INT64_MAX, INT64_MIN;
    ghost var low: Option<(nat, nat)> := None;
    ghost var high: Option<(nat, nat)> := None;
    for c := 0 to |db.clusterData|
      invariant forall b, k :: 0 <= b < c && 0 <= k < |db.clusterData[b]| ==> minVal <= db.clusterData[b][k] <= maxVal
      invariant Witness(db, low, minVal, INT64_MAX) && Witness(db, high, maxVal, INT64_MIN)
      invariant low.None? || high.None? ==> forall b :: 0 <= b < c ==> |db.clusterData[b]| == 0
    {
      for k := 0 to |db.clusterData[c]|
        invariant forall b, m :: 0 <= b < c && 0 <= m < |db.clusterData[b]| ==> minVal <= db.clusterData[b][m] <= maxVal
        invariant forall m :: 0 <= m < k ==> minVal <= db.clusterData[c][m] <= maxVal
        invariant Witness(db, low, minVal, INT64_MAX) && Witness(db, high, maxVal, INT64_MIN)
        invariant low.None? || high.None? ==> k == 0 && forall b :: 0 <= b < c ==> |db.clusterData[b]| == 0
      {
        var value := db.clusterData[c][k];
        if value < minVal {
          minVal, low := value, Some((c, k));
        }
        if value > maxVal {
          maxVal, high := value, Some((c, k));
        }
      }
    }
  }

  lemma ByteValues(db: ServerDatabase)
    requires db.Valid()
    ensures forall c, k :: 0 <= c < |db.clusterData| && 0 <= k < |db.clusterData[c]| ==>
              -0x80 <= db.clusterData[c][k] < 0x80
  {
  }

  ghost predicate Witness(db: ServerDatabase, at: Option<(nat, nat)>, value: int, unset: int) {
    match at
    case None => value == unset
    case Some((c, k)) => c < |db.clusterData| && k < |db.clusterData[c]| && db.clusterData[c][k] == value
  }

  /** False (the sources throw) exactly when some value is outside the precision's range; an
      empty database passes. */
  method ValidateValueRange(db: ServerDatabase, p: Params) returns (ok: bool)
    requires db.Valid() && p.embeddingPrecision >= 1
    ensures ok <==> AllWithin(db, MinEmbeddingValue(p.embeddingPrecision), MaxEmbeddingValue(p.embeddingPrecision))
    ensures ok <==> forall c, k :: 0 <= c < |db.clusterData| && 0 <= k < |db.clusterData[c]| ==>
                      -(Pow2(p.embeddingPrecision - 1) as int) <= db.clusterData[c][k] < Pow2(p.embeddingPrecision - 1)
  {
    var minVal, maxVal := ScanValueRange(db);
    var allowedMin, allowedMax := MinEmbeddingValue(p.embeddingPrecision), MaxEmbeddingValue(p.embeddingPrecision);
    ok := !(minVal < allowedMin || maxVal > allowedMax);
  }

  method ValidateUniformClusterSizes(db: ServerDatabase, p: Params) returns (ok: bool)
    ensures ok <==> forall c :: 0 <= c < |db.clusterSizes| ==> db.clusterSizes[c] == p.clusterSize
  {
    for c := 0 to |db.clusterSizes|
      invariant forall b :: 0 <= b < c ==> db.clusterSizes[b] == p.clusterSize
    {
      if db.clusterSizes[c] != p.clusterSize {
        return false;
      }
    }
    return true;
  }

  // ---- The database the query pipeline computes on ---------------------------------------------

  /** Every cluster cut into the parameters' number of splits. */
  ghost function AllSplits(db: ServerDatabase, p: Params): (out: Database)
    requires db.Valid() && p.n > 0 && p.splitsPerCluster >= 0
    ensures |out| == |db.clusterSizes|
    ensures forall c :: 0 <= c < |out| ==> |out[c]| == p.splitsPerCluster
    ensures forall c, s :: 0 <= c < |out| && 0 <= s < p.splitsPerCluster ==> out[c][s] == SplitRows(db, c, s, p.n)
  {
    seq(|db.clusterSizes|, c requires 0 <= c < |db.clusterSizes| =>
        seq(p.splitsPerCluster, s requires 0 <= s < p.splitsPerCluster => SplitRows(db, c, s, p.n)))
  }

  /** Once both validations pass, what `BuildSplit` yields is a database the pipeline's
      theorems are about, and every cluster's splits are exactly enough. */
  lemma ValidatedDatabase(db: ServerDatabase, p: Params)
    requires db.Valid() && p.Derived() && p.embeddingPrecision >= 1 && p.splitsPerCluster >= 0
    requires db.embeddingLength == p.embeddingLength && |db.clusterSizes| == p.numClusters
    requires AllWithin(db, MinEmbeddingValue(p.embeddingPrecision), MaxEmbeddingValue(p.embeddingPrecision))
    requires forall c :: 0 <= c < |db.clusterSizes| ==> db.clusterSizes[c] == p.clusterSize
    ensures DatabaseShape(p, AllSplits(db, p))
    ensures DatabaseInRange(p, AllSplits(db, p))
    ensures forall c :: 0 <= c < |db.clusterSizes| ==> db.SplitsInCluster(c, p.n) == Some(p.splitsPerCluster)
  {
    var splits := AllSplits(db, p);
    forall c, s, j | 0 <= c < |splits| && 0 <= s < |splits[c]| && 0 <= j < |splits[c][s]|
      ensures InRange(splits[c][s][j], p.embeddingPrecision)
    {
      RowInRange(db, p, c, s, j);
    }
    forall c | 0 <= c < |db.clusterSizes|
      ensures db.SplitsInCluster(c, p.n) == Some(p.splitsPerCluster)
    {
      CeilingDivision(db.clusterSizes[c], p.n);
      CeilingUnique((db.clusterSizes[c] + p.n - 1) / p.n, p.splitsPerCluster, p.clusterSize, p.n);
    }
  }

  lemma RowInRange(db: ServerDatabase, p: Params, c: nat, s: nat, j: nat)
    requires db.Valid() && p.embeddingPrecision >= 1 && p.n > 0
    requires AllWithin(db, MinEmbeddingValue(p.embeddingPrecision), MaxEmbeddingValue(p.embeddingPrecision))
    requires c < |db.clusterSizes| && j < db.embeddingLength
    ensures InRange(SplitRow(db, c, s, p.n, j), p.embeddingPrecision)
  {
    hide GlobalIndex;
    var row := SplitRow(db, c, s, p.n, j);
    forall i | 0 <= i < |row|
      ensures MinEmbeddingValue(p.embeddingPrecision) <= row[i] <= MaxEmbeddingValue(p.embeddingPrecision)
    {
      if GlobalIndex(s, p.n, i) < db.clusterSizes[c] {
        RawValueIsCoordinate(db, c, GlobalIndex(s, p.n, i), j);
      }
    }
  }

  lemma CeilingUnique(a: int, b: int, total: int, size: int)
    requires size > 0 && IsCeiling(a, total, size) && IsCeiling(b, total, size)
    ensures a == b
  {
    if a < b {
      MulMonotone(a, b - 1, size);
    } else if b < a {
      MulMonotone(b, a - 1, size);
    }
  }
}
