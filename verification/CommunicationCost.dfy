/** Theoretical and measured communication cost (src/communication_cost.cpp), over exact
    reals. */
module CommunicationCosts {
  import opened MachineInts
  import opened Messages
  import opened Ragged
  import opened StreamCodecs
  import opened StreamPacking
  import StreamTheorems

  datatype CommunicationCost = CommunicationCost(keysBytes: real, uploadBytes: real, downloadBytes: real)

  const SEED_BITS: real := 8.0 * SEED_BYTES as real

  /** Bits of seeds and coefficients, with no alignment to bytes. */
  function TheoreticalCommunicationCost(w: WireShape): CommunicationCost {
    var bits := w.bits as real;
    var n := w.n as real;
    var r := w.numComponentRings as real;
    var keyCoeffs := (w.automorphismLevels * w.kskDigits) as real * n + w.primeDigits as real * n;
    var uploadCoeffs := r * w.embeddingLength as real + (w.numClusters * w.primeDigits) as real;
    var downloadCoeffs := r * w.splitsPerCluster as real * 2.0 * n;
    CommunicationCost((SEED_BITS + keyCoeffs * bits) / 8.0,
                      (r * SEED_BITS + uploadCoeffs * bits) / 8.0,
                      (downloadCoeffs * bits) / 8.0)
  }

  // ---- Recording runs ------------------------------------------------------------------------

  /** Every entry is the one before it, unless that one was empty. */
  ghost predicate Repeats<T>(log: seq<T>, empty: T) {
    forall i :: 0 < i < |log| ==> log[i - 1] == empty || log[i] == log[i - 1]
  }

  ghost predicate AllEqual<T>(log: seq<T>) {
    forall i, j :: 0 <= i < |log| && 0 <= j < |log| ==> log[i] == log[j]
  }

  lemma {:induction false} RepeatsFromFirst<T>(log: seq<T>, empty: T, i: nat)
    requires Repeats(log, empty) && i < |log|
    requires forall k :: 0 <= k < |log| ==> log[k] != empty
    ensures log[i] == log[0]
  {
    if i == 0 {
    } else {
      RepeatsFromFirst(log, empty, i - 1);
    }
  }

  /** Without empty entries, repeating from one entry to the next is being all equal. */
  lemma RepeatsIffAllEqual<T>(log: seq<T>, empty: T)
    requires forall i :: 0 <= i < |log| ==> log[i] != empty
    ensures Repeats(log, empty) <==> AllEqual(log)
  {
    if Repeats(log, empty) {
      forall i, j | 0 <= i < |log| && 0 <= j < |log|
        ensures log[i] == log[j]
      {
        RepeatsFromFirst(log, empty, i);
        RepeatsFromFirst(log, empty, j);
      }
    }
  }

  lemma RepeatsPush<T>(log: seq<T>, empty: T, x: T)
    ensures Repeats(log + [x], empty)
            <==> Repeats(log, empty) && (log == [] || log[|log| - 1] == empty || log[|log| - 1] == x)
  {
    var longer := log + [x];
    if Repeats(longer, empty) {
      forall i | 0 < i < |log|
        ensures log[i - 1] == empty || log[i] == log[i - 1]
      {
        assert longer[i] == log[i] && longer[i - 1] == log[i - 1];
      }
      assert log != [] ==> longer[|log|] == x && longer[|log| - 1] == log[|log| - 1];
    }
  }

  ghost function Latest<T>(log: seq<T>, empty: T): T {
    if |log| == 0 then empty else log[|log| - 1]
  }

  /** The sizes of the streams of the latest run, and whether they were the same in every run. */
  class MeasuredStreamSizes {
    var keysBytes: nat
    var uploadStreamBytes: seq<nat>
    var downloadStreamBytes: seq<nat>
    var consistent: bool
    ghost var keysLog: seq<nat>
    ghost var uploadLog: seq<seq<nat>>
    ghost var downloadLog: seq<seq<nat>>

    ghost predicate Valid()
      reads this
    {
      && keysBytes == Latest(keysLog, 0)
      && uploadStreamBytes == Latest(uploadLog, [])
      && downloadStreamBytes == Latest(downloadLog, [])
      && (consistent <==> Repeats(keysLog, 0) && Repeats(uploadLog, []) && Repeats(downloadLog, []))
    }

    constructor ()
      ensures Valid() && keysLog == [] && uploadLog == downloadLog == []
      ensures keysBytes == 0 && uploadStreamBytes == downloadStreamBytes == [] && consistent
    {
      keysBytes, uploadStreamBytes, downloadStreamBytes, consistent := 0, [], [], true;
      keysLog, uploadLog, downloadLog := [], [], [];
    }

    method RecordKeys(bytes: nat)
      requires Valid()
      modifies this`keysBytes, this`consistent, this`keysLog
      ensures Valid() && keysLog == old(keysLog) + [bytes]
      ensures keysBytes == bytes
      ensures consistent <==> old(consistent) && (old(keysBytes) == 0 || old(keysBytes) == bytes)
    {
      RepeatsPush(keysLog, 0, bytes);
      if keysBytes != 0 && keysBytes != bytes {
        consistent := false;
      }
      keysBytes := bytes;
      keysLog := keysLog + [bytes];
    }

    method RecordQuery(upload: seq<nat>, download: seq<nat>)
      requires Valid()
      modifies this`uploadStreamBytes, this`downloadStreamBytes, this`consistent, this`uploadLog, this`downloadLog
      ensures Valid() && uploadLog == old(uploadLog) + [upload] && downloadLog == old(downloadLog) + [download]
      ensures uploadStreamBytes == upload && downloadStreamBytes == download
      ensures consistent <==> old(consistent)
                              && (old(uploadStreamBytes) == [] || old(uploadStreamBytes) == upload)
                              && (old(downloadStreamBytes) == [] || old(downloadStreamBytes) == download)
    {
      RepeatsPush(uploadLog, [], upload);
      RepeatsPush(downloadLog, [], download);
      if (|uploadStreamBytes| != 0 && uploadStreamBytes != upload)
         || (|downloadStreamBytes| != 0 && downloadStreamBytes != download) {
        consistent := false;
      }
      uploadStreamBytes, downloadStreamBytes := upload, download;
      uploadLog, downloadLog := uploadLog + [upload], downloadLog + [download];
    }

    method AsCost() returns (c: CommunicationCost)
      ensures c == CommunicationCost(keysBytes as real, Total(uploadStreamBytes) as real,
                                     Total(downloadStreamBytes) as real)
    {
      var upload := 0.0;
      for k := 0 to |uploadStreamBytes|
        invariant upload == Total(uploadStreamBytes[..k]) as real
      {
        upload := upload + uploadStreamBytes[k] as real;
        assert uploadStreamBytes[..k + 1][..k] == uploadStreamBytes[..k];
      }
      assert uploadStreamBytes[..|uploadStreamBytes|] == uploadStreamBytes;
      var download := 0.0;
      for k := 0 to |downloadStreamBytes|
        invariant download == Total(downloadStreamBytes[..k]) as real
      {
        download := download + downloadStreamBytes[k] as real;
        assert downloadStreamBytes[..k + 1][..k] == downloadStreamBytes[..k];
      }
      assert downloadStreamBytes[..|downloadStreamBytes|] == downloadStreamBytes;
      c := CommunicationCost(keysBytes as real, upload, download);
    }
  }

  /** What one run measures. */
  datatype Run = Run(keys: nat, upload: seq<nat>, download: seq<nat>)

  /** Over any runs that measured something, the flag says whether all of them measured the
      same. */
  method RecordRuns(runs: seq<Run>) returns (consistent: bool)
    requires forall i :: 0 <= i < |runs| ==> runs[i].keys > 0 && runs[i].upload != [] && runs[i].download != []
    ensures consistent <==> AllEqual(runs)
  {
    hide Repeats, AllEqual;
    var sizes := new MeasuredStreamSizes();
    for i := 0 to |runs|
      invariant sizes.Valid() && |sizes.keysLog| == |sizes.uploadLog| == |sizes.downloadLog| == i
      invariant forall k :: 0 <= k < i ==>
                  Run(sizes.keysLog[k], sizes.uploadLog[k], sizes.downloadLog[k]) == runs[k]
    {
      sizes.RecordKeys(runs[i].keys);
      sizes.RecordQuery(runs[i].upload, runs[i].download);
    }
    RepeatsIffAllEqual(sizes.keysLog, 0);
    RepeatsIffAllEqual(sizes.uploadLog, []);
    RepeatsIffAllEqual(sizes.downloadLog, []);
    RunsEqual(runs, sizes.keysLog, sizes.uploadLog, sizes.downloadLog);
    consistent := sizes.consistent;
  }

  lemma RunsEqual(runs: seq<Run>, keys: seq<nat>, uploads: seq<seq<nat>>, downloads: seq<seq<nat>>)
    requires |keys| == |uploads| == |downloads| == |runs|
    requires forall k :: 0 <= k < |runs| ==> Run(keys[k], uploads[k], downloads[k]) == runs[k]
    ensures AllEqual(runs) <==> AllEqual(keys) && AllEqual(uploads) && AllEqual(downloads)
  {
    if AllEqual(runs) {
      forall i, j | 0 <= i < |runs| && 0 <= j < |runs|
        ensures keys[i] == keys[j] && uploads[i] == uploads[j] && downloads[i] == downloads[j]
      {
        assert runs[i] == runs[j];
      }
    }
  }

  // ---- Alignment costs less than a byte a stream ------------------------------------------------

  lemma Alignment(bits: nat)
    ensures bits as real / 8.0 <= BitsToBytes(bits) as real < bits as real / 8.0 + 1.0
  {
  }

  lemma RealProduct(a: nat, b: nat)
    ensures (a * b) as real == a as real * b as real
  {
  }

  /** The theoretical cost, as whole numbers of bits over eight. */
  lemma TheoreticalBits(w: WireShape)
    requires 1 <= w.numComponentRings <= 2
    ensures var t := TheoreticalCommunicationCost(w);
            && t.keysBytes == SEED_BYTES as real + (KeyCoefficients(w) * w.bits) as real / 8.0
            && t.downloadBytes == w.numComponentRings as real * ((ResponseCoefficients(w) * w.bits) as real / 8.0)
            && t.uploadBytes == w.numComponentRings as real * SEED_BYTES as real
               + (QueryCoefficients(w, 0) * w.bits) as real / 8.0
               + if w.numComponentRings == 2 then (QueryCoefficients(w, 1) * w.bits) as real / 8.0 else 0.0
  {
    KeysBitsReal(w);
    DownloadBitsReal(w);
    UploadBitsReal(w);
  }

  lemma KeysBitsReal(w: WireShape)
    ensures var keyCoeffs := (w.automorphismLevels * w.kskDigits) as real * w.n as real
                             + w.primeDigits as real * w.n as real;
            (KeyCoefficients(w) * w.bits) as real == keyCoeffs * w.bits as real
  {
    RealProduct(KeyCoefficients(w), w.bits);
    RealProduct(w.automorphismLevels * w.kskDigits, w.n);
    RealProduct(w.primeDigits, w.n);
  }

  lemma DownloadBitsReal(w: WireShape)
    requires 1 <= w.numComponentRings <= 2
    ensures var r, s, n := w.numComponentRings as real, w.splitsPerCluster as real, w.n as real;
            r * s * 2.0 * n * w.bits as real == r * (ResponseCoefficients(w) * w.bits) as real
  {
    RealProduct(ResponseCoefficients(w), w.bits);
    RealProduct(w.splitsPerCluster * 2, w.n);
    var x := w.splitsPerCluster as real * 2.0 * w.n as real * w.bits as real;
    assert (ResponseCoefficients(w) * w.bits) as real == x;
    if w.numComponentRings == 1 {
      assert 1.0 * w.splitsPerCluster as real == w.splitsPerCluster as real;
    } else {
      assert 2.0 * w.splitsPerCluster as real * 2.0 * w.n as real * w.bits as real == 2.0 * x;
    }
  }

  lemma UploadBitsReal(w: WireShape)
    requires 1 <= w.numComponentRings <= 2
    ensures var r, l, cd := w.numComponentRings as real, w.embeddingLength as real,
                            (w.numClusters * w.primeDigits) as real;
            (r * l + cd) * w.bits as real
            == (QueryCoefficients(w, 0) * w.bits) as real
               + if w.numComponentRings == 2 then (QueryCoefficients(w, 1) * w.bits) as real else 0.0
  {
    var l, cd, b := w.embeddingLength as real, (w.numClusters * w.primeDigits) as real, w.bits as real;
    RealProduct(QueryCoefficients(w, 0), w.bits);
    RealProduct(QueryCoefficients(w, 1), w.bits);
    assert (QueryCoefficients(w, 0) * w.bits) as real == (l + cd) * b;
    assert (QueryCoefficients(w, 1) * w.bits) as real == l * b;
    assert (l + cd) * b + l * b == (2.0 * l + cd) * b;
  }

  ghost predicate WithinAByteAStream(theoretical: real, measured: nat, streams: nat) {
    theoretical <= measured as real < theoretical + streams as real
  }

  /** What was measured is at least the theoretical cost, and less than one byte per stream
      above it: one stream of keys, one per ring up and one per ring down. */
  lemma MeasuredWithinAByteAStream(w: WireShape, keys: nat, upload: seq<nat>, download: seq<nat>)
    requires 1 <= w.numComponentRings <= 2
    requires keys == KeysStreamBytes(w)
    requires |upload| == |download| == w.numComponentRings
    requires forall k :: 0 <= k < w.numComponentRings ==> upload[k] == QueryStreamBytes(w, k)
    requires forall k :: 0 <= k < w.numComponentRings ==> download[k] == ResponseStreamBytes(w)
    ensures var t := TheoreticalCommunicationCost(w);
            && WithinAByteAStream(t.keysBytes, keys, 1)
            && WithinAByteAStream(t.uploadBytes, Total(upload), w.numComponentRings)
            && WithinAByteAStream(t.downloadBytes, Total(download), w.numComponentRings)
  {
    hide TheoreticalCommunicationCost, KeyCoefficients, QueryCoefficients, ResponseCoefficients;
    TheoreticalBits(w);
    Alignment(KeyCoefficients(w) * w.bits);
    Alignment(QueryCoefficients(w, 0) * w.bits);
    Alignment(QueryCoefficients(w, 1) * w.bits);
    Alignment(ResponseCoefficients(w) * w.bits);
    if w.numComponentRings == 1 {
      assert upload == [upload[0]] && download == [download[0]];
      TotalOne(upload[0]);
      TotalOne(download[0]);
    } else {
      assert upload == [upload[0], upload[1]] && download == [download[0], download[1]];
      TotalTwo(upload[0], upload[1]);
      TotalTwo(download[0], download[1]);
    }
  }

  lemma TotalOne(a: nat)
    ensures Total([a]) == a
  {
    assert [a][..0] == [];
  }

  lemma TotalTwo(a: nat, b: nat)
    ensures Total([a, b]) == a + b
  {
    TotalOne(a);
    assert [a, b][..1] == [a];
  }

  ghost function Sizes(streams: seq<seq<byte>>): (sizes: seq<nat>)
    ensures |sizes| == |streams|
    ensures forall k :: 0 <= k < |sizes| ==> sizes[k] == |streams[k]|
  {
    seq(|streams|, k requires 0 <= k < |streams| => |streams[k]|)
  }

  ghost predicate ResponsesHaveShape(w: WireShape, responses: seq<seq<RlweCt>>) {
    && |responses| == w.numComponentRings
    && forall k :: 0 <= k < |responses| ==>
         CiphertextsHaveDimension(w, responses[k]) && |responses[k]| == w.splitsPerCluster
  }

  ghost function PackedResponses(w: WireShape, responses: seq<seq<RlweCt>>): (streams: seq<seq<byte>>)
    requires w.Valid()
    ensures |streams| == |responses|
    ensures forall k :: 0 <= k < |streams| ==> streams[k] == PackedResponse(w, responses[k])
  {
    seq(|responses|, k requires 0 <= k < |responses| => PackedResponse(w, responses[k]))
  }

  lemma ResponseSizes(w: WireShape, responses: seq<seq<RlweCt>>)
    requires w.Valid() && ResponsesHaveShape(w, responses)
    ensures forall k :: 0 <= k < w.numComponentRings ==> |PackedResponses(w, responses)[k]| == ResponseStreamBytes(w)
  {
    hide PackedResponse, UnpackedResponse, StreamTheorems.CanonicalResponse;
    forall k | 0 <= k < |responses|
      ensures |PackedResponses(w, responses)[k]| == ResponseStreamBytes(w)
    {
      StreamTheorems.ResponseRoundTrip(w, responses[k]);
    }
  }

  /** The same for the streams the packers really emit. */
  lemma PackedWithinAByteAStream(w: WireShape, keys: SeededPublicMaterial, query: SeededQuery,
                                 responses: seq<seq<RlweCt>>)
    requires w.Valid() && KeysHaveShape(w, keys) && QueryHasShape(w, query) && ResponsesHaveShape(w, responses)
    ensures var t := TheoreticalCommunicationCost(w);
            && WithinAByteAStream(t.keysBytes, |PackedKeys(w, keys)|, 1)
            && WithinAByteAStream(t.uploadBytes, Total(Sizes(PackedQuery(w, query))), w.numComponentRings)
            && WithinAByteAStream(t.downloadBytes, Total(Sizes(PackedResponses(w, responses))),
                                  w.numComponentRings)
  {
    assert 1 <= w.numComponentRings <= 2 && |responses| == w.numComponentRings;
    hide *;
    StreamTheorems.KeysRoundTrip(w, keys);
    StreamTheorems.QueryRoundTrip(w, query);
    ResponseSizes(w, responses);
    MeasuredWithinAByteAStream(w, |PackedKeys(w, keys)|, Sizes(PackedQuery(w, query)),
                               Sizes(PackedResponses(w, responses)));
  }
}
