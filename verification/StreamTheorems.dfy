/** What the packed streams promise: the bit codec is its own inverse at any mix of widths,
    and each of the three layouts is a bijection between canonical values of the right
    shape and the byte strings its reader accepts. */
module StreamTheorems {
  import opened MachineInts
  import opened Bits
  import opened Codecs
  import opened BitStream
  import opened StreamCodecs
  import opened StreamPacking
  import opened Messages
  import opened Ragged

  // ---- The bit codec, widths freely mixed ------------------------------------------------

  ghost predicate Packable(values: seq<nat>, widths: seq<nat>) {
    && |values| == |widths|
    && forall i :: 0 <= i < |widths| ==> 1 <= widths[i] <= 63 && values[i] < Pow2(widths[i])
  }

  /** The bits of all values, one after another. */
  ghost function AllBits(values: seq<nat>, widths: seq<nat>): (bs: seq<bool>)
    requires |values| == |widths|
    ensures |bs| == Total(widths)
  {
    if |values| == 0 then []
    else
      var k := |values| - 1;
      AllBits(values[..k], widths[..k]) + BitsOf(values[k], widths[k])
  }

  lemma AllBitsSnoc(values: seq<nat>, widths: seq<nat>, i: nat)
    requires i < |values| == |widths|
    ensures AllBits(values[..i + 1], widths[..i + 1])
            == AllBits(values[..i], widths[..i]) + BitsOf(values[i], widths[i])
  {
    assert values[..i + 1][..i] == values[..i] && widths[..i + 1][..i] == widths[..i];
  }

  lemma AllBitsPush(values: seq<nat>, v: nat, widths: seq<nat>, i: nat)
    requires |values| == i < |widths|
    ensures AllBits(values + [v], widths[..i + 1]) == AllBits(values, widths[..i]) + BitsOf(v, widths[i])
  {
    assert (values + [v])[..i] == values && widths[..i + 1][..i] == widths[..i];
  }

  lemma AllBitsNone(values: seq<nat>, widths: seq<nat>)
    requires values == []
    ensures AllBits(values, widths[..0]) == []
  {
  }

  lemma {:induction false} AllBitsPrefix(values: seq<nat>, widths: seq<nat>, i: nat)
    requires i <= |values| == |widths|
    ensures AllBits(values[..i], widths[..i]) <= AllBits(values, widths)
    decreases |values| - i
  {
    if i == |values| {
      assert values[..i] == values && widths[..i] == widths;
    } else {
      AllBitsSnoc(values, widths, i);
      AllBitsPrefix(values, widths, i + 1);
    }
  }

  method PutAll(values: seq<nat>, widths: seq<nat>) returns (stream: seq<byte>)
    requires Packable(values, widths)
    ensures stream == Padded(AllBits(values, widths))
    ensures |stream| == BitsToBytes(Total(widths))
  {
    hide BitPacker.Contents, Padded, BitsOf, Pow2;
    var out := new BitPacker();
    for i := 0 to |values|
      invariant out.Valid()
      invariant out.Contents() == AllBits(values[..i], widths[..i])
    {
      AllBitsSnoc(values, widths, i);
      out.Put(values[i], widths[i]);
    }
    assert values[..|values|] == values && widths[..|values|] == widths;
    stream := out.Finish();
  }

  /** None when the stream runs out early or does not end right behind the last value. */
  method GetAll(stream: seq<byte>, widths: seq<nat>) returns (r: Option<seq<nat>>)
    requires forall i :: 0 <= i < |widths| ==> 1 <= widths[i] <= 63
    ensures r.Some? ==> Packable(r.value, widths) && stream == Padded(AllBits(r.value, widths))
    ensures r.None? ==> forall vs :: Packable(vs, widths) ==> stream != Padded(AllBits(vs, widths))
  {
    hide BitUnpacker.Remaining, Fits, Padded, NatOf, BitsOf, Pow2, ByteBits, AllBits;
    ghost var bits := ByteBits(stream);
    var input := new BitUnpacker(stream);
    var values: seq<nat> := [];
    AllBitsNone(values, widths);
    for i := 0 to |widths|
      invariant input.Valid()
      invariant |values| == i && Packable(values, widths[..i])
      invariant bits == AllBits(values, widths[..i]) + input.Remaining()
    {
      ghost var before := input.Remaining();
      var v := input.Get(widths[i]);
      if v.None? {
        forall vs | Packable(vs, widths)
          ensures stream != Padded(AllBits(vs, widths))
        {
          TooShort(stream, values, vs, widths, i);
        }
        return None;
      }
      BitsOfNatOf(before[..widths[i]]);
      assert before == BitsOf(v.value, widths[i]) + input.Remaining();
      Assoc(AllBits(values, widths[..i]), BitsOf(v.value, widths[i]), input.Remaining());
      AllBitsPush(values, v.value, widths, i);
      values := values + [v.value];
    }
    assert widths[..|widths|] == widths;
    assert bits[|AllBits(values, widths)|..] == input.Remaining();
    var ended := input.ExpectEnd();
    if !ended {
      forall vs | Packable(vs, widths)
        ensures stream != Padded(AllBits(vs, widths))
      {
        BadEnd(stream, values, vs, widths);
      }
      return None;
    }
    PaddedUnique(stream, AllBits(values, widths));
    return Some(values);
  }

  lemma TooShort(stream: seq<byte>, values: seq<nat>, vs: seq<nat>, widths: seq<nat>, i: nat)
    requires i < |widths| && |values| == i && Packable(vs, widths)
    requires |ByteBits(stream)| < Total(widths[..i]) + widths[i]
    ensures stream != Padded(AllBits(vs, widths))
  {
    PaddedBits(AllBits(vs, widths));
    AllBitsPrefix(vs, widths, i + 1);
    AllBitsSnoc(vs, widths, i);
  }

  lemma BadEnd(stream: seq<byte>, values: seq<nat>, vs: seq<nat>, widths: seq<nat>)
    requires |values| == |widths| && Packable(vs, widths)
    requires AllBits(values, widths) <= ByteBits(stream)
    requires var rest := ByteBits(stream)[Total(widths)..]; |rest| >= 8 || !AllFalse(rest)
    ensures stream != Padded(AllBits(vs, widths))
  {
    PaddedBits(AllBits(vs, widths));
  }

  lemma {:induction false} AllBitsInjective(vs: seq<nat>, us: seq<nat>, widths: seq<nat>)
    requires Packable(vs, widths) && Packable(us, widths)
    requires AllBits(vs, widths) == AllBits(us, widths)
    ensures vs == us
  {
    hide Pow2, BitsOf, NatOf;
    if |widths| == 0 {
    } else {
      var k := |widths| - 1;
      var a, b := AllBits(vs[..k], widths[..k]), AllBits(us[..k], widths[..k]);
      assert AllBits(vs, widths)[..|a|] == a && AllBits(us, widths)[..|a|] == b;
      assert AllBits(vs, widths)[|a|..] == BitsOf(vs[k], widths[k]);
      assert AllBits(us, widths)[|a|..] == BitsOf(us[k], widths[k]);
      AllBitsInjective(vs[..k], us[..k], widths[..k]);
      NatOfBitsOf(vs[k], widths[k]);
      NatOfBitsOf(us[k], widths[k]);
      assert vs == vs[..k] + [vs[k]] && us == us[..k] + [us[k]];
    }
  }

  /** Two value lists with the same stream are the same list. */
  lemma PaddedInjective(vs: seq<nat>, us: seq<nat>, widths: seq<nat>)
    requires Packable(vs, widths) && Packable(us, widths)
    requires Padded(AllBits(vs, widths)) == Padded(AllBits(us, widths))
    ensures vs == us
  {
    PaddedBits(AllBits(vs, widths));
    PaddedBits(AllBits(us, widths));
    assert AllBits(vs, widths) == AllBits(us, widths);
    AllBitsInjective(vs, us, widths);
  }

  /** Putting any values at any mix of widths, finishing, and getting them back. */
  method BitCodecRoundTrip(values: seq<nat>, widths: seq<nat>) returns (stream: seq<byte>, back: Option<seq<nat>>)
    requires Packable(values, widths)
    ensures |stream| == BitsToBytes(Total(widths))
    ensures back == Some(values)
  {
    stream := PutAll(values, widths);
    back := GetAll(stream, widths);
    if back.Some? {
      PaddedInjective(back.value, values, widths);
    }
  }

  // ---- Canonical values are fixed points --------------------------------------------------

  lemma CanonicalRowFixed(row: seq<nat>, q: int)
    requires q > 0 && forall i :: 0 <= i < |row| ==> row[i] < q
    ensures CanonicalRow(row, q) == row
  {
  }

  lemma RowOk(w: WireShape, row: seq<nat>, count: nat)
    requires w.Valid()
    ensures Row(w, count).ok(row) <==> |row| == count && forall i :: 0 <= i < |row| ==> row[i] < w.q
  {
    var c := Coefficient(w.bits, w.q);
    assert Row(w, count).ok(row) <==> |row| == count && AllOk(c, row);
    assert forall i :: 0 <= i < |row| ==> (c.ok(row[i]) <==> row[i] < w.q);
  }

  lemma RowsOk(w: WireShape, rows: seq<seq<nat>>, count: nat, width: nat)
    requires w.Valid()
    requires Rows(w, count, width).ok(rows)
    ensures RowsHaveShape(rows, count, width)
    ensures CanonicalRows(rows, w.q) == rows
  {
    var c := Row(w, width);
    assert |rows| == count && AllOk(c, rows);
    forall i | 0 <= i < |rows|
      ensures |rows[i]| == width && CanonicalRow(rows[i], w.q) == rows[i]
    {
      assert c.ok(rows[i]);
      RowOk(w, rows[i], width);
      CanonicalRowFixed(rows[i], w.q);
    }
    assert CanonicalRows(rows, w.q) == rows;
  }

  lemma CanonicalRowOk(w: WireShape, row: seq<int>)
    requires w.Valid()
    ensures Row(w, |row|).ok(CanonicalRow(row, w.q))
  {
    RowOk(w, CanonicalRow(row, w.q), |row|);
  }

  lemma CanonicalRowsOk(w: WireShape, rows: seq<seq<int>>, count: nat, width: nat)
    requires w.Valid() && RowsHaveShape(rows, count, width)
    ensures Rows(w, count, width).ok(CanonicalRows(rows, w.q))
  {
    var c := Row(w, width);
    var out := CanonicalRows(rows, w.q);
    forall i | 0 <= i < |out|
      ensures c.ok(out[i])
    {
      CanonicalRowOk(w, rows[i]);
    }
    assert AllOk(c, out);
  }

  // ---- Evaluation keys ---------------------------------------------------------------------

  lemma KeysValueOk(w: WireShape, m: SeededPublicMaterial)
    requires w.Valid() && KeysHaveShape(w, m)
    ensures KeysLayout(w).ok(KeysValueOf(w, m))
  {
    var levels := CanonicalLevels(m.automorphismB, w.q);
    var c := Rows(w, w.kskDigits, w.n);
    forall v | 0 <= v < |levels|
      ensures c.ok(levels[v])
    {
      CanonicalRowsOk(w, m.automorphismB[v], w.kskDigits, w.n);
    }
    assert AllOk(c, levels);
    CanonicalRowsOk(w, m.skSquaredB, w.primeDigits, w.n);
  }

  lemma KeysOkValue(w: WireShape, x: KeysValue)
    requires w.Valid() && KeysLayout(w).ok(x)
    ensures KeysHaveShape(w, KeysOf(x))
    ensures KeysValueOf(w, KeysOf(x)) == x
  {
    var m := KeysOf(x);
    var c := Rows(w, w.kskDigits, w.n);
    assert |x.0.1| == w.automorphismLevels && AllOk(c, x.0.1);
    forall v | 0 <= v < |x.0.1|
      ensures RowsHaveShape(x.0.1[v], w.kskDigits, w.n) && CanonicalRows(x.0.1[v], w.q) == x.0.1[v]
    {
      assert c.ok(x.0.1[v]);
      RowsOk(w, x.0.1[v], w.kskDigits, w.n);
    }
    RowsOk(w, x.1, w.primeDigits, w.n);
    assert CanonicalLevels(m.automorphismB, w.q) == x.0.1;
  }

  lemma KeysRoundTrip(w: WireShape, m: SeededPublicMaterial)
    requires w.Valid() && KeysHaveShape(w, m)
    ensures |PackedKeys(w, m)| == KeysStreamBytes(w)
    ensures UnpackedKeys(w, PackedKeys(w, m)) == Some(CanonicalKeys(w, m))
  {
    KeysLawful(w);
    KeysValueOk(w, m);
    AcceptIff(KeysLayout(w), PackedKeys(w, m), KeysValueOf(w, m));
    StreamSize(KeysLayout(w), KeysValueOf(w, m), 8 * SEED_BYTES + KeyCoefficients(w) * w.bits);
    SeedAlignment(KeyCoefficients(w) * w.bits);
  }

  /** The key reader accepts exactly the streams of canonical material of the right shape,
      and recovers that material. */
  lemma KeysBijection(w: WireShape, stream: seq<byte>, m: SeededPublicMaterial)
    requires w.Valid()
    ensures UnpackedKeys(w, stream) == Some(m)
            <==> KeysHaveShape(w, m) && CanonicalKeys(w, m) == m && stream == PackedKeys(w, m)
  {
    if UnpackedKeys(w, stream) == Some(m) {
      KeysLawful(w);
      var x := Accept(KeysLayout(w), stream).value;
      AcceptIff(KeysLayout(w), stream, x);
      KeysOkValue(w, x);
    }
    if KeysHaveShape(w, m) {
      KeysRoundTrip(w, m);
    }
  }

  // ---- Query -------------------------------------------------------------------------------

  ghost function CanonicalQuery(w: WireShape, query: SeededQuery): SeededQuery
    requires w.Valid()
  {
    SeededQuery(query.seeds, CanonicalRows(query.embeddingB, w.q), CanonicalRows(query.selectorB, w.q))
  }

  lemma RingRoundTrip(w: WireShape, query: SeededQuery, ring: nat)
    requires w.Valid() && RingHasShape(w, query, ring)
    ensures |PackedQueryRing(w, query, ring)| == QueryStreamBytes(w, ring)
    ensures UnpackedRing(w, ring, PackedQueryRing(w, query, ring)) == Some(QueryRingValueOf(w, query, ring))
  {
    var c, x := QueryRingLayout(w, ring), QueryRingValueOf(w, query, ring);
    QueryRingLawful(w, ring);
    CanonicalRowOk(w, query.embeddingB[ring]);
    if ring == 0 {
      CanonicalRowsOk(w, query.selectorB, w.numClusters, w.primeDigits);
    }
    assert c.ok(x);
    AcceptIff(c, Stream(c, x), x);
    StreamSize(c, x, 8 * SEED_BYTES + QueryCoefficients(w, ring) * w.bits);
    SeedAlignment(QueryCoefficients(w, ring) * w.bits);
  }

  lemma RingAccepted(w: WireShape, ring: nat, stream: seq<byte>)
    requires w.Valid() && UnpackedRing(w, ring, stream).Some?
    ensures var x := UnpackedRing(w, ring, stream).value;
            && |x.0.0| == SEED_BYTES
            && |x.0.1| == w.embeddingLength && CanonicalRow(x.0.1, w.q) == x.0.1
            && RowsHaveShape(x.1, SelectorRows(w, ring), w.primeDigits) && CanonicalRows(x.1, w.q) == x.1
            && stream == Stream(QueryRingLayout(w, ring), x)
  {
    var x := UnpackedRing(w, ring, stream).value;
    QueryRingLawful(w, ring);
    AcceptIff(QueryRingLayout(w, ring), stream, x);
    assert Row(w, w.embeddingLength).ok(x.0.1);
    RowOk(w, x.0.1, w.embeddingLength);
    CanonicalRowFixed(x.0.1, w.q);
    RowsOk(w, x.1, SelectorRows(w, ring), w.primeDigits);
  }

  lemma QueryRoundTrip(w: WireShape, query: SeededQuery)
    requires w.Valid() && QueryHasShape(w, query)
    ensures forall k :: 0 <= k < w.numComponentRings ==> |PackedQuery(w, query)[k]| == QueryStreamBytes(w, k)
    ensures UnpackedQuery(w, PackedQuery(w, query)) == Some(CanonicalQuery(w, query))
  {
    hide PackedQueryRing, UnpackedRing, RowsHaveShape;
    RingsExist(w, query);
    var streams := PackedQuery(w, query);
    forall k | 0 <= k < w.numComponentRings
      ensures streams[k] == PackedQueryRing(w, query, k)
      ensures |streams[k]| == QueryStreamBytes(w, k)
      ensures UnpackedRing(w, k, streams[k]) == Some(QueryRingValueOf(w, query, k))
    {
      assert RingHasShape(w, query, k);
      RingRoundTrip(w, query, k);
    }
    var back := UnpackedQuery(w, streams).value;
    assert back.seeds == query.seeds;
    assert back.embeddingB == CanonicalRows(query.embeddingB, w.q);
  }

  /** The query reader accepts exactly the stream lists of canonical queries of the right
      shape, and recovers the query. */
  lemma QueryBijection(w: WireShape, streams: seq<seq<byte>>, query: SeededQuery)
    requires w.Valid()
    ensures UnpackedQuery(w, streams) == Some(query)
            <==> QueryHasShape(w, query) && CanonicalQuery(w, query) == query && streams == PackedQuery(w, query)
  {
    if UnpackedQuery(w, streams) == Some(query) {
      QueryAccepted(w, streams, query);
    }
    if QueryHasShape(w, query) {
      QueryRoundTrip(w, query);
    }
  }

  lemma QueryAccepted(w: WireShape, streams: seq<seq<byte>>, query: SeededQuery)
    requires w.Valid()
    requires UnpackedQuery(w, streams) == Some(query)
    ensures QueryHasShape(w, query) && CanonicalQuery(w, query) == query && streams == PackedQuery(w, query)
  {
    hide UnpackedRing, Stream, QueryRingLayout;
    forall k | 0 <= k < w.numComponentRings
      ensures RingHasShape(w, query, k)
      ensures CanonicalRow(query.embeddingB[k], w.q) == query.embeddingB[k]
      ensures streams[k] == PackedQueryRing(w, query, k)
    {
      RingAccepted(w, k, streams[k]);
      RingAccepted(w, 0, streams[0]);
    }
    RingAccepted(w, 0, streams[0]);
    assert CanonicalRows(query.embeddingB, w.q) == query.embeddingB;
    assert streams == PackedQuery(w, query);
  }

  // ---- Response ----------------------------------------------------------------------------

  ghost function CanonicalResponse(w: WireShape, cts: seq<RlweCt>): seq<RlweCt>
    requires w.Valid()
  {
    CiphertextsOf(ResponseValueOf(w, cts))
  }

  lemma ResponseRoundTrip(w: WireShape, cts: seq<RlweCt>)
    requires w.Valid() && CiphertextsHaveDimension(w, cts) && |cts| == w.splitsPerCluster
    ensures |PackedResponse(w, cts)| == ResponseStreamBytes(w)
    ensures UnpackedResponse(w, PackedResponse(w, cts)) == Some(CanonicalResponse(w, cts))
  {
    var c, x := ResponseLayout(w), ResponseValueOf(w, cts);
    ResponseLawful(w);
    var item := Pair(Row(w, w.n), Row(w, w.n));
    forall s | 0 <= s < |x|
      ensures item.ok(x[s])
    {
      CanonicalRowOk(w, cts[s].a);
      CanonicalRowOk(w, cts[s].b);
    }
    assert AllOk(item, x);
    AcceptIff(c, Stream(c, x), x);
    StreamSize(c, x, ResponseCoefficients(w) * w.bits);
  }

  lemma ResponseAccepted(w: WireShape, x: ResponseValue)
    requires w.Valid() && ResponseLayout(w).ok(x)
    ensures |x| == w.splitsPerCluster && CiphertextsHaveDimension(w, CiphertextsOf(x))
    ensures ResponseValueOf(w, CiphertextsOf(x)) == x
  {
    var item := Pair(Row(w, w.n), Row(w, w.n));
    assert |x| == w.splitsPerCluster && AllOk(item, x);
    forall s | 0 <= s < |x|
      ensures |x[s].0| == |x[s].1| == w.n
      ensures CanonicalRow(x[s].0, w.q) == x[s].0 && CanonicalRow(x[s].1, w.q) == x[s].1
    {
      assert item.ok(x[s]);
      RowOk(w, x[s].0, w.n);
      RowOk(w, x[s].1, w.n);
      CanonicalRowFixed(x[s].0, w.q);
      CanonicalRowFixed(x[s].1, w.q);
    }
  }

  /** The response reader accepts exactly the streams of canonical ciphertext lists of the
      right length and dimension, and recovers them. */
  lemma ResponseBijection(w: WireShape, stream: seq<byte>, cts: seq<RlweCt>)
    requires w.Valid()
    ensures UnpackedResponse(w, stream) == Some(cts)
            <==> && |cts| == w.splitsPerCluster && CiphertextsHaveDimension(w, cts)
                 && CanonicalResponse(w, cts) == cts
                 && stream == PackedResponse(w, cts)
  {
    if UnpackedResponse(w, stream) == Some(cts) {
      ResponseLawful(w);
      var x := Accept(ResponseLayout(w), stream).value;
      AcceptIff(ResponseLayout(w), stream, x);
      ResponseAccepted(w, x);
    }
    if |cts| == w.splitsPerCluster && CiphertextsHaveDimension(w, cts) {
      ResponseRoundTrip(w, cts);
    }
  }
}
