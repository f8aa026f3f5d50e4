/** Packing and unpacking of the three bit-packed streams (src/stream_packing.cpp). Each
    method is proved against the layouts of StreamCodecs; a None result stands for the
    exception the sources throw. */
module StreamPacking {
  import opened MachineInts
  import opened Bits
  import opened Codecs
  import opened BitStream
  import opened StreamCodecs
  import opened Messages
  import Parameters

  // ---- Residues ------------------------------------------------------------------------

  function Canonical(v: int, q: int): (m: nat)
    requires q > 0
    ensures m < q && Congruent(m, v, q)
    ensures 0 <= v < q ==> m == v
  {
    RemCorrected(v, q);
    CongruentMod(v, q);
    var m := Rem(v, q);
    if m < 0 then m + q else m
  }

  ghost function CanonicalRow(values: seq<int>, q: int): (row: seq<nat>)
    requires q > 0
    ensures |row| == |values|
    ensures forall i :: 0 <= i < |row| ==> row[i] == Canonical(values[i], q)
  {
    seq(|values|, i requires 0 <= i < |values| => Canonical(values[i], q))
  }

  ghost function CanonicalRows(rows: seq<seq<int>>, q: int): (out: seq<seq<nat>>)
    requires q > 0
    ensures |out| == |rows|
    ensures forall i :: 0 <= i < |out| ==> out[i] == CanonicalRow(rows[i], q)
  {
    seq(|rows|, i requires 0 <= i < |rows| => CanonicalRow(rows[i], q))
  }

  // ---- Shape ---------------------------------------------------------------------------

  ghost function BitLength(v: nat): nat {
    if v == 0 then 0 else 1 + BitLength(v / 2)
  }

  lemma {:induction false} BitLengthBounds(v: nat)
    requires v > 0
    ensures BitLength(v) >= 1
    ensures Pow2(BitLength(v) - 1) <= v < Pow2(BitLength(v))
  {
    if v > 1 {
      BitLengthBounds(v / 2);
    }
  }

  /** ceil(log2 q): enough bits for every residue, and no more. */
  method CoefficientBitWidth(q: int) returns (r: Option<nat>)
    ensures r.Some? <==> q >= 2
    ensures r.Some? ==> r.value >= 1 && Pow2(r.value - 1) < q <= Pow2(r.value)
  {
    if q < 2 {
      return None;
    }
    var bits: nat := 0;
    var v := q - 1;
    while v != 0
      invariant v >= 0
      invariant bits + BitLength(v) == BitLength(q - 1)
    {
      v := v / 2;
      bits := bits + 1;
    }
    BitLengthBounds(q - 1);
    return Some(bits);
  }

  /** The number of automorphism levels: floor(log2 n). */
  method AutomorphismLevels(n: int) returns (levels: nat)
    requires n >= 1
    ensures Pow2(levels) <= n < Pow2(levels + 1)
  {
    levels := 0;
    var i := 2;
    while i <= n
      invariant i == Pow2(levels + 1)
      invariant Pow2(levels) <= n
      decreases n - i
    {
      i := i * 2;
      levels := levels + 1;
    }
  }

  /** The shape both ends derive from the parameters; the digit counts are the library's. None
      (the sources throw) for a modulus without two residues. */
  method DeriveWireShape(p: Parameters.Params, kskDigits: nat, primeDigits: nat) returns (r: Option<WireShape>)
    requires p.Derived() && p.embeddingLength >= 0 && p.splitsPerCluster >= 0
    ensures r.Some? <==> p.q >= 2
    ensures r.Some? ==>
              && r.value.Valid() && r.value.q == p.q && r.value.n == p.n
              && r.value.embeddingLength == p.embeddingLength && r.value.numClusters == p.numClusters
              && r.value.numComponentRings == p.numComponentRings
              && r.value.splitsPerCluster == p.splitsPerCluster
              && r.value.kskDigits == kskDigits && r.value.primeDigits == primeDigits
              && Pow2(r.value.automorphismLevels) <= p.n < Pow2(r.value.automorphismLevels + 1)
  {
    var bits := CoefficientBitWidth(p.q);
    if bits.None? {
      return None;
    }
    var levels := AutomorphismLevels(p.n);
    WidthBound(p.q, bits.value);
    return Some(WireShape(p.q, bits.value, p.n, p.embeddingLength, p.numClusters, p.numComponentRings,
                          p.splitsPerCluster, levels, kskDigits, primeDigits));
  }

  lemma WidthBound(q: int, bits: nat)
    requires 1 <= bits && Pow2(bits - 1) < q < 0x4000_0000_0000_0000
    ensures bits <= 62
  {
    hide Pow2;
    Pow2Word();
    if bits > 62 {
      Pow2Monotone(62, bits - 1);
    }
  }

  // ---- Rows of coefficients ------------------------------------------------------------

  ghost predicate RowsHaveShape<T>(rows: seq<seq<T>>, count: nat, width: nat) {
    |rows| == count && forall i :: 0 <= i < |rows| ==> |rows[i]| == width
  }

  lemma ShapeCount<T>(rows: seq<seq<T>>, count: nat, width: nat)
    requires RowsHaveShape(rows, count, width)
    ensures |rows| == count
  {
  }

  lemma CanonicalIsRemainder(v: int, q: int)
    requires q > 0
    ensures Canonical(v, q) == v % q
  {
    QuotientUnique(Canonical(v, q), 0, Canonical(v, q), q);
  }

  /** Item `i` of equally long items. */
  lemma FixedPart<T(!new)>(c: Codec<bool, T>, size: nat, xs: seq<T>, i: nat)
    requires FixedSize(c, size) && AllOk(c, xs) && i < |xs|
    ensures i * size >= 0 && PartAt(RepeatEnc(c, xs), i * size, c.enc(xs[i]))
  {
    RepeatEncSize(c, size, xs[..i]);
    RepeatPart(c, xs, i);
    MulNonNegative(i, size);
  }

  /** Coefficient `j` of a row that stands at bit `at`. */
  lemma RowCoefficient(w: WireShape, bs: seq<bool>, at: nat, values: seq<int>, j: nat)
    requires w.Valid() && j < |values|
    requires PartAt(bs, at, Row(w, |values|).enc(CanonicalRow(values, w.q)))
    ensures values[j] % w.q < Pow2(w.bits)
    ensures at + j * w.bits >= 0 && PartAt(bs, at + j * w.bits, BitsOf(values[j] % w.q, w.bits))
  {
    hide Pow2, BitsOf, NatOf, Canonical;
    var c, row := Coefficient(w.bits, w.q), CanonicalRow(values, w.q);
    CoefficientLawful(w.bits, w.q);
    FixedPart(c, w.bits, row, j);
    CanonicalIsRemainder(values[j], w.q);
    PartOfPart(bs, at, RepeatEnc(c, row), j * w.bits, BitsOf(row[j], w.bits));
  }

  /** The `width` bits from bit `at` on are those of `v`. */
  ghost predicate BitsAt(bs: seq<bool>, at: int, width: nat, v: int) {
    && 0 <= at && at + width <= |bs| && 0 <= v < Pow2(width)
    && bs[at..at + width] == BitsOf(v, width)
  }

  lemma RowBits(w: WireShape, before: seq<bool>, values: seq<int>)
    requires w.Valid()
    ensures var bs := before + Row(w, |values|).enc(CanonicalRow(values, w.q));
            && |bs| == |before| + |values| * w.bits
            && forall j: nat :: j < |values| ==> BitsAt(bs, |before| + j * w.bits, w.bits, values[j] % w.q)
  {
    hide Pow2, BitsOf, NatOf, Canonical, Row;
    var row := Row(w, |values|).enc(CanonicalRow(values, w.q));
    PairParts(before, row);
    forall j: nat | j < |values|
      ensures BitsAt(before + row, |before| + j * w.bits, w.bits, values[j] % w.q)
    {
      RowCoefficient(w, before + row, |before|, values, j);
    }
    RowSize(w, values);
  }

  lemma RowSize(w: WireShape, values: seq<int>)
    requires w.Valid()
    ensures |Row(w, |values|).enc(CanonicalRow(values, w.q))| == |values| * w.bits
  {
    hide Pow2, Canonical;
    CoefficientLawful(w.bits, w.q);
    RepeatEncSize(Coefficient(w.bits, w.q), w.bits, CanonicalRow(values, w.q));
  }

  method WriteCoefficients(out: BitPacker, values: seq<int>, expectedCount: nat, w: WireShape) returns (ok: bool)
    requires w.Valid() && out.Valid()
    modifies out
    ensures ok <==> |values| == expectedCount
    ensures ok ==> out.Valid()
    ensures ok ==> out.Contents() == old(out.Contents()) + Row(w, expectedCount).enc(CanonicalRow(values, w.q))
    ensures ok ==> |out.Contents()| == |old(out.Contents())| + expectedCount * w.bits
    ensures ok ==> forall j: nat :: j < |values| ==>
                     BitsAt(out.Contents(), |old(out.Contents())| + j * w.bits, w.bits, values[j] % w.q)
  {
    if |values| != expectedCount {
      return false;
    }
    ghost var row := CanonicalRow(values, w.q);
    ghost var c := Coefficient(w.bits, w.q);
    for i := 0 to |values|
      invariant out.Valid()
      invariant out.Contents() == old(out.Contents()) + RepeatEnc(c, row[..i])
    {
      ghost var before := out.Contents();
      out.Put(Canonical(values[i], w.q), w.bits);
      AppendItem(c, row, i, old(out.Contents()), before, out.Contents());
    }
    assert row[..|values|] == row;
    RowBits(w, old(out.Contents()), values);
    return true;
  }

  method WriteRows(out: BitPacker, rows: seq<seq<int>>, expectedCount: nat, w: WireShape) returns (ok: bool)
    requires w.Valid() && out.Valid()
    modifies out
    ensures ok <==> RowsHaveShape(rows, |rows|, expectedCount)
    ensures ok ==> out.Valid()
    ensures ok ==> out.Contents()
                   == old(out.Contents()) + Rows(w, |rows|, expectedCount).enc(CanonicalRows(rows, w.q))
  {
    hide BitPacker.Contents, NatOf, BitsOf, ByteBits, Pow2, Coefficient, Canonical;
    ghost var canonical := CanonicalRows(rows, w.q);
    ghost var c := Row(w, expectedCount);
    for i := 0 to |rows|
      invariant out.Valid()
      invariant forall k :: 0 <= k < i ==> |rows[k]| == expectedCount
      invariant out.Contents() == old(out.Contents()) + RepeatEnc(c, canonical[..i])
    {
      ghost var before := out.Contents();
      var written := WriteCoefficients(out, rows[i], expectedCount, w);
      if !written {
        return false;
      }
      assert |rows[i]| == expectedCount;
      AppendItem(c, canonical, i, old(out.Contents()), before, out.Contents());
    }
    assert canonical[..|rows|] == canonical;
    return true;
  }

  /** `r` is what `c` makes of the bits `before`, and `input` is left at the bits after it. */
  ghost predicate Reads<T>(c: Codec<bool, T>, before: seq<bool>, r: Option<T>, input: BitUnpacker)
    reads input
  {
    match c.dec(before)
    case None => r.None?
    case Some((x, rest)) => r == Some(x) && input.Valid() && input.Remaining() == rest
  }

  method ReadCoefficient(input: BitUnpacker, w: WireShape) returns (r: Option<nat>)
    requires w.Valid() && input.Valid()
    modifies input
    ensures Reads(Coefficient(w.bits, w.q), old(input.Remaining()), r, input)
    ensures r.Some? ==> r.value < w.q && old(input.Remaining()) == BitsOf(r.value, w.bits) + input.Remaining()
    ensures r.None? ==> forall v: nat, rest: seq<bool> :: v < w.q ==> old(input.Remaining()) != BitsOf(v, w.bits) + rest
  {
    ghost var before := input.Remaining();
    var v := input.Get(w.bits);
    if v.None? || v.value >= w.q {
      NoCoefficient(w, before);
      return None;
    }
    BitsOfNatOf(before[..w.bits]);
    assert before == before[..w.bits] + before[w.bits..];
    return v;
  }

  lemma NoCoefficient(w: WireShape, bs: seq<bool>)
    requires w.Valid() && (|bs| < w.bits || NatOf(bs[..w.bits]) >= w.q)
    ensures forall v: nat, rest: seq<bool> :: v < w.q ==> bs != BitsOf(v, w.bits) + rest
  {
    forall v: nat, rest: seq<bool> | v < w.q
      ensures bs != BitsOf(v, w.bits) + rest
    {
      NatOfBitsOf(v, w.bits);
      assert (BitsOf(v, w.bits) + rest)[..w.bits] == BitsOf(v, w.bits);
    }
  }

  method ReadCoefficients(input: BitUnpacker, count: nat, w: WireShape) returns (r: Option<seq<nat>>)
    requires w.Valid() && input.Valid()
    modifies input
    ensures Reads(Row(w, count), old(input.Remaining()), r, input)
  {
    hide BitUnpacker.Remaining, NatOf, BitsOf, ByteBits, Pow2;
    ghost var c := Coefficient(w.bits, w.q);
    ghost var whole := RepeatDec(c, count, input.Remaining());
    PrependNothing(whole);
    var out: seq<nat> := [];
    for i := 0 to count
      invariant input.Valid()
      invariant whole == Prepend(out, RepeatDec(c, count - i, input.Remaining()))
    {
      ghost var before := input.Remaining();
      var v := ReadCoefficient(input, w);
      if v.None? {
        NoItem(c, count - i, out, before);
        return None;
      }
      NextItem(c, count - i, out, before, v.value, input.Remaining());
      out := out + [v.value];
    }
    assert out + [] == out;
    return Some(out);
  }

  method ReadRows(input: BitUnpacker, rows: nat, count: nat, w: WireShape) returns (r: Option<seq<seq<nat>>>)
    requires w.Valid() && input.Valid()
    modifies input
    ensures Reads(Rows(w, rows, count), old(input.Remaining()), r, input)
  {
    hide BitUnpacker.Remaining, NatOf, BitsOf, ByteBits, Pow2, CoefficientDec, Coefficient;
    ghost var c := Row(w, count);
    ghost var whole := RepeatDec(c, rows, input.Remaining());
    PrependNothing(whole);
    var out: seq<seq<nat>> := [];
    for i := 0 to rows
      invariant input.Valid()
      invariant whole == Prepend(out, RepeatDec(c, rows - i, input.Remaining()))
    {
      ghost var before := input.Remaining();
      var v := ReadCoefficients(input, count, w);
      if v.None? {
        NoItem(c, rows - i, out, before);
        return None;
      }
      NextItem(c, rows - i, out, before, v.value, input.Remaining());
      out := out + [v.value];
    }
    assert out + [] == out;
    return Some(out);
  }

  method ReadSeed(input: BitUnpacker) returns (r: Option<seq<byte>>)
    requires input.Valid()
    requires |input.Remaining()| % 8 == 0
    modifies input
    ensures Reads(Seed(), old(input.Remaining()), r, input)
  {
    r := input.GetBytes(SEED_BYTES);
    if r.Some? {
      ghost var bits := old(input.Remaining());
      assert bits[..8 * SEED_BYTES] == ByteBits(r.value);
      assert bits[8 * SEED_BYTES..] == input.Remaining();
      PaddedByteBits(r.value);
    }
  }

  // ---- Evaluation keys: one stream -------------------------------------------------------

  ghost predicate KeysHaveShape(w: WireShape, m: SeededPublicMaterial) {
    && |m.evalKeySeed| == SEED_BYTES
    && |m.automorphismB| == w.automorphismLevels
    && (forall v :: 0 <= v < |m.automorphismB| ==> RowsHaveShape(m.automorphismB[v], w.kskDigits, w.n))
    && RowsHaveShape(m.skSquaredB, w.primeDigits, w.n)
  }

  ghost function CanonicalLevels(levels: seq<seq<seq<int>>>, q: int): (out: seq<seq<seq<nat>>>)
    requires q > 0
    ensures |out| == |levels|
    ensures forall v :: 0 <= v < |out| ==> out[v] == CanonicalRows(levels[v], q)
  {
    seq(|levels|, v requires 0 <= v < |levels| => CanonicalRows(levels[v], q))
  }

  ghost function KeysValueOf(w: WireShape, m: SeededPublicMaterial): KeysValue
    requires w.Valid()
  {
    ((m.evalKeySeed, CanonicalLevels(m.automorphismB, w.q)), CanonicalRows(m.skSquaredB, w.q))
  }

  ghost function KeysOf(x: KeysValue): SeededPublicMaterial {
    SeededPublicMaterial(x.0.0, x.0.1, x.1)
  }

  /** The key material with every coefficient replaced by its residue in [0, q). */
  ghost function CanonicalKeys(w: WireShape, m: SeededPublicMaterial): SeededPublicMaterial
    requires w.Valid()
  {
    KeysOf(KeysValueOf(w, m))
  }

  ghost function PackedKeys(w: WireShape, m: SeededPublicMaterial): seq<byte>
    requires w.Valid()
  {
    Stream(KeysLayout(w), KeysValueOf(w, m))
  }

  ghost function UnpackedKeys(w: WireShape, stream: seq<byte>): Option<SeededPublicMaterial>
    requires w.Valid()
  {
    if |stream| != KeysStreamBytes(w) then None
    else
      match Accept(KeysLayout(w), stream)
      case None => None
      case Some(x) => Some(KeysOf(x))
  }

  lemma KeysBits(w: WireShape, m: SeededPublicMaterial)
    requires w.Valid()
    ensures KeysLayout(w).enc(KeysValueOf(w, m))
            == ByteBits(m.evalKeySeed)
               + RepeatEnc(Rows(w, w.kskDigits, w.n), CanonicalLevels(m.automorphismB, w.q))
               + Rows(w, |m.skSquaredB|, w.n).enc(CanonicalRows(m.skSquaredB, w.q))
  {
  }

  method PackPublicMaterial(w: WireShape, m: SeededPublicMaterial) returns (r: Option<seq<byte>>)
    requires w.Valid() && |m.evalKeySeed| == SEED_BYTES
    ensures r == if KeysHaveShape(w, m) then Some(PackedKeys(w, m)) else None
  {
    hide BitPacker.Contents, NatOf, BitsOf, ByteBits, Pow2, Coefficient, Canonical, Padded, RowsHaveShape, RepeatEnc;
    if KeysHaveShape(w, m) {
      ShapeCount(m.skSquaredB, w.primeDigits, w.n);
    }
    if |m.automorphismB| != w.automorphismLevels || |m.skSquaredB| != w.primeDigits {
      return None;
    }
    var out := new BitPacker();
    var aligned := out.PutBytes(m.evalKeySeed);
    ghost var start := ByteBits(m.evalKeySeed);
    assert out.Contents() == start;
    ghost var c := Rows(w, w.kskDigits, w.n);
    ghost var levels := CanonicalLevels(m.automorphismB, w.q);
    RepeatEncNone(c);
    assert levels[..0] == [];
    for v := 0 to |m.automorphismB|
      invariant out.Valid()
      invariant forall u :: 0 <= u < v ==> RowsHaveShape(m.automorphismB[u], w.kskDigits, w.n)
      invariant out.Contents() == start + RepeatEnc(c, levels[..v])
    {
      ghost var before := out.Contents();
      if |m.automorphismB[v]| != w.kskDigits {
        if KeysHaveShape(w, m) {
          ShapeCount(m.automorphismB[v], w.kskDigits, w.n);
        }
        return None;
      }
      var written := WriteRows(out, m.automorphismB[v], w.n, w);
      if !written {
        return None;
      }
      AppendItem(c, levels, v, start, before, out.Contents());
    }
    assert levels[..|levels|] == levels;
    var written := WriteRows(out, m.skSquaredB, w.n, w);
    if !written {
      return None;
    }
    KeysBits(w, m);
    assert KeysHaveShape(w, m);
    var stream := out.Finish();
    return Some(stream);
  }

  method ReadLevels(input: BitUnpacker, w: WireShape) returns (r: Option<seq<seq<seq<nat>>>>)
    requires w.Valid() && input.Valid()
    modifies input
    ensures Reads(Levels(w), old(input.Remaining()), r, input)
  {
    hide BitUnpacker.Remaining, ByteBits, BitsOf, Rows, RepeatDec, Prepend;
    ghost var c := Rows(w, w.kskDigits, w.n);
    ghost var whole := RepeatDec(c, w.automorphismLevels, input.Remaining());
    PrependNothing(whole);
    var levels: seq<seq<seq<nat>>> := [];
    for v := 0 to w.automorphismLevels
      invariant input.Valid()
      invariant whole == Prepend(levels, RepeatDec(c, w.automorphismLevels - v, input.Remaining()))
    {
      ghost var before := input.Remaining();
      var level := ReadRows(input, w.kskDigits, w.n, w);
      if level.None? {
        NoItem(c, w.automorphismLevels - v, levels, before);
        return None;
      }
      NextItem(c, w.automorphismLevels - v, levels, before, level.value, input.Remaining());
      levels := levels + [level.value];
    }
    RepeatDone(c, levels, input.Remaining());
    return Some(levels);
  }

  method UnpackPublicMaterial(w: WireShape, stream: seq<byte>) returns (r: Option<SeededPublicMaterial>)
    requires w.Valid()
    ensures r == UnpackedKeys(w, stream)
  {
    hide BitUnpacker.Remaining, NatOf, BitsOf, ByteBits, Pow2, Rows, Levels;
    if |stream| != KeysStreamBytes(w) {
      return None;
    }
    var input := new BitUnpacker(stream);
    var seed := ReadSeed(input);
    if seed.None? {
      return None;
    }
    var levels := ReadLevels(input, w);
    if levels.None? {
      return None;
    }
    var skSquared := ReadRows(input, w.primeDigits, w.n, w);
    if skSquared.None? {
      return None;
    }
    var ended := input.ExpectEnd();
    if !ended {
      return None;
    }
    return Some(SeededPublicMaterial(seed.value, levels.value, skSquared.value));
  }

  // ---- Query: one stream per component ring ----------------------------------------------

  ghost predicate RingHasShape(w: WireShape, query: SeededQuery, ring: int) {
    && 0 <= ring < w.numComponentRings
    && |query.seeds| == |query.embeddingB| == w.numComponentRings
    && |query.seeds[ring]| == SEED_BYTES
    && |query.embeddingB[ring]| == w.embeddingLength
    && (ring == 0 ==> RowsHaveShape(query.selectorB, w.numClusters, w.primeDigits))
  }

  ghost function QueryRingValueOf(w: WireShape, query: SeededQuery, ring: nat): QueryRingValue
    requires w.Valid() && ring < |query.seeds| && ring < |query.embeddingB|
  {
    ((query.seeds[ring], CanonicalRow(query.embeddingB[ring], w.q)),
     if ring == 0 then CanonicalRows(query.selectorB, w.q) else [])
  }

  ghost function PackedQueryRing(w: WireShape, query: SeededQuery, ring: nat): seq<byte>
    requires w.Valid() && ring < |query.seeds| && ring < |query.embeddingB|
  {
    Stream(QueryRingLayout(w, ring), QueryRingValueOf(w, query, ring))
  }

  method PackQueryRing(w: WireShape, query: SeededQuery, ring: int) returns (r: Option<seq<byte>>)
    requires w.Valid() && forall k :: 0 <= k < |query.seeds| ==> |query.seeds[k]| == SEED_BYTES
    ensures r == if RingHasShape(w, query, ring) then Some(PackedQueryRing(w, query, ring)) else None
  {
    hide BitPacker.Contents, NatOf, BitsOf, ByteBits, Pow2, Coefficient, Canonical, Padded, RowsHaveShape, RepeatEnc;
    if RingHasShape(w, query, ring) && ring == 0 {
      ShapeCount(query.selectorB, w.numClusters, w.primeDigits);
    }
    if ring < 0 || ring >= w.numComponentRings {
      return None;
    }
    if |query.seeds| != w.numComponentRings || |query.embeddingB| != w.numComponentRings {
      return None;
    }
    var out := new BitPacker();
    var aligned := out.PutBytes(query.seeds[ring]);
    assert out.Contents() == ByteBits(query.seeds[ring]);
    var written := WriteCoefficients(out, query.embeddingB[ring], w.embeddingLength, w);
    if !written {
      return None;
    }
    if ring == 0 {
      if |query.selectorB| != w.numClusters {
        return None;
      }
      written := WriteRows(out, query.selectorB, w.primeDigits, w);
      if !written {
        return None;
      }
    } else {
      RepeatEncNone(Row(w, w.primeDigits));
    }
    assert out.Contents() == QueryRingLayout(w, ring).enc(QueryRingValueOf(w, query, ring));
    var stream := out.Finish();
    return Some(stream);
  }

  ghost predicate QueryHasShape(w: WireShape, query: SeededQuery) {
    forall k :: 0 <= k < w.numComponentRings ==> RingHasShape(w, query, k)
  }

  ghost function PackedQuery(w: WireShape, query: SeededQuery): (streams: seq<seq<byte>>)
    requires w.Valid() && QueryHasShape(w, query)
    ensures |streams| == w.numComponentRings
  {
    seq(w.numComponentRings, k requires 0 <= k < w.numComponentRings =>
        assert RingHasShape(w, query, k); PackedQueryRing(w, query, k))
  }

  method PackQuery(w: WireShape, query: SeededQuery) returns (r: Option<seq<seq<byte>>>)
    requires w.Valid() && forall k :: 0 <= k < |query.seeds| ==> |query.seeds[k]| == SEED_BYTES
    ensures r == if QueryHasShape(w, query) then Some(PackedQuery(w, query)) else None
  {
    hide Stream, CanonicalRow, CanonicalRows, RingHasShape;
    var streams: seq<seq<byte>> := [];
    for k := 0 to w.numComponentRings
      invariant |streams| == k
      invariant forall i :: 0 <= i < k ==> RingHasShape(w, query, i)
      invariant forall i :: 0 <= i < k && i < |query.seeds| && i < |query.embeddingB| ==>
                  streams[i] == PackedQueryRing(w, query, i)
    {
      var s := PackQueryRing(w, query, k);
      if s.None? {
        return None;
      }
      streams := streams + [s.value];
    }
    RingsExist(w, query);
    assert streams == PackedQuery(w, query);
    return Some(streams);
  }

  lemma RingsExist(w: WireShape, query: SeededQuery)
    requires w.Valid() && QueryHasShape(w, query)
    ensures |query.seeds| == |query.embeddingB| == w.numComponentRings
    ensures forall k :: 0 <= k < w.numComponentRings ==> |query.seeds[k]| == SEED_BYTES
    ensures RowsHaveShape(query.selectorB, w.numClusters, w.primeDigits)
  {
    assert RingHasShape(w, query, 0);
    forall k | 0 <= k < w.numComponentRings
      ensures |query.seeds[k]| == SEED_BYTES
    {
      assert RingHasShape(w, query, k);
    }
  }

  ghost function UnpackedRing(w: WireShape, ring: nat, stream: seq<byte>): Option<QueryRingValue>
    requires w.Valid()
  {
    if |stream| != QueryStreamBytes(w, ring) then None else Accept(QueryRingLayout(w, ring), stream)
  }

  ghost predicate RingsParse(w: WireShape, streams: seq<seq<byte>>)
    requires w.Valid()
  {
    && |streams| == w.numComponentRings
    && forall k :: 0 <= k < |streams| ==> UnpackedRing(w, k, streams[k]).Some?
  }

  ghost function UnpackedQuery(w: WireShape, streams: seq<seq<byte>>): Option<SeededQuery>
    requires w.Valid()
  {
    if !RingsParse(w, streams) then None
    else Some(SeededQuery(
        seq(|streams|, k requires 0 <= k < |streams| => UnpackedRing(w, k, streams[k]).value.0.0),
        seq(|streams|, k requires 0 <= k < |streams| => UnpackedRing(w, k, streams[k]).value.0.1),
        UnpackedRing(w, 0, streams[0]).value.1))
  }

  method UnpackQueryRing(w: WireShape, ring: nat, stream: seq<byte>) returns (r: Option<QueryRingValue>)
    requires w.Valid()
    ensures r == UnpackedRing(w, ring, stream)
  {
    hide BitUnpacker.Remaining, NatOf, BitsOf, ByteBits, Pow2, Coefficient, CoefficientDec, RepeatDec;
    if |stream| != QueryStreamBytes(w, ring) {
      return None;
    }
    var input := new BitUnpacker(stream);
    var seed := ReadSeed(input);
    if seed.None? {
      return None;
    }
    var embedding := ReadCoefficients(input, w.embeddingLength, w);
    if embedding.None? {
      return None;
    }
    var selector := Some([]);
    if ring == 0 {
      selector := ReadRows(input, w.numClusters, w.primeDigits, w);
      if selector.None? {
        return None;
      }
    } else {
      RepeatDecNone(Row(w, w.primeDigits), input.Remaining());
    }
    var ended := input.ExpectEnd();
    if !ended {
      return None;
    }
    return Some(((seed.value, embedding.value), selector.value));
  }

  method UnpackQuery(w: WireShape, streams: seq<seq<byte>>) returns (r: Option<SeededQuery>)
    requires w.Valid()
    ensures r == UnpackedQuery(w, streams)
  {
    hide UnpackedRing;
    if |streams| != w.numComponentRings {
      return None;
    }
    var seeds: seq<seq<byte>> := [];
    var embedding: seq<seq<int>> := [];
    var selector: seq<seq<int>> := [];
    for k := 0 to w.numComponentRings
      invariant |seeds| == |embedding| == k
      invariant forall i :: 0 <= i < k ==> UnpackedRing(w, i, streams[i]).Some?
      invariant forall i :: 0 <= i < k ==> seeds[i] == UnpackedRing(w, i, streams[i]).value.0.0
      invariant forall i :: 0 <= i < k ==> embedding[i] == UnpackedRing(w, i, streams[i]).value.0.1
      invariant k > 0 ==> selector == UnpackedRing(w, 0, streams[0]).value.1
    {
      var ring := UnpackQueryRing(w, k, streams[k]);
      if ring.None? {
        return None;
      }
      seeds := seeds + [ring.value.0.0];
      embedding := embedding + [ring.value.0.1];
      if k == 0 {
        selector := ring.value.1;
      }
    }
    ghost var q := UnpackedQuery(w, streams).value;
    assert seeds == q.seeds;
    assert embedding == q.embeddingB;
    return Some(SeededQuery(seeds, embedding, selector));
  }

  // ---- Response: one stream per component ring --------------------------------------------

  ghost predicate CiphertextsHaveDimension(w: WireShape, cts: seq<RlweCt>) {
    forall s :: 0 <= s < |cts| ==> |cts[s].a| == |cts[s].b| == w.n
  }

  ghost function CanonicalCt(w: WireShape, ct: RlweCt): (seq<nat>, seq<nat>)
    requires w.Valid()
  {
    (CanonicalRow(ct.a, w.q), CanonicalRow(ct.b, w.q))
  }

  ghost function ResponseValueOf(w: WireShape, cts: seq<RlweCt>): (out: ResponseValue)
    requires w.Valid()
    ensures |out| == |cts|
    ensures forall s :: 0 <= s < |out| ==> out[s] == CanonicalCt(w, cts[s])
  {
    seq(|cts|, s requires 0 <= s < |cts| => CanonicalCt(w, cts[s]))
  }

  ghost function CiphertextsOf(x: ResponseValue): (cts: seq<RlweCt>)
    ensures |cts| == |x|
    ensures forall s :: 0 <= s < |cts| ==> cts[s] == RlweCt(x[s].0, x[s].1)
  {
    seq(|x|, s requires 0 <= s < |x| => RlweCt(x[s].0, x[s].1))
  }

  ghost function PackedResponse(w: WireShape, cts: seq<RlweCt>): seq<byte>
    requires w.Valid()
  {
    Stream(ResponseLayout(w), ResponseValueOf(w, cts))
  }

  ghost function UnpackedResponse(w: WireShape, stream: seq<byte>): Option<seq<RlweCt>>
    requires w.Valid()
  {
    if |stream| != ResponseStreamBytes(w) then None
    else
      match Accept(ResponseLayout(w), stream)
      case None => None
      case Some(x) => Some(CiphertextsOf(x))
  }

  method PackResponseRing(w: WireShape, cts: seq<RlweCt>) returns (r: Option<seq<byte>>)
    requires w.Valid() && CiphertextsHaveDimension(w, cts)
    ensures r == if |cts| == w.splitsPerCluster then Some(PackedResponse(w, cts)) else None
  {
    hide BitPacker.Contents, NatOf, BitsOf, ByteBits, Pow2, Coefficient, Canonical, Padded, RepeatEnc;
    if |cts| != w.splitsPerCluster {
      return None;
    }
    ghost var c := CiphertextLayout(w);
    ghost var values := ResponseValueOf(w, cts);
    RepeatEncNone(c);
    assert values[..0] == [];
    var out := new BitPacker();
    for s := 0 to |cts|
      invariant out.Valid()
      invariant out.Contents() == RepeatEnc(c, values[..s])
    {
      ghost var before := out.Contents();
      var written := WriteCoefficients(out, cts[s].a, w.n, w);
      written := WriteCoefficients(out, cts[s].b, w.n, w);
      Assoc(before, Row(w, w.n).enc(values[s].0), Row(w, w.n).enc(values[s].1));
      AppendItem(c, values, s, [], before, out.Contents());
    }
    assert values[..|cts|] == values;
    var stream := out.Finish();
    return Some(stream);
  }

  method ReadCiphertext(input: BitUnpacker, w: WireShape) returns (r: Option<RlweCt>)
    requires w.Valid() && input.Valid()
    modifies input
    ensures r.None? ==> CiphertextLayout(w).dec(old(input.Remaining())) == None
    ensures r.Some? ==> && CiphertextLayout(w).dec(old(input.Remaining())).Some?
                        && var (x, rest) := CiphertextLayout(w).dec(old(input.Remaining())).value;
                           r.value == RlweCt(x.0, x.1) && input.Valid() && input.Remaining() == rest
  {
    hide BitUnpacker.Remaining, ByteBits, BitsOf, Row;
    var a := ReadCoefficients(input, w.n, w);
    if a.None? {
      return None;
    }
    var b := ReadCoefficients(input, w.n, w);
    if b.None? {
      return None;
    }
    return Some(RlweCt(a.value, b.value));
  }

  method UnpackResponseRing(w: WireShape, stream: seq<byte>) returns (r: Option<seq<RlweCt>>)
    requires w.Valid()
    ensures r == UnpackedResponse(w, stream)
  {
    hide BitUnpacker.Remaining, NatOf, BitsOf, ByteBits, Pow2, CiphertextLayout, RepeatDec, Prepend;
    if |stream| != ResponseStreamBytes(w) {
      return None;
    }
    var input := new BitUnpacker(stream);
    ghost var c := CiphertextLayout(w);
    ghost var whole := RepeatDec(c, w.splitsPerCluster, input.Remaining());
    PrependNothing(whole);
    ghost var values: ResponseValue := [];
    var cts: seq<RlweCt> := [];
    for s := 0 to w.splitsPerCluster
      invariant input.Valid()
      invariant cts == CiphertextsOf(values)
      invariant whole == Prepend(values, RepeatDec(c, w.splitsPerCluster - s, input.Remaining()))
    {
      ghost var before := input.Remaining();
      var ct := ReadCiphertext(input, w);
      if ct.None? {
        NoItem(c, w.splitsPerCluster - s, values, before);
        return None;
      }
      ghost var value := c.dec(before).value.0;
      NextItem(c, w.splitsPerCluster - s, values, before, value, input.Remaining());
      values := values + [value];
      cts := cts + [ct.value];
    }
    RepeatDone(c, values, input.Remaining());
    var ended := input.ExpectEnd();
    if !ended {
      return None;
    }
    return Some(cts);
  }
}
