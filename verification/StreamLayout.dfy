/** The bytes of the packed streams, bit by bit (include/stream_packing.hpp): which bit of which
    coefficient stands where, with no reference to how it was written. */
module StreamLayout {
  import opened MachineInts
  import opened Bits
  import opened Codecs
  import opened Messages
  import opened StreamCodecs
  import opened StreamPacking
  import StreamTheorems

  /** Bit `x` of a byte string is bit x % 8 of byte x / 8. */
  predicate BitSet(stream: seq<byte>, x: int)
    requires 0 <= x < 8 * |stream|
  {
    (stream[x / 8] as nat / Pow2(x % 8)) % 2 == 1
  }

  /** The `bits` bits from bit `at` on are those of `v`, least significant first. */
  ghost predicate ValueAt(stream: seq<byte>, at: int, bits: nat, v: int) {
    && 0 <= at && at + bits <= 8 * |stream| && 0 <= v < Pow2(bits)
    && forall i: nat :: i < bits ==> (BitSet(stream, at + i) <==> (v / Pow2(i)) % 2 == 1)
  }

  /** All bits from bit `at` on are zero, and there are fewer than eight of them. */
  ghost predicate PaddingFrom(stream: seq<byte>, at: int) {
    && 0 <= at <= 8 * |stream| < at + 8
    && forall x :: at <= x < 8 * |stream| ==> !BitSet(stream, x)
  }

  lemma BitSetAt(stream: seq<byte>, x: nat)
    requires x < 8 * |stream|
    ensures BitSet(stream, x) <==> ByteBits(stream)[x]
  {
    ByteBitAt(stream, x / 8, x % 8);
  }

  lemma PartIsValue(stream: seq<byte>, at: nat, bits: nat, v: nat)
    requires v < Pow2(bits) && PartAt(ByteBits(stream), at, BitsOf(v, bits))
    ensures ValueAt(stream, at, bits, v)
  {
    hide ByteBits, BitsOf, BitSet, Pow2;
    forall i: nat | i < bits
      ensures BitSet(stream, at + i) <==> (v / Pow2(i)) % 2 == 1
    {
      BitSetAt(stream, at + i);
      BitAt(v, bits, i);
      assert ByteBits(stream)[at..at + bits][i] == ByteBits(stream)[at + i];
    }
  }

  lemma PaddedParts(bs: seq<bool>)
    ensures PartAt(ByteBits(Padded(bs)), 0, bs)
    ensures PaddingFrom(Padded(bs), |bs|)
  {
    hide BitSet;
    var stream := Padded(bs);
    PaddedBits(bs);
    forall x | |bs| <= x < 8 * |stream|
      ensures !BitSet(stream, x)
    {
      BitSetAt(stream, x);
      assert ByteBits(stream)[|bs|..][x - |bs|] == ByteBits(stream)[x];
    }
  }

  /** The first sixteen bytes, when their bits come first. */
  lemma SeedFirst(stream: seq<byte>, seed: seq<byte>)
    requires |seed| == 16 && PartAt(ByteBits(stream), 0, ByteBits(seed))
    ensures |stream| >= 16 && stream[..16] == seed
  {
    assert stream == stream[..16] + stream[16..];
    ByteBitsAppend(stream[..16], stream[16..]);
    assert ByteBits(stream)[..128] == ByteBits(stream[..16]);
    ByteBitsInjective(stream[..16], seed);
  }

  // ---- Rows of coefficients ------------------------------------------------------------------

  lemma RowValue(w: WireShape, stream: seq<byte>, at: nat, values: seq<int>, j: nat, place: int)
    requires w.Valid() && j < |values| && place == at + j * w.bits
    requires PartAt(ByteBits(stream), at, Row(w, |values|).enc(CanonicalRow(values, w.q)))
    ensures ValueAt(stream, place, w.bits, values[j] % w.q)
  {
    hide Pow2, BitsOf, ByteBits, Row, CanonicalRow, PartAt, ValueAt;
    RowCoefficient(w, ByteBits(stream), at, values, j);
    PartIsValue(stream, place, w.bits, values[j] % w.q);
  }

  lemma RowsValue(w: WireShape, stream: seq<byte>, at: nat, rows: seq<seq<int>>, width: nat, d: nat, j: nat, place: int)
    requires w.Valid() && d < |rows| && j < width && forall i :: 0 <= i < |rows| ==> |rows[i]| == width
    requires PartAt(ByteBits(stream), at, Rows(w, |rows|, width).enc(CanonicalRows(rows, w.q)))
    requires place == at + (d * width + j) * w.bits
    ensures ValueAt(stream, place, w.bits, rows[d][j] % w.q)
  {
    hide Pow2, BitsOf, ByteBits, Rows, CanonicalRows, PartAt, ValueAt;
    RowsCoefficient(w, ByteBits(stream), at, rows, width, d, j);
    PartIsValue(stream, place, w.bits, rows[d][j] % w.q);
  }

  /** Row `d` of rows of `width` coefficients. */
  lemma RowPart(w: WireShape, bs: seq<bool>, at: nat, rows: seq<seq<int>>, width: nat, d: nat)
    requires w.Valid() && d < |rows| && forall i :: 0 <= i < |rows| ==> |rows[i]| == width
    requires PartAt(bs, at, Rows(w, |rows|, width).enc(CanonicalRows(rows, w.q)))
    ensures d * (width * w.bits) >= 0
    ensures PartAt(bs, at + d * (width * w.bits), Row(w, width).enc(CanonicalRow(rows[d], w.q)))
  {
    hide Pow2, CanonicalRow, PartAt;
    var c, out := Row(w, width), CanonicalRows(rows, w.q);
    RowLawful(w, width);
    StreamTheorems.CanonicalRowsOk(w, rows, |rows|, width);
    MulNonNegative(width, w.bits);
    FixedPart(c, width * w.bits, out, d);
    PartOfPart(bs, at, RepeatEnc(c, out), d * (width * w.bits), c.enc(out[d]));
  }

  lemma RowPlace(d: int, width: int, bits: int, j: int)
    ensures d * (width * bits) + j * bits == (d * width + j) * bits
  {
    assert d * (width * bits) == (d * width) * bits;
  }

  /** Coefficient `j` of row `d`. */
  lemma RowsCoefficient(w: WireShape, bs: seq<bool>, at: nat, rows: seq<seq<int>>, width: nat, d: nat, j: nat)
    requires w.Valid() && d < |rows| && j < width && forall i :: 0 <= i < |rows| ==> |rows[i]| == width
    requires PartAt(bs, at, Rows(w, |rows|, width).enc(CanonicalRows(rows, w.q)))
    ensures rows[d][j] % w.q < Pow2(w.bits) && at + (d * width + j) * w.bits >= 0
    ensures PartAt(bs, at + (d * width + j) * w.bits, BitsOf(rows[d][j] % w.q, w.bits))
  {
    hide Pow2, BitsOf, Row, Rows, CanonicalRow, PartAt;
    RowPart(w, bs, at, rows, width, d);
    RowCoefficient(w, bs, at + d * (width * w.bits), rows[d], j);
    RowPlace(d, width, w.bits, j);
  }

  // ---- Which shapes are packed ---------------------------------------------------------------

  lemma KeysShapeSpelledOut(w: WireShape, m: SeededPublicMaterial)
    ensures KeysHaveShape(w, m)
            <==> && |m.evalKeySeed| == 16 && |m.automorphismB| == w.automorphismLevels
                 && (forall v :: 0 <= v < |m.automorphismB| ==> |m.automorphismB[v]| == w.kskDigits)
                 && (forall v, d :: 0 <= v < |m.automorphismB| && 0 <= d < |m.automorphismB[v]| ==>
                       |m.automorphismB[v][d]| == w.n)
                 && |m.skSquaredB| == w.primeDigits
                 && (forall d :: 0 <= d < |m.skSquaredB| ==> |m.skSquaredB[d]| == w.n)
  {
    forall v | 0 <= v < |m.automorphismB|
      ensures RowsHaveShape(m.automorphismB[v], w.kskDigits, w.n)
              <==> && |m.automorphismB[v]| == w.kskDigits
                   && forall d :: 0 <= d < |m.automorphismB[v]| ==> |m.automorphismB[v][d]| == w.n
    {
    }
  }

  lemma RingShapeSpelledOut(w: WireShape, query: SeededQuery, ring: int)
    ensures RingHasShape(w, query, ring)
            <==> && 0 <= ring < w.numComponentRings == |query.seeds| == |query.embeddingB|
                 && |query.seeds[ring]| == 16 && |query.embeddingB[ring]| == w.embeddingLength
                 && (ring == 0 ==>
                       && |query.selectorB| == w.numClusters
                       && forall c :: 0 <= c < |query.selectorB| ==> |query.selectorB[c]| == w.primeDigits)
  {
  }

  // ---- Evaluation keys ---------------------------------------------------------------------------

  /** The whole stream of keys: the seed, then coefficient j of digit d of level v in place
      (v * kskDigits + d) * n + j, then those of the sk^2 digits, then padding. */
  ghost predicate KeysBytes(w: WireShape, m: SeededPublicMaterial, stream: seq<byte>) {
    var levelRows := w.automorphismLevels * w.kskDigits;
    && 0 < w.q && |m.automorphismB| == w.automorphismLevels && |m.skSquaredB| == w.primeDigits
    && |stream| >= 16 && stream[..16] == m.evalKeySeed
    && (forall v: nat, d: nat, j: nat :: v < w.automorphismLevels && d < w.kskDigits && j < w.n ==>
          && |m.automorphismB[v]| == w.kskDigits && |m.automorphismB[v][d]| == w.n
          && ValueAt(stream, 128 + ((v * w.kskDigits + d) * w.n + j) * w.bits, w.bits, m.automorphismB[v][d][j] % w.q))
    && (forall d: nat, j: nat :: d < w.primeDigits && j < w.n ==>
          && |m.skSquaredB[d]| == w.n
          && ValueAt(stream, 128 + ((levelRows + d) * w.n + j) * w.bits, w.bits, m.skSquaredB[d][j] % w.q))
    && PaddingFrom(stream, 128 + (levelRows + w.primeDigits) * w.n * w.bits)
  }

  lemma Place(a: int, b: int, c: int, d: int, e: int, f: int)
    ensures a * (b * c * d) + (e * c + f) * d == ((a * b + e) * c + f) * d
  {
    assert a * (b * c * d) == (a * b * c) * d;
    assert (a * b + e) * c == a * b * c + e * c;
    assert (a * b * c) * d + (e * c + f) * d == (a * b * c + e * c + f) * d;
  }

  /** Where the levels end and the sk^2 rows start. */
  ghost function LevelBits(w: WireShape): nat {
    w.automorphismLevels * w.kskDigits * w.n * w.bits
  }

  lemma LevelsSize(w: WireShape)
    requires w.Valid()
    ensures FixedSize(Rows(w, w.kskDigits, w.n), w.kskDigits * w.n * w.bits)
    ensures FixedSize(Levels(w), LevelBits(w))
  {
    hide FixedSize, Rows;
    RowsLawful(w, w.kskDigits, w.n);
    RepeatFixedSize(Rows(w, w.kskDigits, w.n), w.kskDigits * w.n * w.bits, w.automorphismLevels);
    assert w.automorphismLevels * (w.kskDigits * w.n * w.bits) == LevelBits(w);
  }

  /** Level `v` among the levels. */
  lemma LevelPart(w: WireShape, bs: seq<bool>, at: nat, m: SeededPublicMaterial, v: nat, size: nat)
    requires w.Valid() && KeysHaveShape(w, m) && v < w.automorphismLevels
    requires size == w.kskDigits * w.n * w.bits
    requires PartAt(bs, at, Levels(w).enc(CanonicalLevels(m.automorphismB, w.q)))
    ensures v * size >= 0
    ensures PartAt(bs, at + v * size, Rows(w, w.kskDigits, w.n).enc(CanonicalRows(m.automorphismB[v], w.q)))
  {
    hide Rows, CanonicalRows, PartAt, FixedSize;
    var c, levels := Rows(w, w.kskDigits, w.n), CanonicalLevels(m.automorphismB, w.q);
    LevelsSize(w);
    assert AllOk(c, levels) by {
      StreamTheorems.KeysValueOk(w, m);
    }
    FixedPart(c, size, levels, v);
    PartOfPart(bs, at, RepeatEnc(c, levels), v * size, c.enc(levels[v]));
  }

  /** The parts of the keys' bits. */
  lemma KeysParts(w: WireShape, m: SeededPublicMaterial)
    requires w.Valid() && KeysHaveShape(w, m)
    ensures var bs := KeysLayout(w).enc(KeysValueOf(w, m));
            && PartAt(bs, 0, ByteBits(m.evalKeySeed))
            && PartAt(bs, 128, Levels(w).enc(CanonicalLevels(m.automorphismB, w.q)))
            && PartAt(bs, 128 + LevelBits(w), Rows(w, w.primeDigits, w.n).enc(CanonicalRows(m.skSquaredB, w.q)))
            && w.primeDigits * w.n * w.bits >= 0
            && |bs| == 128 + LevelBits(w) + w.primeDigits * w.n * w.bits
  {
    hide Rows, Levels, FixedSize, PartAt;
    var seed := ByteBits(m.evalKeySeed);
    var levels := Levels(w).enc(CanonicalLevels(m.automorphismB, w.q));
    var rows := Rows(w, w.primeDigits, w.n).enc(CanonicalRows(m.skSquaredB, w.q));
    assert |levels| == LevelBits(w) && |rows| == w.primeDigits * w.n * w.bits by {
      LevelsSize(w);
      RowsLawful(w, w.primeDigits, w.n);
      StreamTheorems.KeysValueOk(w, m);
      SizeOf(Levels(w), LevelBits(w), CanonicalLevels(m.automorphismB, w.q));
      SizeOf(Rows(w, w.primeDigits, w.n), w.primeDigits * w.n * w.bits, CanonicalRows(m.skSquaredB, w.q));
    }
    var bs := seed + levels + rows;
    assert KeysLayout(w).enc(KeysValueOf(w, m)) == bs;
    PairParts(seed, levels);
    PairParts(seed + levels, rows);
    PartOfPart(bs, 0, seed + levels, 0, seed);
    PartOfPart(bs, 0, seed + levels, 128, levels);
  }

  lemma SizeOf<T(!new)>(c: Codec<bool, T>, size: int, x: T)
    requires size >= 0 && FixedSize(c, size) && c.ok(x)
    ensures |c.enc(x)| == size
  {
  }

  lemma KeysLevelValue(w: WireShape, m: SeededPublicMaterial, v: nat, d: nat, j: nat)
    requires w.Valid() && KeysHaveShape(w, m) && v < w.automorphismLevels && d < w.kskDigits && j < w.n
    ensures |m.automorphismB[v]| == w.kskDigits && |m.automorphismB[v][d]| == w.n
    ensures ValueAt(PackedKeys(w, m), 128 + ((v * w.kskDigits + d) * w.n + j) * w.bits, w.bits,
                    m.automorphismB[v][d][j] % w.q)
  {
    hide Pow2, BitsOf, ByteBits, Padded, Rows, Levels, Canonical, CanonicalRows, CanonicalLevels, PartAt, BitSet,
      KeysLayout, ValueAt;
    var bs, stream := KeysLayout(w).enc(KeysValueOf(w, m)), PackedKeys(w, m);
    var at := 128 + ((v * w.kskDigits + d) * w.n + j) * w.bits;
    KeysParts(w, m);
    PaddedParts(bs);
    PartOfPart(ByteBits(stream), 0, bs, 128, Levels(w).enc(CanonicalLevels(m.automorphismB, w.q)));
    var size := w.kskDigits * w.n * w.bits;
    MulNonNegative(w.kskDigits, w.n);
    MulNonNegative(w.kskDigits * w.n, w.bits);
    LevelPart(w, ByteBits(stream), 128, m, v, size);
    Place(v, w.kskDigits, w.n, w.bits, d, j);
    RowsValue(w, stream, 128 + v * size, m.automorphismB[v], w.n, d, j, at);
  }

  lemma SkPlace(a: int, b: int, c: int, d: int, e: int, f: int)
    ensures a * b * c * d + (e * c + f) * d == ((a * b + e) * c + f) * d
  {
    Place(a, b, c, d, e, f);
    assert a * (b * c * d) == a * b * c * d;
  }

  lemma KeysSkValue(w: WireShape, m: SeededPublicMaterial, d: nat, j: nat)
    requires w.Valid() && KeysHaveShape(w, m) && d < w.primeDigits && j < w.n
    ensures |m.skSquaredB| == w.primeDigits && |m.skSquaredB[d]| == w.n
    ensures ValueAt(PackedKeys(w, m), 128 + ((w.automorphismLevels * w.kskDigits + d) * w.n + j) * w.bits, w.bits,
                    m.skSquaredB[d][j] % w.q)
  {
    hide Pow2, BitsOf, ByteBits, Padded, Rows, Levels, Canonical, CanonicalRows, CanonicalLevels, PartAt, BitSet,
      KeysLayout, ValueAt;
    var bs, stream := KeysLayout(w).enc(KeysValueOf(w, m)), PackedKeys(w, m);
    KeysParts(w, m);
    PaddedParts(bs);
    var part := Rows(w, w.primeDigits, w.n).enc(CanonicalRows(m.skSquaredB, w.q));
    PartOfPart(ByteBits(stream), 0, bs, 128 + LevelBits(w), part);
    SkPlace(w.automorphismLevels, w.kskDigits, w.n, w.bits, d, j);
    RowsValue(w, stream, 128 + LevelBits(w), m.skSquaredB, w.n, d, j,
              128 + ((w.automorphismLevels * w.kskDigits + d) * w.n + j) * w.bits);
  }

  lemma KeysEnds(w: WireShape, m: SeededPublicMaterial)
    requires w.Valid() && KeysHaveShape(w, m)
    ensures var stream := PackedKeys(w, m);
            && |stream| >= 16 && stream[..16] == m.evalKeySeed
            && PaddingFrom(stream, 128 + (w.automorphismLevels * w.kskDigits + w.primeDigits) * w.n * w.bits)
  {
    hide Pow2, BitsOf, ByteBits, Padded, Rows, Levels, Canonical, CanonicalRows, CanonicalLevels, PartAt, BitSet,
      KeysLayout, PaddingFrom;
    var bs, stream := KeysLayout(w).enc(KeysValueOf(w, m)), PackedKeys(w, m);
    KeysParts(w, m);
    PaddedParts(bs);
    PartOfPart(ByteBits(stream), 0, bs, 0, ByteBits(m.evalKeySeed));
    SeedFirst(stream, m.evalKeySeed);
    EndPlace(w.automorphismLevels * w.kskDigits, w.primeDigits, w.n, w.bits);
  }

  lemma EndPlace(a: int, b: int, c: int, d: int)
    ensures a * c * d + b * c * d == (a + b) * c * d
  {
    assert (a + b) * c == a * c + b * c;
    assert (a * c + b * c) * d == a * c * d + b * c * d;
  }

  /** What the packer of keys emits. */
  lemma KeysSpelledOut(w: WireShape, m: SeededPublicMaterial)
    requires w.Valid() && KeysHaveShape(w, m)
    ensures KeysBytes(w, m, PackedKeys(w, m))
  {
    hide ValueAt, PaddingFrom, PackedKeys;
    KeysEnds(w, m);
    forall v: nat, d: nat, j: nat | v < w.automorphismLevels && d < w.kskDigits && j < w.n
      ensures |m.automorphismB[v]| == w.kskDigits && |m.automorphismB[v][d]| == w.n
              && ValueAt(PackedKeys(w, m), 128 + ((v * w.kskDigits + d) * w.n + j) * w.bits, w.bits,
                         m.automorphismB[v][d][j] % w.q)
    {
      KeysLevelValue(w, m, v, d, j);
    }
    forall d: nat, j: nat | d < w.primeDigits && j < w.n
      ensures |m.skSquaredB[d]| == w.n
              && ValueAt(PackedKeys(w, m), 128 + ((w.automorphismLevels * w.kskDigits + d) * w.n + j) * w.bits, w.bits,
                         m.skSquaredB[d][j] % w.q)
    {
      KeysSkValue(w, m, d, j);
    }
  }

  // ---- Query -----------------------------------------------------------------------------------

  /** A ring's stream: the seed, then embedding coefficient j in place j; ring 0 goes on with digit d of
      cluster c in place embeddingLength + c * primeDigits + d; then padding. */
  ghost predicate QueryRingBytes(w: WireShape, query: SeededQuery, ring: nat, stream: seq<byte>) {
    var cts := if ring == 0 then w.embeddingLength + w.numClusters * w.primeDigits else w.embeddingLength;
    && 0 < w.q && ring < |query.seeds| && ring < |query.embeddingB|
    && |stream| >= 16 && stream[..16] == query.seeds[ring]
    && |query.embeddingB[ring]| == w.embeddingLength
    && (forall j: nat :: j < w.embeddingLength ==>
          ValueAt(stream, 128 + j * w.bits, w.bits, query.embeddingB[ring][j] % w.q))
    && (ring == 0 ==>
          && |query.selectorB| == w.numClusters
          && forall c: nat, d: nat :: c < w.numClusters && d < w.primeDigits ==>
               && |query.selectorB[c]| == w.primeDigits
               && ValueAt(stream, 128 + (w.embeddingLength + c * w.primeDigits + d) * w.bits, w.bits,
                          query.selectorB[c][d] % w.q))
    && PaddingFrom(stream, 128 + cts * w.bits)
  }

  lemma RingParts(w: WireShape, query: SeededQuery, ring: nat)
    requires w.Valid() && RingHasShape(w, query, ring)
    ensures var bs := QueryRingLayout(w, ring).enc(QueryRingValueOf(w, query, ring));
            && w.embeddingLength * w.bits >= 0
            && PartAt(bs, 0, ByteBits(query.seeds[ring]))
            && PartAt(bs, 128, Row(w, w.embeddingLength).enc(CanonicalRow(query.embeddingB[ring], w.q)))
            && (ring == 0 ==>
                  PartAt(bs, 128 + w.embeddingLength * w.bits,
                         Rows(w, w.numClusters, w.primeDigits).enc(CanonicalRows(query.selectorB, w.q))))
            && |bs| == 128 + w.embeddingLength * w.bits
                       + if ring == 0 then w.numClusters * w.primeDigits * w.bits else 0
  {
    hide FixedSize, PartAt, Row;
    var seed := ByteBits(query.seeds[ring]);
    var row := Row(w, w.embeddingLength).enc(CanonicalRow(query.embeddingB[ring], w.q));
    var rows := QueryRingValueOf(w, query, ring).1;
    var selector := Rows(w, SelectorRows(w, ring), w.primeDigits).enc(rows);
    RowLawful(w, w.embeddingLength);
    MulNonNegative(w.embeddingLength, w.bits);
    StreamTheorems.CanonicalRowOk(w, query.embeddingB[ring]);
    SizeOf(Row(w, w.embeddingLength), w.embeddingLength * w.bits, CanonicalRow(query.embeddingB[ring], w.q));
    if ring == 0 {
      RowsLawful(w, w.numClusters, w.primeDigits);
      StreamTheorems.CanonicalRowsOk(w, query.selectorB, w.numClusters, w.primeDigits);
      MulNonNegative(w.numClusters, w.primeDigits);
      MulNonNegative(w.numClusters * w.primeDigits, w.bits);
      SizeOf(Rows(w, w.numClusters, w.primeDigits), w.numClusters * w.primeDigits * w.bits, rows);
    } else {
      RepeatEncNone(Row(w, w.primeDigits));
    }
    var bs := seed + row + selector;
    assert QueryRingLayout(w, ring).enc(QueryRingValueOf(w, query, ring)) == bs;
    PairParts(seed, row);
    PairParts(seed + row, selector);
    PartOfPart(bs, 0, seed + row, 0, seed);
    PartOfPart(bs, 0, seed + row, 128, row);
  }

  lemma RingEmbeddingValue(w: WireShape, query: SeededQuery, ring: nat, j: nat)
    requires w.Valid() && RingHasShape(w, query, ring) && j < w.embeddingLength
    ensures ValueAt(PackedQueryRing(w, query, ring), 128 + j * w.bits, w.bits, query.embeddingB[ring][j] % w.q)
  {
    hide Pow2, BitsOf, ByteBits, Padded, Row, Rows, Canonical, CanonicalRow, CanonicalRows, PartAt, BitSet,
      QueryRingLayout, ValueAt;
    var bs := QueryRingLayout(w, ring).enc(QueryRingValueOf(w, query, ring));
    var stream := PackedQueryRing(w, query, ring);
    RingParts(w, query, ring);
    PaddedParts(bs);
    PartOfPart(ByteBits(stream), 0, bs, 128, Row(w, w.embeddingLength).enc(CanonicalRow(query.embeddingB[ring], w.q)));
    RowValue(w, stream, 128, query.embeddingB[ring], j, 128 + j * w.bits);
  }

  lemma RingSelectorValue(w: WireShape, query: SeededQuery, c: nat, d: nat)
    requires w.Valid() && RingHasShape(w, query, 0) && c < w.numClusters && d < w.primeDigits
    ensures |query.selectorB| == w.numClusters && |query.selectorB[c]| == w.primeDigits
    ensures ValueAt(PackedQueryRing(w, query, 0), 128 + (w.embeddingLength + c * w.primeDigits + d) * w.bits, w.bits,
                    query.selectorB[c][d] % w.q)
  {
    hide Pow2, BitsOf, ByteBits, Padded, Row, Rows, Canonical, CanonicalRow, CanonicalRows, PartAt, BitSet,
      QueryRingLayout, ValueAt;
    var bs := QueryRingLayout(w, 0).enc(QueryRingValueOf(w, query, 0));
    var stream := PackedQueryRing(w, query, 0);
    var start := 128 + w.embeddingLength * w.bits;
    RingParts(w, query, 0);
    PaddedParts(bs);
    var part := Rows(w, w.numClusters, w.primeDigits).enc(CanonicalRows(query.selectorB, w.q));
    PartOfPart(ByteBits(stream), 0, bs, start, part);
    Distributed(w.embeddingLength, c * w.primeDigits + d, w.bits);
    RowsValue(w, stream, start, query.selectorB, w.primeDigits, c, d,
              128 + (w.embeddingLength + c * w.primeDigits + d) * w.bits);
  }

  lemma Distributed(a: int, b: int, c: int)
    ensures (a + b) * c == a * c + b * c
  {
  }

  lemma RingEnds(w: WireShape, query: SeededQuery, ring: nat)
    requires w.Valid() && RingHasShape(w, query, ring)
    ensures var stream := PackedQueryRing(w, query, ring);
            var cts := if ring == 0 then w.embeddingLength + w.numClusters * w.primeDigits else w.embeddingLength;
            |stream| >= 16 && stream[..16] == query.seeds[ring] && PaddingFrom(stream, 128 + cts * w.bits)
  {
    hide Pow2, BitsOf, ByteBits, Padded, Row, Rows, Canonical, CanonicalRow, CanonicalRows, PartAt, BitSet,
      QueryRingLayout, PaddingFrom;
    var bs := QueryRingLayout(w, ring).enc(QueryRingValueOf(w, query, ring));
    var stream := PackedQueryRing(w, query, ring);
    RingParts(w, query, ring);
    PaddedParts(bs);
    PartOfPart(ByteBits(stream), 0, bs, 0, ByteBits(query.seeds[ring]));
    SeedFirst(stream, query.seeds[ring]);
    Distributed(w.embeddingLength, w.numClusters * w.primeDigits, w.bits);
  }

  /** What the packer of a ring's query emits. */
  lemma QueryRingSpelledOut(w: WireShape, query: SeededQuery, ring: nat)
    requires w.Valid() && RingHasShape(w, query, ring)
    ensures QueryRingBytes(w, query, ring, PackedQueryRing(w, query, ring))
  {
    hide ValueAt, PaddingFrom, PackedQueryRing;
    RingEnds(w, query, ring);
    forall j: nat | j < w.embeddingLength
      ensures ValueAt(PackedQueryRing(w, query, ring), 128 + j * w.bits, w.bits, query.embeddingB[ring][j] % w.q)
    {
      RingEmbeddingValue(w, query, ring, j);
    }
    if ring == 0 {
      forall c: nat, d: nat | c < w.numClusters && d < w.primeDigits
        ensures |query.selectorB[c]| == w.primeDigits
                && ValueAt(PackedQueryRing(w, query, ring), 128 + (w.embeddingLength + c * w.primeDigits + d) * w.bits,
                           w.bits, query.selectorB[c][d] % w.q)
      {
        RingSelectorValue(w, query, c, d);
      }
    }
  }

  // ---- Response ----------------------------------------------------------------------------------

  /** A ring's response: coefficient j of ciphertext s's a in place 2 * s * n + j, of its b in place
      (2 * s + 1) * n + j; then padding. */
  ghost predicate ResponseBytes(w: WireShape, cts: seq<RlweCt>, stream: seq<byte>) {
    && 0 < w.q && |cts| == w.splitsPerCluster
    && (forall s: nat, j: nat :: s < |cts| && j < w.n ==>
          && |cts[s].a| == |cts[s].b| == w.n
          && ValueAt(stream, (2 * s * w.n + j) * w.bits, w.bits, cts[s].a[j] % w.q)
          && ValueAt(stream, ((2 * s + 1) * w.n + j) * w.bits, w.bits, cts[s].b[j] % w.q))
    && PaddingFrom(stream, 2 * w.splitsPerCluster * w.n * w.bits)
  }

  lemma CiphertextSize(w: WireShape)
    requires w.Valid()
    ensures 2 * w.n * w.bits >= 0 && FixedSize(CiphertextLayout(w), 2 * w.n * w.bits)
  {
    hide FixedSize, Row;
    RowLawful(w, w.n);
    PairFixedSize(Row(w, w.n), Row(w, w.n), w.n * w.bits, w.n * w.bits);
    assert 2 * w.n * w.bits == w.n * w.bits + w.n * w.bits;
    MulNonNegative(2 * w.n, w.bits);
  }

  lemma ResponseOk(w: WireShape, cts: seq<RlweCt>)
    requires w.Valid() && CiphertextsHaveDimension(w, cts)
    ensures AllOk(CiphertextLayout(w), ResponseValueOf(w, cts))
  {
    forall s | 0 <= s < |cts|
      ensures CiphertextLayout(w).ok(CanonicalCt(w, cts[s]))
    {
      StreamTheorems.CanonicalRowOk(w, cts[s].a);
      StreamTheorems.CanonicalRowOk(w, cts[s].b);
    }
  }

  /** The two rows of ciphertext `s`. */
  lemma CiphertextParts(w: WireShape, bs: seq<bool>, cts: seq<RlweCt>, s: nat)
    requires w.Valid() && CiphertextsHaveDimension(w, cts) && s < |cts|
    requires PartAt(bs, 0, RepeatEnc(CiphertextLayout(w), ResponseValueOf(w, cts)))
    ensures s * (2 * w.n * w.bits) >= 0 && w.n * w.bits >= 0
    ensures PartAt(bs, s * (2 * w.n * w.bits), Row(w, w.n).enc(CanonicalRow(cts[s].a, w.q)))
    ensures PartAt(bs, s * (2 * w.n * w.bits) + w.n * w.bits, Row(w, w.n).enc(CanonicalRow(cts[s].b, w.q)))
  {
    hide FixedSize, PartAt, Row, CanonicalRow;
    var c, values, size := CiphertextLayout(w), ResponseValueOf(w, cts), 2 * w.n * w.bits;
    var a, b := Row(w, w.n).enc(CanonicalRow(cts[s].a, w.q)), Row(w, w.n).enc(CanonicalRow(cts[s].b, w.q));
    CiphertextSize(w);
    ResponseOk(w, cts);
    FixedPart(c, size, values, s);
    assert c.enc(values[s]) == a + b;
    PartOfPart(bs, 0, RepeatEnc(c, values), s * size, a + b);
    PairParts(a, b);
    RowLawful(w, w.n);
    MulNonNegative(w.n, w.bits);
    StreamTheorems.CanonicalRowOk(w, cts[s].a);
    SizeOf(Row(w, w.n), w.n * w.bits, CanonicalRow(cts[s].a, w.q));
    PartOfPart(bs, s * size, a + b, 0, a);
    PartOfPart(bs, s * size, a + b, w.n * w.bits, b);
  }

  lemma ResponsePlace(s: int, n: int, bits: int, j: int)
    ensures s * (2 * n * bits) + j * bits == (2 * s * n + j) * bits
    ensures s * (2 * n * bits) + n * bits + j * bits == ((2 * s + 1) * n + j) * bits
  {
    assert s * (2 * n * bits) == (2 * s * n) * bits;
    assert (2 * s + 1) * n == 2 * s * n + n;
    Distributed(2 * s * n, j, bits);
    Distributed(2 * s * n + n, j, bits);
    Distributed(2 * s * n, n, bits);
  }

  lemma ResponseValue(w: WireShape, cts: seq<RlweCt>, s: nat, j: nat)
    requires w.Valid() && CiphertextsHaveDimension(w, cts) && s < |cts| && j < w.n
    ensures ValueAt(PackedResponse(w, cts), (2 * s * w.n + j) * w.bits, w.bits, cts[s].a[j] % w.q)
    ensures ValueAt(PackedResponse(w, cts), ((2 * s + 1) * w.n + j) * w.bits, w.bits, cts[s].b[j] % w.q)
  {
    hide Pow2, BitsOf, ByteBits, Padded, Row, Canonical, CanonicalRow, PartAt, BitSet, CiphertextLayout, ValueAt,
      RepeatEnc;
    var bs, stream := ResponseLayout(w).enc(ResponseValueOf(w, cts)), PackedResponse(w, cts);
    PaddedParts(bs);
    CiphertextParts(w, ByteBits(stream), cts, s);
    ResponsePlace(s, w.n, w.bits, j);
    RowValue(w, stream, s * (2 * w.n * w.bits), cts[s].a, j, (2 * s * w.n + j) * w.bits);
    RowValue(w, stream, s * (2 * w.n * w.bits) + w.n * w.bits, cts[s].b, j, ((2 * s + 1) * w.n + j) * w.bits);
  }

  lemma ResponseEnd(w: WireShape, cts: seq<RlweCt>)
    requires w.Valid() && CiphertextsHaveDimension(w, cts) && |cts| == w.splitsPerCluster
    ensures PaddingFrom(PackedResponse(w, cts), 2 * w.splitsPerCluster * w.n * w.bits)
  {
    hide FixedSize, PaddingFrom, CiphertextLayout;
    var values := ResponseValueOf(w, cts);
    PaddedParts(ResponseLayout(w).enc(values));
    CiphertextSize(w);
    ResponseOk(w, cts);
    RepeatEncSize(CiphertextLayout(w), 2 * w.n * w.bits, values);
    ResponsePlace(w.splitsPerCluster, w.n, w.bits, 0);
  }

  /** What the packer of a ring's response emits. */
  lemma ResponseSpelledOut(w: WireShape, cts: seq<RlweCt>)
    requires w.Valid() && CiphertextsHaveDimension(w, cts) && |cts| == w.splitsPerCluster
    ensures ResponseBytes(w, cts, PackedResponse(w, cts))
  {
    hide ValueAt, PaddingFrom, PackedResponse;
    ResponseEnd(w, cts);
    forall s: nat, j: nat | s < |cts| && j < w.n
      ensures |cts[s].a| == |cts[s].b| == w.n
              && ValueAt(PackedResponse(w, cts), (2 * s * w.n + j) * w.bits, w.bits, cts[s].a[j] % w.q)
              && ValueAt(PackedResponse(w, cts), ((2 * s + 1) * w.n + j) * w.bits, w.bits, cts[s].b[j] % w.q)
    {
      ResponseValue(w, cts, s, j);
    }
  }
}
