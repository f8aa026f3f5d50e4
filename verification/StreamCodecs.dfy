/** The reference meaning of the bit-packed stream layouts (include/stream_packing.hpp):
    which byte strings are streams, and what they stand for. */
module StreamCodecs {
  import opened MachineInts
  import opened Bits
  import opened Codecs
  import opened Messages

  /** Everything the layouts depend on; both ends derive it from the public parameters. */
  datatype WireShape = WireShape(
    q: int,
    bits: nat,
    n: nat,
    embeddingLength: nat,
    numClusters: nat,
    numComponentRings: nat,
    splitsPerCluster: nat,
    automorphismLevels: nat,
    kskDigits: nat,
    primeDigits: nat)
  {
    /** One coefficient takes just enough bits for a residue, and there are one or two rings. */
    ghost predicate Valid() {
      && 2 <= q && 1 <= bits <= 63 && Pow2(bits - 1) < q <= Pow2(bits)
      && 1 <= numComponentRings <= 2
    }
  }

  // ---- Single items --------------------------------------------------------------------

  ghost function CoefficientDec(bits: nat, q: nat, s: seq<bool>): Option<(nat, seq<bool>)> {
    if |s| < bits then None
    else if NatOf(s[..bits]) >= q then None
    else Some((NatOf(s[..bits]), s[bits..]))
  }

  ghost function Coefficient(bits: nat, q: nat): Codec<bool, nat> {
    Codec((v: nat) => v < q, (v: nat) => BitsOf(v, bits), (s: seq<bool>) => CoefficientDec(bits, q, s))
  }

  lemma CoefficientLawful(bits: nat, q: nat)
    requires q <= Pow2(bits)
    ensures Lawful(Coefficient(bits, q))
    ensures FixedSize(Coefficient(bits, q), bits)
  {
    var c := Coefficient(bits, q);
    forall v: nat, rest: seq<bool> | c.ok(v)
      ensures c.dec(c.enc(v) + rest) == Some((v, rest))
    {
      NatOfBitsOf(v, bits);
      assert (BitsOf(v, bits) + rest)[..bits] == BitsOf(v, bits);
      assert (BitsOf(v, bits) + rest)[bits..] == rest;
    }
    forall s | c.dec(s).Some?
      ensures c.ok(c.dec(s).value.0) && s == c.enc(c.dec(s).value.0) + c.dec(s).value.1
    {
      BitsOfNatOf(s[..bits]);
    }
  }

  ghost function SeedDec(s: seq<bool>): Option<(seq<byte>, seq<bool>)> {
    if |s| < 8 * SEED_BYTES then None else Some((Padded(s[..8 * SEED_BYTES]), s[8 * SEED_BYTES..]))
  }

  ghost function Seed(): Codec<bool, seq<byte>> {
    Codec((b: seq<byte>) => |b| == SEED_BYTES, (b: seq<byte>) => ByteBits(b), (s: seq<bool>) => SeedDec(s))
  }

  /** Whole bytes survive the way through their bits. */
  lemma PaddedByteBits(b: seq<byte>)
    ensures Padded(ByteBits(b)) == b
  {
    PaddedWhole(b, 0, 0);
    assert ByteBits(b) + BitsOf(0, 0) == ByteBits(b);
  }

  lemma ByteBitsPadded(bs: seq<bool>)
    requires |bs| % 8 == 0
    ensures ByteBits(Padded(bs)) == bs
  {
    PaddedBits(bs);
    WholeBytes(|bs|);
  }

  lemma WholeBytes(bits: nat)
    requires bits % 8 == 0
    ensures 8 * BitsToBytes(bits) == bits
  {
  }

  lemma SeedLawful()
    ensures Lawful(Seed())
    ensures FixedSize(Seed(), 8 * SEED_BYTES)
  {
    var c := Seed();
    forall b: seq<byte>, rest: seq<bool> | c.ok(b)
      ensures c.dec(c.enc(b) + rest) == Some((b, rest))
    {
      PaddedByteBits(b);
      assert (ByteBits(b) + rest)[..8 * SEED_BYTES] == ByteBits(b);
      assert (ByteBits(b) + rest)[8 * SEED_BYTES..] == rest;
    }
    forall s | c.dec(s).Some?
      ensures c.ok(c.dec(s).value.0) && s == c.enc(c.dec(s).value.0) + c.dec(s).value.1
    {
      ByteBitsPadded(s[..8 * SEED_BYTES]);
    }
  }

  // ---- The three layouts ---------------------------------------------------------------

  /** `count` coefficients. */
  ghost function Row(w: WireShape, count: nat): Codec<bool, seq<nat>>
    requires w.Valid()
  {
    Repeat(Coefficient(w.bits, w.q), count)
  }

  /** `rows` rows of `count` coefficients. */
  ghost function Rows(w: WireShape, rows: nat, count: nat): Codec<bool, seq<seq<nat>>>
    requires w.Valid()
  {
    Repeat(Row(w, count), rows)
  }

  type KeysValue = ((seq<byte>, seq<seq<seq<nat>>>), seq<seq<nat>>)
  type QueryRingValue = ((seq<byte>, seq<nat>), seq<seq<nat>>)
  type ResponseValue = seq<(seq<nat>, seq<nat>)>

  ghost function KeysLayout(w: WireShape): Codec<bool, KeysValue>
    requires w.Valid()
  {
    Pair(Pair(Seed(), Levels(w)), Rows(w, w.primeDigits, w.n))
  }

  /** The automorphism keys: level by level, digit by digit. */
  ghost function Levels(w: WireShape): Codec<bool, seq<seq<seq<nat>>>>
    requires w.Valid()
  {
    Repeat(Rows(w, w.kskDigits, w.n), w.automorphismLevels)
  }

  /** Only ring 0's stream carries the selector. */
  function SelectorRows(w: WireShape, ring: nat): nat {
    if ring == 0 then w.numClusters else 0
  }

  ghost function QueryRingLayout(w: WireShape, ring: nat): Codec<bool, QueryRingValue>
    requires w.Valid()
  {
    Pair(Pair(Seed(), Row(w, w.embeddingLength)), Rows(w, SelectorRows(w, ring), w.primeDigits))
  }

  ghost function ResponseLayout(w: WireShape): Codec<bool, ResponseValue>
    requires w.Valid()
  {
    Repeat(CiphertextLayout(w), w.splitsPerCluster)
  }

  /** The coefficients of a, then those of b. */
  ghost function CiphertextLayout(w: WireShape): Codec<bool, (seq<nat>, seq<nat>)>
    requires w.Valid()
  {
    Pair(Row(w, w.n), Row(w, w.n))
  }

  lemma RowLawful(w: WireShape, count: nat)
    requires w.Valid()
    ensures Lawful(Row(w, count))
    ensures FixedSize(Row(w, count), count * w.bits)
  {
    CoefficientLawful(w.bits, w.q);
    RepeatLawful(Coefficient(w.bits, w.q), count);
    RepeatFixedSize(Coefficient(w.bits, w.q), w.bits, count);
  }

  lemma RowsLawful(w: WireShape, rows: nat, count: nat)
    requires w.Valid()
    ensures Lawful(Rows(w, rows, count))
    ensures FixedSize(Rows(w, rows, count), rows * count * w.bits)
  {
    RowLawful(w, count);
    RepeatLawful(Row(w, count), rows);
    RepeatFixedSize(Row(w, count), count * w.bits, rows);
    assert rows * (count * w.bits) == rows * count * w.bits;
  }

  // ---- Coefficient counts, as the size functions of the sources compute them -------------

  function KeyCoefficients(w: WireShape): nat {
    w.automorphismLevels * w.kskDigits * w.n + w.primeDigits * w.n
  }

  function QueryCoefficients(w: WireShape, ring: nat): nat {
    w.embeddingLength + if ring == 0 then w.numClusters * w.primeDigits else 0
  }

  function ResponseCoefficients(w: WireShape): nat {
    w.splitsPerCluster * 2 * w.n
  }

  function KeysStreamBytes(w: WireShape): nat {
    SEED_BYTES + BitsToBytes(KeyCoefficients(w) * w.bits)
  }

  function QueryStreamBytes(w: WireShape, ring: nat): nat {
    SEED_BYTES + BitsToBytes(QueryCoefficients(w, ring) * w.bits)
  }

  function ResponseStreamBytes(w: WireShape): nat {
    BitsToBytes(ResponseCoefficients(w) * w.bits)
  }

  lemma PairBoth<T(!new), U(!new)>(c: Codec<bool, T>, d: Codec<bool, U>, i: nat, j: nat)
    requires Lawful(c) && Lawful(d) && FixedSize(c, i) && FixedSize(d, j)
    ensures Lawful(Pair(c, d)) && FixedSize(Pair(c, d), i + j)
  {
    PairLawful(c, d);
    PairFixedSize(c, d, i, j);
  }

  lemma KeyPartsLawful(w: WireShape) returns (levelBits: nat, skBits: nat)
    requires w.Valid()
    ensures Lawful(Levels(w))
    ensures FixedSize(Levels(w), levelBits)
    ensures Lawful(Rows(w, w.primeDigits, w.n)) && FixedSize(Rows(w, w.primeDigits, w.n), skBits)
    ensures levelBits + skBits == KeyCoefficients(w) * w.bits
  {
    RowsLawful(w, w.kskDigits, w.n);
    RepeatLawful(Rows(w, w.kskDigits, w.n), w.automorphismLevels);
    RepeatFixedSize(Rows(w, w.kskDigits, w.n), w.kskDigits * w.n * w.bits, w.automorphismLevels);
    levelBits := w.automorphismLevels * (w.kskDigits * w.n * w.bits);
    RowsLawful(w, w.primeDigits, w.n);
    skBits := w.primeDigits * w.n * w.bits;
    KeyBits(w);
  }

  lemma KeysLawful(w: WireShape)
    requires w.Valid()
    ensures Lawful(KeysLayout(w))
    ensures FixedSize(KeysLayout(w), 8 * SEED_BYTES + KeyCoefficients(w) * w.bits)
  {
    SeedLawful();
    var levels := Levels(w);
    var levelBits, skBits := KeyPartsLawful(w);
    PairBoth(Seed(), levels, 8 * SEED_BYTES, levelBits);
    PairBoth(Pair(Seed(), levels), Rows(w, w.primeDigits, w.n), 8 * SEED_BYTES + levelBits, skBits);
  }

  lemma KeyBits(w: WireShape)
    ensures KeyCoefficients(w) * w.bits
            == w.automorphismLevels * (w.kskDigits * w.n * w.bits) + w.primeDigits * w.n * w.bits
  {
    var a, b := w.automorphismLevels * w.kskDigits * w.n, w.primeDigits * w.n;
    MulDistributes(a, b, w.bits);
    MulAssoc(w.automorphismLevels, w.kskDigits, w.n);
    MulAssoc(w.automorphismLevels, w.kskDigits * w.n, w.bits);
  }

  lemma MulAssoc(a: nat, b: nat, c: nat)
    ensures a * b * c == a * (b * c)
  {
  }

  lemma QueryRingLawful(w: WireShape, ring: nat)
    requires w.Valid()
    ensures Lawful(QueryRingLayout(w, ring))
    ensures FixedSize(QueryRingLayout(w, ring), 8 * SEED_BYTES + QueryCoefficients(w, ring) * w.bits)
  {
    var rows := SelectorRows(w, ring);
    SeedLawful();
    RowLawful(w, w.embeddingLength);
    RowsLawful(w, rows, w.primeDigits);
    PairBoth(Seed(), Row(w, w.embeddingLength), 8 * SEED_BYTES, w.embeddingLength * w.bits);
    PairBoth(Pair(Seed(), Row(w, w.embeddingLength)), Rows(w, rows, w.primeDigits),
             8 * SEED_BYTES + w.embeddingLength * w.bits, rows * w.primeDigits * w.bits);
    QueryBits(w, ring);
  }

  lemma QueryBits(w: WireShape, ring: nat)
    ensures QueryCoefficients(w, ring) * w.bits
            == w.embeddingLength * w.bits + SelectorRows(w, ring) * w.primeDigits * w.bits
  {
    var e, s := w.embeddingLength, SelectorRows(w, ring) * w.primeDigits;
    assert QueryCoefficients(w, ring) == e + s;
    MulDistributes(e, s, w.bits);
  }

  lemma MulDistributes(a: nat, b: nat, c: nat)
    ensures (a + b) * c == a * c + b * c
  {
  }

  lemma ResponseLawful(w: WireShape)
    requires w.Valid()
    ensures Lawful(ResponseLayout(w))
    ensures FixedSize(ResponseLayout(w), ResponseCoefficients(w) * w.bits)
  {
    RowLawful(w, w.n);
    var ct := Pair(Row(w, w.n), Row(w, w.n));
    PairLawful(Row(w, w.n), Row(w, w.n));
    PairFixedSize(Row(w, w.n), Row(w, w.n), w.n * w.bits, w.n * w.bits);
    RepeatLawful(ct, w.splitsPerCluster);
    RepeatFixedSize(ct, w.n * w.bits + w.n * w.bits, w.splitsPerCluster);
    ResponseBits(w);
  }

  lemma ResponseBits(w: WireShape)
    ensures ResponseCoefficients(w) * w.bits == w.splitsPerCluster * (w.n * w.bits + w.n * w.bits)
  {
    assert w.n * w.bits + w.n * w.bits == (2 * w.n) * w.bits;
    MulAssoc(w.splitsPerCluster, 2 * w.n, w.bits);
    MulAssoc(w.splitsPerCluster, 2, w.n);
  }

  // ---- Whole streams -------------------------------------------------------------------

  /** A stream: the encoded bits, padded with zeros to whole bytes. */
  ghost function Stream<T>(c: Codec<bool, T>, x: T): seq<byte> {
    Padded(c.enc(x))
  }

  /** What a byte string stands for, when it is exactly one padded encoding. */
  ghost function Accept<T>(c: Codec<bool, T>, stream: seq<byte>): Option<T> {
    match c.dec(ByteBits(stream))
    case None => None
    case Some((x, rest)) => if |rest| < 8 && AllFalse(rest) then Some(x) else None
  }

  /** A stream is accepted as `x` exactly when it is the stream of `x`: no other length, no
      residue out of range and no set padding bit gets through. */
  lemma AcceptIff<T(!new)>(c: Codec<bool, T>, stream: seq<byte>, x: T)
    requires Lawful(c)
    ensures Accept(c, stream) == Some(x) <==> c.ok(x) && stream == Stream(c, x)
  {
    var bits := ByteBits(stream);
    if Accept(c, stream) == Some(x) {
      var rest := c.dec(bits).value.1;
      assert bits == c.enc(x) + rest;
      assert bits[|c.enc(x)|..] == rest;
      PaddedUnique(stream, c.enc(x));
    }
    if c.ok(x) && stream == Stream(c, x) {
      PaddedBits(c.enc(x));
      var rest := bits[|c.enc(x)|..];
      assert bits == c.enc(x) + rest;
      assert c.dec(c.enc(x) + rest) == Some((x, rest));
    }
  }

  /** The explicit length check of the readers turns away nothing that is a stream. */
  lemma StreamSize<T(!new)>(c: Codec<bool, T>, x: T, size: nat)
    requires c.ok(x) && FixedSize(c, size)
    ensures |Stream(c, x)| == BitsToBytes(size)
  {
    assert |c.enc(x)| == size;
  }

  lemma SeedAlignment(coefficientBits: nat)
    ensures BitsToBytes(8 * SEED_BYTES + coefficientBits) == SEED_BYTES + BitsToBytes(coefficientBits)
  {
  }
}
