/** The reference meaning of the length-prefixed wire format (src/wire_protocol.cpp). */
module WireCodecs {
  import opened MachineInts
  import opened LittleEndian
  import opened Codecs
  import opened Messages

  const COUNT_LIMIT: nat := 0x1_0000_0000
  const SESSION_ID_BYTES: nat := 16

  ghost function U32Dec(s: seq<byte>): Option<(nat, seq<byte>)> {
    if |s| < 4 then None else Some((LeNat(s[..4]), s[4..]))
  }

  ghost function U32(): Codec<byte, nat> {
    Codec((v: nat) => v < COUNT_LIMIT, (v: nat) => LeBytes(v, 4), (s: seq<byte>) => U32Dec(s))
  }

  /** Two's complement in 64 bits. */
  function Wrapped(v: int): nat {
    v % (UINT64_MAX + 1)
  }

  function Unwrapped(u: nat): int {
    if u > INT64_MAX then u - (UINT64_MAX + 1) else u
  }

  ghost function I64Dec(s: seq<byte>): Option<(int, seq<byte>)> {
    if |s| < 8 then None else Some((Unwrapped(LeNat(s[..8])), s[8..]))
  }

  ghost function I64(): Codec<byte, int> {
    Codec((v: int) => INT64_MIN <= v <= INT64_MAX, (v: int) => LeBytes(Wrapped(v), 8), (s: seq<byte>) => I64Dec(s))
  }

  ghost function RawDec(n: nat, s: seq<byte>): Option<(seq<byte>, seq<byte>)> {
    if |s| < n then None else Some((s[..n], s[n..]))
  }

  /** `n` bytes as they are. */
  ghost function Raw(n: nat): Codec<byte, seq<byte>> {
    Codec((b: seq<byte>) => |b| == n, (b: seq<byte>) => b, (s: seq<byte>) => RawDec(n, s))
  }

  ghost function CountedEnc<T>(c: Codec<byte, T>, xs: seq<T>): seq<byte> {
    U32().enc(|xs| % COUNT_LIMIT) + RepeatEnc(c, xs)
  }

  ghost function CountedDec<T>(c: Codec<byte, T>, s: seq<byte>): Option<(seq<T>, seq<byte>)> {
    match U32().dec(s)
    case None => None
    case Some((count, rest)) => RepeatDec(c, count, rest)
  }

  /** A 32-bit count, then that many items. Longer lists are written with a wrapped count. */
  ghost function Counted<T>(c: Codec<byte, T>): Codec<byte, seq<T>> {
    Codec((xs: seq<T>) => |xs| < COUNT_LIMIT && AllOk(c, xs),
          (xs: seq<T>) => CountedEnc(c, xs),
          (s: seq<byte>) => CountedDec(c, s))
  }

  /** Two's complement: the one unsigned word congruent to the value. */
  lemma WrappedIsCongruent(v: int)
    ensures 0 <= Wrapped(v) <= UINT64_MAX && Congruent(Wrapped(v), v, UINT64_MAX + 1)
    ensures 0 <= v <= UINT64_MAX ==> Wrapped(v) == v
  {
    CongruentMod(v, UINT64_MAX + 1);
  }

  /** `len` bytes at place `at` hold the low base-256 digits of `v`, least significant first; for a
      negative `v` these are the digits of its two's complement. */
  ghost predicate DigitsAt(bytes: seq<byte>, at: nat, len: nat, v: int) {
    && at + len <= |bytes|
    && forall k: nat :: k < len ==> bytes[at + k] as int == (v / Pow256(k)) % 0x100
  }

  lemma U32Digits(v: nat)
    ensures DigitsAt(U32().enc(v % COUNT_LIMIT), 0, 4, v)
  {
    hide Pow256;
    var u := v % COUNT_LIMIT;
    Pow256Half();
    assert v == u + (v / COUNT_LIMIT) * COUNT_LIMIT;
    forall k: nat | k < 4
      ensures LeBytes(u, 4)[k] as int == (v / Pow256(k)) % 0x100
    {
      LeBytesDigit(u, 4, k);
      SameDigit(u, v, v / COUNT_LIMIT, 4, k);
    }
  }

  lemma I64Digits(v: int)
    ensures |I64().enc(v)| == 8 && DigitsAt(I64().enc(v), 0, 8, v)
  {
    hide Pow256;
    var m := UINT64_MAX + 1;
    var u := Wrapped(v);
    Pow256Word();
    assert v == u + (v / m) * m;
    forall k: nat | k < 8
      ensures LeBytes(u, 8)[k] as int == (v / Pow256(k)) % 0x100
    {
      LeBytesDigit(u, 8, k);
      SameDigit(u, v, v / m, 8, k);
    }
  }

  lemma U32Lawful()
    ensures Lawful(U32())
  {
    var c := U32();
    Pow256Half();
    forall v: nat, rest: seq<byte> | c.ok(v)
      ensures c.dec(c.enc(v) + rest) == Some((v, rest))
    {
      LeNatOfBytes(v, 4);
      assert (LeBytes(v, 4) + rest)[..4] == LeBytes(v, 4) && (LeBytes(v, 4) + rest)[4..] == rest;
    }
    forall s | c.dec(s).Some?
      ensures c.ok(c.dec(s).value.0) && s == c.enc(c.dec(s).value.0) + c.dec(s).value.1
    {
      LeNatBound(s[..4]);
      LeBytesOfNat(s[..4]);
    }
  }

  lemma WrapUnwrap(v: int)
    requires INT64_MIN <= v <= INT64_MAX
    ensures Wrapped(v) <= UINT64_MAX && Unwrapped(Wrapped(v)) == v
  {
    if v >= 0 {
      QuotientUnique(v, 0, v, UINT64_MAX + 1);
    } else {
      QuotientUnique(v, -1, v + UINT64_MAX + 1, UINT64_MAX + 1);
    }
  }

  lemma UnwrapWrap(u: nat)
    requires u <= UINT64_MAX
    ensures INT64_MIN <= Unwrapped(u) <= INT64_MAX && Wrapped(Unwrapped(u)) == u
  {
    if u > INT64_MAX {
      QuotientUnique(u - (UINT64_MAX + 1), -1, u, UINT64_MAX + 1);
    } else {
      QuotientUnique(u, 0, u, UINT64_MAX + 1);
    }
  }

  lemma I64Lawful()
    ensures Lawful(I64())
  {
    hide Wrapped, Unwrapped;
    var c := I64();
    Pow256Word();
    forall v: int, rest: seq<byte> | c.ok(v)
      ensures c.dec(c.enc(v) + rest) == Some((v, rest))
    {
      WrapUnwrap(v);
      var bytes := LeBytes(Wrapped(v), 8);
      LeNatOfBytes(Wrapped(v), 8);
      assert (bytes + rest)[..8] == bytes && (bytes + rest)[8..] == rest;
    }
    forall s | c.dec(s).Some?
      ensures c.ok(c.dec(s).value.0) && s == c.enc(c.dec(s).value.0) + c.dec(s).value.1
    {
      LeNatBound(s[..8]);
      UnwrapWrap(LeNat(s[..8]));
      LeBytesOfNat(s[..8]);
    }
  }

  lemma RawLawful(n: nat)
    ensures Lawful(Raw(n))
  {
    var c := Raw(n);
    forall b: seq<byte>, rest: seq<byte> | c.ok(b)
      ensures c.dec(c.enc(b) + rest) == Some((b, rest))
    {
      assert (b + rest)[..n] == b && (b + rest)[n..] == rest;
    }
  }

  lemma CountedRecovers<T(!new)>(c: Codec<byte, T>, xs: seq<T>, rest: seq<byte>)
    requires Lawful(c) && Lawful(U32()) && |xs| < COUNT_LIMIT && AllOk(c, xs)
    ensures CountedDec(c, CountedEnc(c, xs) + rest) == Some((xs, rest))
  {
    var u := U32();
    assert u.ok(|xs|) && |xs| % COUNT_LIMIT == |xs|;
    hide U32, Exact;
    RepeatRecovers(c, xs, rest);
    var head, tail := u.enc(|xs|), RepeatEnc(c, xs) + rest;
    assert CountedEnc(c, xs) + rest == head + tail;
    assert u.dec(head + tail) == Some((|xs|, tail));
  }

  lemma CountedExact<T(!new)>(c: Codec<byte, T>, s: seq<byte>)
    requires Lawful(c) && Lawful(U32()) && CountedDec(c, s).Some?
    ensures var (xs, rest) := CountedDec(c, s).value;
            |xs| < COUNT_LIMIT && AllOk(c, xs) && s == CountedEnc(c, xs) + rest
  {
    var u := U32();
    var (count, mid) := u.dec(s).value;
    assert u.ok(count) && s == u.enc(count) + mid;
    assert count < COUNT_LIMIT && count % COUNT_LIMIT == count;
    hide U32, Recovers;
    RepeatExact(c, count, mid);
    var (xs, rest) := RepeatDec(c, count, mid).value;
    assert u.enc(count) + (RepeatEnc(c, xs) + rest) == CountedEnc(c, xs) + rest;
  }

  lemma CountedLawful<T(!new)>(c: Codec<byte, T>)
    requires Lawful(c)
    ensures Lawful(Counted(c))
  {
    U32Lawful();
    hide U32, CountedEnc, CountedDec;
    var d := Counted(c);
    forall xs: seq<T>, rest: seq<byte> | d.ok(xs)
      ensures d.dec(d.enc(xs) + rest) == Some((xs, rest))
    {
      CountedRecovers(c, xs, rest);
    }
    forall s | d.dec(s).Some?
      ensures d.ok(d.dec(s).value.0) && s == d.enc(d.dec(s).value.0) + d.dec(s).value.1
    {
      CountedExact(c, s);
    }
  }

  // ---- Messages --------------------------------------------------------------------------------

  ghost function VecI64(): Codec<byte, seq<int>> { Counted(I64()) }
  ghost function VecVecI64(): Codec<byte, seq<seq<int>>> { Counted(VecI64()) }
  ghost function VecVecVecI64(): Codec<byte, seq<seq<seq<int>>>> { Counted(VecVecI64()) }

  type QueryTuple = ((seq<seq<byte>>, seq<seq<int>>), seq<seq<int>>)
  type MaterialTuple = ((seq<byte>, seq<seq<seq<int>>>), seq<seq<int>>)

  ghost function QueryWire(): Codec<byte, QueryTuple> {
    Pair(Pair(Counted(Raw(SEED_BYTES)), VecVecI64()), VecVecI64())
  }

  ghost function MaterialWire(): Codec<byte, MaterialTuple> {
    Pair(Pair(Raw(SEED_BYTES), VecVecVecI64()), VecVecI64())
  }

  ghost function RegistrationWire(): Codec<byte, (seq<byte>, MaterialTuple)> {
    Pair(Raw(SESSION_ID_BYTES), MaterialWire())
  }

  ghost function QueryMessageWire(): Codec<byte, (seq<byte>, QueryTuple)> {
    Pair(Raw(SESSION_ID_BYTES), QueryWire())
  }

  /** Ciphertexts of ring dimension `n`; the dimension is not on the wire. */
  ghost function ResponseWire(n: nat): Codec<byte, seq<(seq<int>, seq<int>)>> {
    Counted(CtWire(n))
  }

  ghost function CtWire(n: nat): Codec<byte, (seq<int>, seq<int>)> {
    Pair(Repeat(I64(), n), Repeat(I64(), n))
  }

  lemma VectorsLawful()
    ensures Lawful(I64()) && Lawful(VecI64()) && Lawful(VecVecI64()) && Lawful(VecVecVecI64())
  {
    hide Lawful;
    I64Lawful();
    CountedLawful(I64());
    CountedLawful(VecI64());
    CountedLawful(VecVecI64());
  }

  lemma QueryWireLawful()
    ensures Lawful(QueryWire()) && Lawful(QueryMessageWire())
  {
    hide Lawful;
    VectorsLawful();
    RawLawful(SEED_BYTES);
    CountedLawful(Raw(SEED_BYTES));
    PairLawful(Counted(Raw(SEED_BYTES)), VecVecI64());
    PairLawful(Pair(Counted(Raw(SEED_BYTES)), VecVecI64()), VecVecI64());
    RawLawful(SESSION_ID_BYTES);
    PairLawful(Raw(SESSION_ID_BYTES), QueryWire());
  }

  lemma MaterialWireLawful()
    ensures Lawful(MaterialWire()) && Lawful(RegistrationWire())
  {
    hide Lawful;
    VectorsLawful();
    RawLawful(SEED_BYTES);
    PairLawful(Raw(SEED_BYTES), VecVecVecI64());
    PairLawful(Pair(Raw(SEED_BYTES), VecVecVecI64()), VecVecI64());
    RawLawful(SESSION_ID_BYTES);
    PairLawful(Raw(SESSION_ID_BYTES), MaterialWire());
  }

  lemma ResponseWireLawful(n: nat)
    ensures Lawful(ResponseWire(n))
  {
    hide Lawful;
    I64Lawful();
    RepeatLawful(I64(), n);
    PairLawful(Repeat(I64(), n), Repeat(I64(), n));
    CountedLawful(CtWire(n));
  }
}
