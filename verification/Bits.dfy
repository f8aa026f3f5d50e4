/** Little-endian bit strings: the reference meaning of a bit-packed stream. Bit 0 of a
    value, and bit 0 of a byte, comes first. */
module Bits {
  import opened MachineInts

  /** The low `w` bits of `v`, least significant first. */
  ghost function BitsOf(v: nat, w: nat): (bs: seq<bool>)
    ensures |bs| == w
  {
    if w == 0 then [] else [v % 2 == 1] + BitsOf(v / 2, w - 1)
  }

  ghost function NatOf(bs: seq<bool>): nat {
    if |bs| == 0 then 0 else (if bs[0] then 1 else 0) + 2 * NatOf(bs[1..])
  }

  lemma {:induction false} NatOfBound(bs: seq<bool>)
    ensures NatOf(bs) < Pow2(|bs|)
  {
    if |bs| == 0 {
    } else {
      NatOfBound(bs[1..]);
    }
  }

  lemma {:induction false} BitsOfNatOf(bs: seq<bool>)
    ensures BitsOf(NatOf(bs), |bs|) == bs
  {
    if |bs| == 0 {
    } else {
      BitsOfNatOf(bs[1..]);
    }
  }

  lemma {:induction false} NatOfBitsOf(v: nat, w: nat)
    requires v < Pow2(w)
    ensures NatOf(BitsOf(v, w)) == v
  {
    if w == 0 {
    } else {
      NatOfBitsOf(v / 2, w - 1);
      assert BitsOf(v, w)[1..] == BitsOf(v / 2, w - 1);
    }
  }

  lemma {:induction false} BitsOfZero(w: nat)
    ensures BitsOf(0, w) == seq(w, _ => false)
  {
    if w == 0 {
    } else {
      BitsOfZero(w - 1);
    }
  }

  /** Bit `i` is digit `i` to the base 2, least significant first. */
  lemma {:induction false} BitAt(v: nat, w: nat, i: nat)
    requires i < w
    ensures BitsOf(v, w)[i] <==> (v / Pow2(i)) % 2 == 1
  {
    if i == 0 {
    } else {
      BitAt(v / 2, w - 1, i - 1);
      DivDiv(v, 2, Pow2(i - 1));
    }
  }

  // ---- Words: the C++ operators on unsigned accumulators -------------------------------

  /** `v << k` on unsigned words wide enough to hold it. */
  function Shifted(v: nat, k: nat): nat {
    if k == 0 then v else 2 * Shifted(v, k - 1)
  }

  /** `v & ((1 << k) - 1)`. */
  function Low(v: nat, k: nat): nat {
    if k == 0 then 0 else v % 2 + 2 * Low(v / 2, k - 1)
  }

  /** `v >> k`. */
  function High(v: nat, k: nat): nat {
    if k == 0 then v else High(v / 2, k - 1)
  }

  /** `a | b` on unsigned words. */
  function BitOr(a: nat, b: nat): nat
    decreases a + b
  {
    if a == 0 then b
    else if b == 0 then a
    else (if a % 2 == 1 || b % 2 == 1 then 1 else 0) + 2 * BitOr(a / 2, b / 2)
  }

  /** Shifting and masking, as arithmetic. */
  lemma {:induction false} WordOperators(v: nat, k: nat)
    ensures Shifted(v, k) == v * Pow2(k)
    ensures Low(v, k) == v % Pow2(k) && High(v, k) == v / Pow2(k)
  {
    if k == 0 {
    } else {
      WordOperators(v, k - 1);
      WordOperators(v / 2, k - 1);
      NextPower(v, Pow2(k - 1));
    }
  }

  lemma NextPower(v: nat, p: nat)
    requires p > 0
    ensures 2 * (v * p) == v * (2 * p)
    ensures (v / 2) / p == v / (2 * p)
    ensures v % 2 + 2 * ((v / 2) % p) == v % (2 * p)
  {
    var w := v / 2;
    var q, r := w / p, w % p;
    assert w == q * p + r;
    Reordered(q, p);
    Reordered(v, p);
    QuotientUnique(v, q, v % 2 + 2 * r, 2 * p);
  }

  lemma Reordered(a: int, b: int)
    ensures 2 * (a * b) == a * (2 * b)
  {
  }

  /** A bit of `a | b` is set when it is set in either. */
  lemma {:induction false} BitOrAt(a: nat, b: nat, i: nat)
    ensures (BitOr(a, b) / Pow2(i)) % 2 == 1 <==> (a / Pow2(i)) % 2 == 1 || (b / Pow2(i)) % 2 == 1
    decreases a + b
  {
    ZeroBit(i);
    if a > 0 && b > 0 {
      var rest := BitOr(a / 2, b / 2);
      assert BitOr(a, b) / 2 == rest;
      if i > 0 {
        BitOrAt(a / 2, b / 2, i - 1);
        DivDiv(a, 2, Pow2(i - 1));
        DivDiv(b, 2, Pow2(i - 1));
        DivDiv(BitOr(a, b), 2, Pow2(i - 1));
      }
    }
  }

  lemma ZeroBit(i: nat)
    ensures 0 / Pow2(i) == 0
  {
    QuotientUnique(0, 0, 0, Pow2(i));
  }

  lemma BitOrEven(a: nat, b: nat)
    ensures BitOr(a, 2 * b) == a % 2 + 2 * BitOr(a / 2, b)
  {
  }

  /** ORing in a value shifted past everything already there is an addition: nothing carries. */
  lemma {:induction false} BitOrShifted(low: nat, k: nat, high: nat)
    requires low < Pow2(k)
    ensures BitOr(low, Shifted(high, k)) == low + Shifted(high, k)
  {
    if k == 0 {
    } else {
      BitOrShifted(low / 2, k - 1, high);
      BitOrEven(low, Shifted(high, k - 1));
    }
  }

  /** ... and its bits come after the ones already there. */
  lemma {:induction false} BitsOfShifted(low: nat, k: nat, high: nat, w: nat)
    requires low < Pow2(k)
    ensures BitsOf(low + Shifted(high, k), k + w) == BitsOf(low, k) + BitsOf(high, w)
  {
    if k == 0 {
      assert BitsOf(low, k) + BitsOf(high, w) == BitsOf(high, w);
    } else {
      BitsOfShifted(low / 2, k - 1, high, w);
      var v := low + Shifted(high, k);
      assert v % 2 == low % 2 && v / 2 == low / 2 + Shifted(high, k - 1);
      assert BitsOf(v, k + w) == [low % 2 == 1] + BitsOf(v / 2, k - 1 + w);
      assert BitsOf(low, k) == [low % 2 == 1] + BitsOf(low / 2, k - 1);
    }
  }

  lemma {:induction false} LowWhole(v: nat, k: nat)
    requires v < Pow2(k)
    ensures Low(v, k) == v
  {
    if k == 0 {
    } else {
      LowWhole(v / 2, k - 1);
    }
  }

  lemma {:induction false} ShiftedBound(low: nat, k: nat, high: nat, w: nat)
    requires low < Pow2(k) && high < Pow2(w)
    ensures low + Shifted(high, k) < Pow2(k + w)
  {
    if k == 0 {
    } else {
      ShiftedBound(low / 2, k - 1, high, w);
    }
  }

  lemma {:induction false} LowBound(v: nat, k: nat)
    ensures Low(v, k) < Pow2(k)
  {
    if k == 0 {
    } else {
      LowBound(v / 2, k - 1);
    }
  }

  lemma {:induction false} HighBound(v: nat, k: nat, w: nat)
    requires v < Pow2(k + w)
    ensures High(v, k) < Pow2(w)
  {
    if k == 0 {
    } else {
      HighBound(v / 2, k - 1, w);
    }
  }

  /** Masking and shifting a word splits its bits. */
  lemma {:induction false} BitsOfSplit(v: nat, k: nat, w: nat)
    ensures BitsOf(v, k + w) == BitsOf(Low(v, k), k) + BitsOf(High(v, k), w)
  {
    if k == 0 {
      assert BitsOf(Low(v, k), k) + BitsOf(High(v, k), w) == BitsOf(v, w);
    } else {
      BitsOfSplit(v / 2, k - 1, w);
      var low := Low(v / 2, k - 1);
      assert Low(v, k) % 2 == v % 2 && Low(v, k) / 2 == low;
      Assoc([v % 2 == 1], BitsOf(low, k - 1), BitsOf(High(v, k), w));
    }
  }

  // ---- Bytes ---------------------------------------------------------------------------

  ghost function ByteBits(bytes: seq<byte>): (bs: seq<bool>)
    ensures |bs| == 8 * |bytes|
  {
    if |bytes| == 0 then [] else BitsOf(bytes[0] as nat, 8) + ByteBits(bytes[1..])
  }

  lemma {:induction false} ByteBitsAppend(a: seq<byte>, b: seq<byte>)
    ensures ByteBits(a + b) == ByteBits(a) + ByteBits(b)
  {
    if |a| == 0 {
      assert a + b == b;
    } else {
      ByteBitsAppend(a[1..], b);
      assert (a + b)[1..] == a[1..] + b;
      Assoc(BitsOf(a[0] as nat, 8), ByteBits(a[1..]), ByteBits(b));
    }
  }

  /** Bit `b` of byte `i` comes at place 8i + b. */
  lemma {:induction false} ByteBitAt(bytes: seq<byte>, i: nat, b: nat)
    requires i < |bytes| && b < 8
    ensures ByteBits(bytes)[8 * i + b] <==> (bytes[i] as nat / Pow2(b)) % 2 == 1
  {
    if i == 0 {
      BitAt(bytes[0] as nat, 8, b);
    } else {
      ByteBitAt(bytes[1..], i - 1, b);
    }
  }

  lemma Assoc<T>(a: seq<T>, b: seq<T>, c: seq<T>)
    ensures (a + b) + c == a + (b + c)
  {
  }

  lemma ByteBitsPush(a: seq<byte>, b: byte)
    ensures ByteBits(a + [b]) == ByteBits(a) + BitsOf(b as nat, 8)
  {
    ByteBitsAppend(a, [b]);
    assert [b][1..] == [];
    assert ByteBits([b]) == BitsOf(b as nat, 8) + ByteBits([]);
  }

  /** The bytes of a bit string, the last one padded with zero bits. */
  ghost function Padded(bs: seq<bool>): (bytes: seq<byte>)
    ensures |bytes| == BitsToBytes(|bs|)
  {
    if |bs| == 0 then []
    else if |bs| < 8 then (PartialByte(bs); [NatOf(bs) as byte])
    else (PartialByte(bs[..8]); [NatOf(bs[..8]) as byte] + Padded(bs[8..]))
  }

  lemma PaddedByte(first: seq<bool>, tail: seq<bool>)
    requires |first| == 8
    ensures NatOf(first) < 0x100
    ensures Padded(first + tail) == [NatOf(first) as byte] + Padded(tail)
  {
    PartialByte(first);
    assert (first + tail)[..8] == first && (first + tail)[8..] == tail;
  }

  lemma PartialByte(bs: seq<bool>)
    requires |bs| <= 8
    ensures NatOf(bs) < 0x100
  {
    NatOfBound(bs);
    Pow2Monotone(|bs|, 8);
    Pow2Eight();
  }

  ghost predicate AllFalse(bs: seq<bool>) {
    forall i :: 0 <= i < |bs| ==> !bs[i]
  }

  lemma {:induction false} NatOfPadded(bs: seq<bool>, pad: nat)
    ensures NatOf(bs + seq(pad, _ => false)) == NatOf(bs)
  {
    var zeros: seq<bool> := seq(pad, _ => false);
    if |bs| == 0 {
      assert bs + zeros == zeros;
      BitsOfZero(pad);
      assert zeros == BitsOf(0, pad);
      NatOfBitsOf(0, pad);
    } else {
      NatOfPadded(bs[1..], pad);
      assert (bs + zeros)[1..] == bs[1..] + zeros;
    }
  }

  /** Padding adds fewer than eight bits, all zero, and nothing else. */
  lemma {:induction false} PaddedBits(bs: seq<bool>)
    ensures |ByteBits(Padded(bs))| - |bs| < 8
    ensures bs <= ByteBits(Padded(bs))
    ensures AllFalse(ByteBits(Padded(bs))[|bs|..])
  {
    if 0 < |bs| < 8 {
      var zeros: seq<bool> := seq(8 - |bs|, _ => false);
      NatOfPadded(bs, 8 - |bs|);
      BitsOfNatOf(bs + zeros);
      PartialByte(bs);
      ByteBitsPush([], NatOf(bs) as byte);
      assert [] + [NatOf(bs) as byte] == Padded(bs);
      assert ByteBits(Padded(bs)) == bs + zeros;
    } else if |bs| >= 8 {
      PaddedBits(bs[8..]);
      BitsOfNatOf(bs[..8]);
      assert Padded(bs)[1..] == Padded(bs[8..]);
      assert ByteBits(Padded(bs)) == bs[..8] + ByteBits(Padded(bs[8..]));
      assert bs == bs[..8] + bs[8..];
    }
  }

  /** Whole bytes followed by a partial byte: exactly what the packer's fields hold. */
  lemma {:induction false} PaddedWhole(bytes: seq<byte>, v: nat, w: nat)
    requires w < 8 && v < Pow2(w)
    ensures Low(v, 8) == v < 0x100
    ensures Padded(ByteBits(bytes) + BitsOf(v, w)) == bytes + (if w > 0 then [v as byte] else [])
  {
    Pow2Monotone(w, 8);
    Pow2Eight();
    LowWhole(v, 8);
    if |bytes| == 0 {
      assert ByteBits(bytes) + BitsOf(v, w) == BitsOf(v, w);
      NatOfBitsOf(v, w);
    } else {
      PaddedWhole(bytes[1..], v, w);
      var first, tail := BitsOf(bytes[0] as nat, 8), ByteBits(bytes[1..]) + BitsOf(v, w);
      Assoc(first, ByteBits(bytes[1..]), BitsOf(v, w));
      NatOfBitsOf(bytes[0] as nat, 8);
      PaddedByte(first, tail);
    }
  }

  /** A byte string is the padded form of any prefix of its bits that leaves out fewer than
      eight bits, all zero. */
  lemma PaddedUnique(bytes: seq<byte>, bs: seq<bool>)
    requires bs <= ByteBits(bytes)
    requires |ByteBits(bytes)| - |bs| < 8
    requires AllFalse(ByteBits(bytes)[|bs|..])
    ensures Padded(bs) == bytes
  {
    PaddedBits(bs);
    assert |Padded(bs)| == |bytes|;
    var rest := ByteBits(bytes)[|bs|..];
    var rest' := ByteBits(Padded(bs))[|bs|..];
    assert rest == rest';
    assert ByteBits(bytes) == bs + rest && ByteBits(Padded(bs)) == bs + rest';
    ByteBitsInjective(bytes, Padded(bs));
  }

  lemma {:induction false} ByteBitsInjective(a: seq<byte>, b: seq<byte>)
    requires |a| == |b|
    requires ByteBits(a) == ByteBits(b)
    ensures a == b
  {
    if |a| == 0 {
    } else {
      assert ByteBits(a)[..8] == BitsOf(a[0] as nat, 8) && ByteBits(b)[..8] == BitsOf(b[0] as nat, 8);
      assert ByteBits(a)[8..] == ByteBits(a[1..]) && ByteBits(b)[8..] == ByteBits(b[1..]);
      ByteBitsInjective(a[1..], b[1..]);
      Pow2Eight();
      NatOfBitsOf(a[0] as nat, 8);
      NatOfBitsOf(b[0] as nat, 8);
    }
  }
}
