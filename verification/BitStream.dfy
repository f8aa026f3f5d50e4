/** The bit writer and bit reader with their carry accumulators
    (include/stream_packing.hpp, src/stream_packing.cpp). Their abstract state is a bit
    string: what has been written, and what is still to be read. */
module BitStream {
  import opened MachineInts
  import opened Bits
  import opened Codecs

  /** The width of the accumulators. Every value one takes below is shown to fit; the loop
      invariants show that values of up to 63 bits never need more than 70 bits of it. */
  const ACCUMULATOR_BITS: nat := 128

  predicate Fits(acc: nat, nbits: nat) {
    nbits <= ACCUMULATOR_BITS && acc < Pow2(nbits)
  }

  lemma Aligned(bytes: nat, nbits: nat)
    requires nbits < 8
    ensures (nbits + 8 * bytes) % 8 == nbits
  {
  }

  /** ORing `high` in above `nbits` accumulated bits appends its bits to theirs. */
  lemma OrAppends(acc: nat, nbits: nat, high: nat, w: nat)
    requires acc < Pow2(nbits) && high < Pow2(w) && nbits + w <= ACCUMULATOR_BITS
    ensures Fits(BitOr(acc, Shifted(high, nbits)), nbits + w)
    ensures BitsOf(BitOr(acc, Shifted(high, nbits)), nbits + w) == BitsOf(acc, nbits) + BitsOf(high, w)
  {
    ShiftedBound(acc, nbits, high, w);
    BitOrShifted(acc, nbits, high);
    BitsOfShifted(acc, nbits, high, w);
  }

  /** Moving the low byte of the accumulator to the output keeps the bit string. */
  lemma FlushByte(buf: seq<byte>, acc: nat, nbits: nat)
    requires nbits >= 8 && Fits(acc, nbits)
    ensures Low(acc, 8) < 0x100
    ensures Fits(High(acc, 8), nbits - 8)
    ensures ByteBits(buf + [Low(acc, 8) as byte]) + BitsOf(High(acc, 8), nbits - 8)
            == ByteBits(buf) + BitsOf(acc, nbits)
  {
    Pow2Eight();
    BitsOfSplit(acc, 8, nbits - 8);
    LowBound(acc, 8);
    HighBound(acc, 8, nbits - 8);
    ByteBitsPush(buf, Low(acc, 8) as byte);
    Assoc(ByteBits(buf), BitsOf(Low(acc, 8), 8), BitsOf(High(acc, 8), nbits - 8));
  }

  /** Loading the next byte above `nbits` accumulated bits keeps the bits still to be read. */
  lemma LoadByte(buf: seq<byte>, pos: nat, acc: nat, nbits: nat)
    requires pos < |buf| && Fits(acc, nbits) && nbits + 8 <= ACCUMULATOR_BITS
    ensures Fits(BitOr(acc, Shifted(buf[pos] as nat, nbits)), nbits + 8)
    ensures BitsOf(BitOr(acc, Shifted(buf[pos] as nat, nbits)), nbits + 8) + ByteBits(buf[pos + 1..])
            == BitsOf(acc, nbits) + ByteBits(buf[pos..])
  {
    Pow2Eight();
    OrAppends(acc, nbits, buf[pos] as nat, 8);
    assert buf[pos..][1..] == buf[pos + 1..];
    Assoc(BitsOf(acc, nbits), BitsOf(buf[pos] as nat, 8), ByteBits(buf[pos + 1..]));
  }

  /** Handing out the low `width` bits leaves the bits behind them. */
  lemma TakeBits(buf: seq<byte>, pos: nat, acc: nat, nbits: nat, width: nat)
    requires pos <= |buf| && Fits(acc, nbits) && width <= nbits
    ensures Low(acc, width) < Pow2(width) && Fits(High(acc, width), nbits - width)
    ensures var before := BitsOf(acc, nbits) + ByteBits(buf[pos..]);
            && Low(acc, width) == NatOf(before[..width])
            && BitsOf(High(acc, width), nbits - width) + ByteBits(buf[pos..]) == before[width..]
  {
    hide NatOf, Pow2, ByteBits;
    BitsOfSplit(acc, width, nbits - width);
    LowBound(acc, width);
    HighBound(acc, width, nbits - width);
    NatOfBitsOf(Low(acc, width), width);
    var before := BitsOf(acc, nbits) + ByteBits(buf[pos..]);
    assert before[..width] == BitsOf(Low(acc, width), width);
  }

  class BitPacker {
    var buf: seq<byte>
    var acc: nat
    var nbits: nat

    ghost predicate Valid()
      reads this
    {
      nbits < 8 && Fits(acc, nbits)
    }

    /** Every bit written so far. */
    ghost function Contents(): seq<bool>
      reads this
    {
      ByteBits(buf) + BitsOf(acc, nbits)
    }

    constructor ()
      ensures Valid() && Contents() == []
    {
      buf, acc, nbits := [], 0, 0;
    }

    /** Appends the low `width` bits of `value`. */
    method Put(value: nat, width: nat)
      requires Valid()
      requires 1 <= width <= 63 && value < Pow2(width)
      modifies this
      ensures Valid()
      ensures Contents() == old(Contents()) + BitsOf(value, width)
    {
      OrAppends(acc, nbits, value, width);
      acc := BitOr(acc, Shifted(value, nbits));
      nbits := nbits + width;
      assert Contents() == old(Contents()) + BitsOf(value, width);
      while nbits >= 8
        invariant nbits <= 70 && Fits(acc, nbits)
        invariant Contents() == old(Contents()) + BitsOf(value, width)
      {
        FlushByte(buf, acc, nbits);
        buf := buf + [Low(acc, 8) as byte];
        acc := High(acc, 8);
        nbits := nbits - 8;
      }
    }

    /** Appends raw bytes; refused (the sources throw) off a byte boundary. */
    method PutBytes(data: seq<byte>) returns (ok: bool)
      requires Valid()
      modifies this
      ensures Valid()
      ensures ok <==> |old(Contents())| % 8 == 0
      ensures Contents() == old(Contents()) + if ok then ByteBits(data) else []
    {
      Aligned(|buf|, nbits);
      if nbits != 0 {
        return false;
      }
      ByteBitsAppend(buf, data);
      assert Contents() == ByteBits(buf);
      buf := buf + data;
      return true;
    }

    /** Flushes the partial byte and hands the stream over. */
    method Finish() returns (stream: seq<byte>)
      requires Valid()
      modifies this
      ensures stream == Padded(old(Contents()))
      ensures Valid() && Contents() == []
    {
      PaddedWhole(buf, acc, nbits);
      if nbits > 0 {
        buf := buf + [Low(acc, 8) as byte];
      }
      acc := 0;
      nbits := 0;
      stream := buf;
      buf := [];
    }
  }

  class BitUnpacker {
    const buf: seq<byte>
    var pos: nat
    var acc: nat
    var nbits: nat

    ghost predicate Valid()
      reads this
    {
      pos <= |buf| && nbits < 8 && Fits(acc, nbits)
    }

    /** Every bit not yet handed out. */
    ghost function Remaining(): seq<bool>
      requires pos <= |buf|
      reads this
    {
      BitsOf(acc, nbits) + ByteBits(buf[pos..])
    }

    constructor (stream: seq<byte>)
      ensures Valid() && buf == stream
      ensures Remaining() == ByteBits(stream)
    {
      buf, pos, acc, nbits := stream, 0, 0, 0;
      new;
      assert buf[0..] == buf;
    }

    /** The next `width` bits as a value, or None (the sources throw) when too few are left. */
    method Get(width: nat) returns (r: Option<nat>)
      requires Valid()
      requires width <= 64
      modifies this
      ensures r.Some? <==> |old(Remaining())| >= width
      ensures r.Some? ==> Valid()
      ensures r.Some? ==> r.value < Pow2(width) && r.value == NatOf(old(Remaining())[..width])
      ensures r.Some? ==> Remaining() == old(Remaining())[width..]
    {
      while nbits < width
        invariant pos <= |buf| && nbits < width + 8 && Fits(acc, nbits)
        invariant Remaining() == old(Remaining())
        decreases |buf| - pos
      {
        if pos >= |buf| {
          return None;
        }
        LoadByte(buf, pos, acc, nbits);
        acc := BitOr(acc, Shifted(buf[pos] as nat, nbits));
        pos := pos + 1;
        nbits := nbits + 8;
      }
      TakeBits(buf, pos, acc, nbits, width);
      r := Some(Low(acc, width));
      acc := High(acc, width);
      nbits := nbits - width;
    }

    /** The next `len` bytes; None (the sources throw) off a byte boundary or past the end. */
    method GetBytes(len: nat) returns (r: Option<seq<byte>>)
      requires Valid()
      modifies this
      ensures Valid()
      ensures r.Some? <==> |old(Remaining())| % 8 == 0 && |old(Remaining())| >= 8 * len
      ensures r.Some? ==> |r.value| == len && old(Remaining()) == ByteBits(r.value) + Remaining()
      ensures r.None? ==> Remaining() == old(Remaining())
    {
      Aligned(|buf| - pos, nbits);
      if nbits != 0 {
        return None;
      }
      if pos + len > |buf| {
        return None;
      }
      var out := buf[pos..pos + len];
      assert buf[pos..] == out + buf[pos + len..];
      ByteBitsAppend(out, buf[pos + len..]);
      assert Remaining() == ByteBits(buf[pos..]);
      pos := pos + len;
      assert Remaining() == ByteBits(buf[pos..]);
      return Some(out);
    }

    /** True (the sources return normally) exactly when only zero padding of a last partial
        byte is left. */
    method ExpectEnd() returns (ok: bool)
      requires Valid()
      ensures ok <==> |Remaining()| < 8 && AllFalse(Remaining())
    {
      if pos != |buf| {
        return false;
      }
      assert buf[pos..] == [];
      assert Remaining() == BitsOf(acc, nbits);
      if acc != 0 {
        if AllFalse(Remaining()) {
          BitsOfZero(nbits);
          assert BitsOf(acc, nbits) == BitsOf(0, nbits);
          NatOfBitsOf(acc, nbits);
          NatOfBitsOf(0, nbits);
        }
        return false;
      }
      BitsOfZero(nbits);
      return true;
    }
  }
}
