/** Little-endian fixed-width integers, as `memcpy` moves them on the byte order fixed here. */
module LittleEndian {
  import opened MachineInts

  function LeNat(bytes: seq<byte>): nat {
    if |bytes| == 0 then 0 else bytes[0] as nat + 0x100 * LeNat(bytes[1..])
  }

  function LeBytes(v: nat, len: nat): (bytes: seq<byte>)
    ensures |bytes| == len
  {
    if len == 0 then [] else [(v % 0x100) as byte] + LeBytes(v / 0x100, len - 1)
  }

  function Pow256(k: nat): (p: nat)
    ensures p > 0
  {
    if k == 0 then 1 else 0x100 * Pow256(k - 1)
  }

  lemma {:induction false} LeNatBound(bytes: seq<byte>)
    ensures LeNat(bytes) < Pow256(|bytes|)
  {
    if |bytes| == 0 {
    } else {
      LeNatBound(bytes[1..]);
    }
  }

  lemma {:induction false} LeNatOfBytes(v: nat, len: nat)
    requires v < Pow256(len)
    ensures LeNat(LeBytes(v, len)) == v
  {
    if len == 0 {
    } else {
      LeNatOfBytes(v / 0x100, len - 1);
      assert LeBytes(v, len)[1..] == LeBytes(v / 0x100, len - 1);
    }
  }

  lemma DigitOf(low: byte, rest: nat)
    ensures (low as nat + 0x100 * rest) % 0x100 == low as nat
    ensures (low as nat + 0x100 * rest) / 0x100 == rest
  {
  }

  lemma {:induction false} LeBytesOfNat(bytes: seq<byte>)
    ensures LeBytes(LeNat(bytes), |bytes|) == bytes
  {
    if |bytes| == 0 {
    } else {
      var rest := LeNat(bytes[1..]);
      assert bytes == [bytes[0]] + bytes[1..];
      LeBytesOfNat(bytes[1..]);
      DigitOf(bytes[0], rest);
    }
  }

  lemma {:induction false} Pow256IsPow2(k: nat)
    ensures Pow256(k) == Pow2(8 * k)
  {
    if k == 0 {
    } else {
      Pow256IsPow2(k - 1);
      Pow2Eight();
      Pow2Add(8, 8 * k - 8);
    }
  }

  /** Byte `k` is digit `k` to the base 256, least significant first. */
  lemma {:induction false} LeBytesDigit(v: nat, len: nat, k: nat)
    requires k < len
    ensures LeBytes(v, len)[k] as int == (v / Pow256(k)) % 0x100
  {
    if k == 0 {
    } else {
      LeBytesDigit(v / 0x100, len - 1, k - 1);
      DivDiv(v, 0x100, Pow256(k - 1));
    }
  }

  lemma {:induction false} LeNatDigit(bytes: seq<byte>, k: nat)
    requires k < |bytes|
    ensures bytes[k] as int == (LeNat(bytes) / Pow256(k)) % 0x100
  {
    var rest := LeNat(bytes[1..]);
    DigitOf(bytes[0], rest);
    if k == 0 {
    } else {
      LeNatDigit(bytes[1..], k - 1);
      DivDiv(LeNat(bytes), 0x100, Pow256(k - 1));
    }
  }

  /** The low digits of a number are those of anything that differs from it by a multiple of a higher
      power. */
  lemma SameDigit(v: int, u: int, t: int, len: nat, k: nat)
    requires k < len && u == v + t * Pow256(len)
    ensures (u / Pow256(k)) % 0x100 == (v / Pow256(k)) % 0x100
  {
    hide Pow256;
    var p, w := Pow256(k), t * Pow256(len - k - 1);
    Pow256Step(k, len);
    Rearranged(t, p, Pow256(len - k - 1));
    ShiftedQuotient(v, w * 0x100, p);
    CongruentByMultiple(v / p + w * 0x100, v / p, w, 0x100);
  }

  lemma Rearranged(t: int, p: int, rest: int)
    ensures t * (p * 0x100 * rest) == ((t * rest) * 0x100) * p
  {
  }

  lemma ShiftedQuotient(v: int, w: int, p: int)
    requires p > 0
    ensures (v + w * p) / p == v / p + w
  {
    assert v == (v / p) * p + v % p;
    assert (v / p + w) * p == (v / p) * p + w * p;
    QuotientUnique(v + w * p, v / p + w, v % p, p);
  }

  lemma {:induction false} Pow256Step(k: nat, len: nat)
    requires k < len
    ensures Pow256(len) == Pow256(k) * 0x100 * Pow256(len - k - 1)
    decreases k
  {
    if k == 0 {
    } else {
      Pow256Step(k - 1, len - 1);
      var a, b := Pow256(k - 1), Pow256(len - k - 1);
      assert 0x100 * (a * 0x100 * b) == (0x100 * a) * 0x100 * b;
    }
  }

  lemma {:induction false} LeNatOfZeros(bytes: seq<byte>)
    requires forall k :: 0 <= k < |bytes| ==> bytes[k] == 0
    ensures LeNat(bytes) == 0
  {
    if |bytes| == 0 {
    } else {
      LeNatOfZeros(bytes[1..]);
    }
  }

  lemma Pow256Word()
    ensures Pow256(8) == UINT64_MAX + 1
  {
  }

  lemma Pow256Half()
    ensures Pow256(4) == 0x1_0000_0000
  {
  }
}
