/** The seeded uniform distribution (src/seeded_distribution.cpp): a keystream consumed in
    4096-byte chunks, cut into 64-bit words, and mapped to a range by rejection sampling.
    The AES-128 counter-mode keystream itself is a parameter: one byte per index. */
module SeededDistribution {
  import opened MachineInts
  import opened LittleEndian

  const REFILL_CHUNK_BYTES: nat := 4096

  // ---- The reference: an endless sequence of draws ---------------------------------------

  /** A keystream and the inclusive range its words are mapped to. */
  datatype Generator = Generator(stream: nat -> byte, from: int, to: int) {
    ghost predicate Valid() {
      && INT64_MIN <= from <= to <= INT64_MAX
      && to - from < 0x8000_0000_0000_0000
    }

    function Range(): int {
      to - from + 1
    }
  }

  ghost function WordBytes(stream: nat -> byte, i: nat): (bytes: seq<byte>)
    ensures |bytes| == 8
    ensures forall b :: 0 <= b < 8 ==> bytes[b] == stream(8 * i + b)
  {
    seq(8, b requires 0 <= b < 8 => stream(8 * i + b))
  }

  /** Raw word `i`: keystream bytes 8i .. 8i + 7. */
  ghost function Word(stream: nat -> byte, i: nat): nat {
    LeNat(WordBytes(stream, i))
  }

  /** Keystream byte 8i + b is digit `b` of word `i`, to the base 256. */
  lemma WordDigits(stream: nat -> byte, i: nat)
    ensures forall b :: 0 <= b < 8 ==> (Word(stream, i) / Pow256(b)) % 0x100 == stream(8 * i + b) as int
  {
    hide Pow256;
    forall b | 0 <= b < 8
      ensures (Word(stream, i) / Pow256(b)) % 0x100 == stream(8 * i + b) as int
    {
      LeNatDigit(WordBytes(stream, i), b);
    }
  }

  /** Words from here up are rejected. */
  function Limit(range: int): int
    requires range > 0
  {
    UINT64_MAX - UINT64_MAX % range
  }

  ghost predicate Accepted(g: Generator, i: nat)
    requires g.Valid()
  {
    Word(g.stream, i) < Limit(g.Range())
  }

  function Mapped(g: Generator, raw: nat): int
    requires g.Valid()
  {
    g.from + raw % g.Range()
  }

  /** The accepted words among the first `words`, in order, mapped to the range. */
  ghost function Emitted(g: Generator, words: nat): seq<int>
    requires g.Valid()
  {
    if words == 0 then []
    else Emitted(g, words - 1) + if Accepted(g, words - 1) then [Mapped(g, Word(g.stream, words - 1))] else []
  }

  ghost predicate AcceptedFrom(g: Generator, i: nat)
    requires g.Valid()
  {
    exists k: nat :: i <= k && Accepted(g, k)
  }

  /** The keystream never runs into rejected words only. */
  ghost predicate Productive(g: Generator) {
    g.Valid() && forall i: nat :: AcceptedFrom(g, i)
  }

  /** Productive generators exist: a keystream of zeros makes one for every range. */
  lemma ZerosAreProductive(from: int, to: int)
    requires Generator(_ => 0, from, to).Valid()
    ensures Productive(Generator(_ => 0, from, to))
  {
    var g := Generator(_ => 0, from, to);
    LimitIsMultiple(g.Range());
    forall i: nat
      ensures AcceptedFrom(g, i)
    {
      LeNatOfZeros(WordBytes(g.stream, i));
      assert Accepted(g, i);
    }
  }

  lemma EmittedStep(g: Generator, i: nat)
    requires g.Valid()
    ensures Emitted(g, i + 1) == Emitted(g, i) + if Accepted(g, i) then [Mapped(g, Word(g.stream, i))] else []
  {
  }

  lemma AcceptsLater(g: Generator, i: nat)
    requires Productive(g)
    ensures exists k: nat :: i <= k && Accepted(g, k)
  {
    assert AcceptedFrom(g, i);
  }

  lemma {:induction false} EmittedPrefix(g: Generator, i: nat, j: nat)
    requires g.Valid() && i <= j
    ensures Emitted(g, i) <= Emitted(g, j)
  {
    if i == j {
    } else {
      EmittedPrefix(g, i, j - 1);
    }
  }

  lemma {:induction false} EmitsAtLeast(g: Generator, n: nat) returns (words: nat)
    requires Productive(g)
    ensures |Emitted(g, words)| >= n
  {
    words := 0;
    if n == 0 {
    } else {
      var before := EmitsAtLeast(g, n - 1);
      assert AcceptedFrom(g, before);
      var k: nat :| before <= k && Accepted(g, k);
      EmittedPrefix(g, before, k);
      words := k + 1;
    }
  }

  lemma ReachesDraw(g: Generator, k: nat)
    requires Productive(g)
    ensures exists words: nat :: |Emitted(g, words)| > k
  {
    var words := EmitsAtLeast(g, k + 1);
  }

  /** Draw number `k` of the generator, counted from zero. */
  ghost function Draw(g: Generator, k: nat): int
    requires Productive(g)
  {
    ReachesDraw(g, k);
    var words: nat :| |Emitted(g, words)| > k;
    Emitted(g, words)[k]
  }

  /** Whatever the number of words consumed, the draws made are the first draws. */
  lemma DrawOfEmitted(g: Generator, words: nat, k: nat)
    requires Productive(g) && k < |Emitted(g, words)|
    ensures Emitted(g, words)[k] == Draw(g, k)
  {
    ReachesDraw(g, k);
    var other: nat :| |Emitted(g, other)| > k && Draw(g, k) == Emitted(g, other)[k];
    if words <= other {
      EmittedPrefix(g, words, other);
    } else {
      EmittedPrefix(g, other, words);
    }
  }

  /** The words before word `w` that are below the greatest multiple of the range. */
  ghost function Kept(g: Generator, w: nat): set<nat>
    requires g.from <= g.to
  {
    set i: nat | i < w && Word(g.stream, i) < (UINT64_MAX / (g.to - g.from + 1)) * (g.to - g.from + 1)
  }

  lemma {:induction false} EmittedCount(g: Generator, w: nat)
    requires g.Valid()
    ensures |Emitted(g, w)| == |Kept(g, w)|
  {
    if w == 0 {
      assert Kept(g, w) == {};
    } else {
      EmittedCount(g, w - 1);
      LimitIsMultiple(g.Range());
      assert Kept(g, w) == Kept(g, w - 1) + if Accepted(g, w - 1) then {w - 1} else {};
    }
  }

  /** Draw `k` comes from the one kept word that has `k` kept words before it: its offset in the
      range is that word's remainder. */
  lemma DrawIsWord(g: Generator, k: nat) returns (w: nat)
    requires Productive(g)
    ensures w in Kept(g, w + 1) && |Kept(g, w)| == k
    ensures Draw(g, k) - g.from == Word(g.stream, w) % (g.to - g.from + 1)
  {
    hide LeNat, WordBytes;
    var words := EmitsAtLeast(g, k + 1);
    w := DrawnFrom(g, words, k);
    EmittedCount(g, w);
    LimitIsMultiple(g.Range());
    DrawOfEmitted(g, words, k);
  }

  /** The word behind the `k`-th of the values emitted from the first `words`. */
  lemma {:induction false} DrawnFrom(g: Generator, words: nat, k: nat) returns (w: nat)
    requires g.Valid() && k < |Emitted(g, words)|
    ensures w < words && Accepted(g, w) && |Emitted(g, w)| == k
    ensures Emitted(g, words)[k] - g.from == Word(g.stream, w) % (g.to - g.from + 1)
  {
    if k < |Emitted(g, words - 1)| {
      w := DrawnFrom(g, words - 1, k);
    } else {
      w := words - 1;
    }
  }

  ghost function DrawSlice(g: Generator, start: nat, n: nat): (s: seq<int>)
    requires Productive(g)
    ensures |s| == n
    ensures forall i :: 0 <= i < n ==> s[i] == Draw(g, start + i)
  {
    seq(n, i requires 0 <= i < n => Draw(g, start + i))
  }

  // ---- Rejection is unbiased ---------------------------------------------------------------

  /** The limit is a multiple of the range, and at least half of all words stay below it. At
      most one range's worth of words is rejected, and exactly that many when the range
      divides 2^64 (where rejecting none would have done). */
  lemma LimitIsMultiple(range: int)
    requires 0 < range <= 0x8000_0000_0000_0000
    ensures Limit(range) == (UINT64_MAX / range) * range
    ensures Limit(range) % range == 0
    ensures 0x8000_0000_0000_0000 <= Limit(range) <= UINT64_MAX
    ensures 1 <= (UINT64_MAX + 1) - Limit(range) <= range
    ensures (UINT64_MAX + 1) - Limit(range) == range <==> (UINT64_MAX + 1) % range == 0
  {
    var q := UINT64_MAX / range;
    assert UINT64_MAX == q * range + UINT64_MAX % range;
    QuotientUnique(q * range, q, 0, range);
    var rest := UINT64_MAX % range;
    if rest + 1 < range {
      QuotientUnique(UINT64_MAX + 1, q, rest + 1, range);
    } else {
      assert (q + 1) * range == q * range + range;
      QuotientUnique(UINT64_MAX + 1, q + 1, 0, range);
    }
  }

  ghost function Preimages(range: int, residue: int, quotient: nat): set<int>
    requires 0 <= residue < range
  {
    set raw: int | 0 <= raw < quotient * range && raw % range == residue
  }

  lemma NextPreimage(range: int, residue: int, quotient: nat)
    requires 0 <= residue < range
    ensures quotient * range + residue !in Preimages(range, residue, quotient)
    ensures Preimages(range, residue, quotient + 1)
            == Preimages(range, residue, quotient) + {quotient * range + residue}
  {
    var next := quotient * range + residue;
    assert (quotient + 1) * range == quotient * range + range;
    QuotientUnique(next, quotient, residue, range);
    MulNonNegative(quotient, range);
    forall raw: int | 0 <= raw < (quotient + 1) * range && raw % range == residue
      ensures raw < quotient * range || raw == next
    {
      if raw >= quotient * range {
        QuotientUnique(raw, quotient, raw - quotient * range, range);
      }
    }
  }

  lemma {:induction false} PreimageCount(range: int, residue: int, quotient: nat)
    requires 0 <= residue < range
    ensures |Preimages(range, residue, quotient)| == quotient
  {
    if quotient == 0 {
      assert 0 * range == 0;
      assert Preimages(range, residue, quotient) == {};
    } else {
      PreimageCount(range, residue, quotient - 1);
      NextPreimage(range, residue, quotient - 1);
    }
  }

  /** Every value of the range is hit by exactly Limit / range of the accepted words. */
  lemma UniformPreimages(g: Generator, v: int)
    requires g.Valid() && g.from <= v <= g.to
    ensures var range := g.to - g.from + 1;
            var hits := set raw: int | 0 <= raw < (UINT64_MAX / range) * range && g.from + raw % range == v;
            |hits| == UINT64_MAX / range
  {
    var range := g.to - g.from + 1;
    var q := UINT64_MAX / range;
    PreimageCount(range, v - g.from, q);
    var hits := set raw: int | 0 <= raw < q * range && g.from + raw % range == v;
    assert hits == Preimages(range, v - g.from, q);
  }

  // ---- The implementation ------------------------------------------------------------------

  class SeededUniformDistribution {
    const stream: nat -> byte
    const from: int
    const to: int
    const range: int
    const buffer: array<byte>
    var bufferPos: nat
    /** Keystream bytes the cipher context has produced. */
    var cipherPos: nat
    /** Raw words handed out. */
    ghost var words: nat

    ghost function Gen(): Generator {
      Generator(stream, from, to)
    }

    ghost predicate Valid()
      reads this, buffer
    {
      && Gen().Valid() && range == Gen().Range()
      && buffer.Length == REFILL_CHUNK_BYTES
      && bufferPos <= REFILL_CHUNK_BYTES && bufferPos % 8 == 0
      && cipherPos + bufferPos == 8 * words + REFILL_CHUNK_BYTES
      && (cipherPos == 0 ==> bufferPos == REFILL_CHUNK_BYTES)
      && (cipherPos > 0 ==> cipherPos >= REFILL_CHUNK_BYTES)
      && (cipherPos > 0 ==>
            forall i :: 0 <= i < REFILL_CHUNK_BYTES ==> buffer[i] == stream(cipherPos - REFILL_CHUNK_BYTES + i))
    }

    /** Values drawn so far. */
    ghost function Count(): nat
      requires Gen().Valid()
      reads this
    {
      |Emitted(Gen(), words)|
    }

    constructor (stream: nat -> byte, from: int, to: int)
      requires Generator(stream, from, to).Valid()
      ensures Valid() && words == 0 && Count() == 0
      ensures Gen() == Generator(stream, from, to)
      ensures fresh(buffer)
    {
      this.stream, this.from, this.to := stream, from, to;
      range := to - from + 1;
      buffer := new byte[REFILL_CHUNK_BYTES];
      bufferPos, cipherPos, words := REFILL_CHUNK_BYTES, 0, 0;
    }

    /** None (the sources throw) for an empty range. */
    static method Create(stream: nat -> byte, from: int, to: int) returns (d: SeededUniformDistribution?)
      requires INT64_MIN <= from <= INT64_MAX && INT64_MIN <= to <= INT64_MAX
      requires to - from < 0x8000_0000_0000_0000
      ensures d == null <==> to < from
      ensures d != null ==> fresh(d) && fresh(d.buffer) && d.Valid() && d.Count() == 0
                            && d.Gen() == Generator(stream, from, to)
    {
      if to < from {
        return null;
      }
      d := new SeededUniformDistribution(stream, from, to);
    }

    method RefillBuffer()
      requires Valid() && bufferPos == REFILL_CHUNK_BYTES
      modifies this, buffer
      ensures Valid() && bufferPos == 0 && words == old(words)
    {
      forall i | 0 <= i < REFILL_CHUNK_BYTES {
        buffer[i] := stream(cipherPos + i);
      }
      cipherPos := cipherPos + REFILL_CHUNK_BYTES;
      bufferPos := 0;
    }

    /** Whatever refills happen on the way, the next raw word is the next eight keystream
        bytes: none is skipped and none is used twice. */
    method NextRawU64() returns (raw: nat)
      requires Valid()
      modifies this, buffer
      ensures Valid() && words == old(words) + 1
      ensures raw == Word(stream, old(words)) <= UINT64_MAX
      ensures forall b :: 0 <= b < 8 ==> (raw / Pow256(b)) % 0x100 == stream(8 * old(words) + b) as int
    {
      hide LeNat, Pow256, Limit;
      if bufferPos + 8 > REFILL_CHUNK_BYTES {
        RefillBuffer();
      }
      WordDigits(stream, words);
      ghost var word := WordBytes(stream, words);
      assert buffer[bufferPos..bufferPos + 8] == word;
      LeNatBound(word);
      Pow256Word();
      raw := LeNat(buffer[bufferPos..bufferPos + 8]);
      bufferPos := bufferPos + 8;
      words := words + 1;
    }

    /** The next accepted word, mapped to the range. */
    method Next() returns (v: int)
      requires Valid() && Productive(Gen())
      modifies this, buffer
      ensures Valid() && words > old(words)
      ensures from <= v <= to
      ensures Emitted(Gen(), words) == Emitted(Gen(), old(words)) + [v]
      ensures Count() == old(Count()) + 1
      ensures v == Draw(Gen(), old(Count()))
      ensures words > 0 && v - from == Word(stream, words - 1) % (to - from + 1)
      ensures Word(stream, words - 1) < (UINT64_MAX / (to - from + 1)) * (to - from + 1)
      ensures forall k: nat :: old(words) <= k < words - 1 ==>
                Word(stream, k) >= (UINT64_MAX / (to - from + 1)) * (to - from + 1)
    {
      hide Word, Productive, Pow256, Emitted;
      LimitIsMultiple(range);
      ghost var g := Gen();
      var limit := UINT64_MAX - UINT64_MAX % range;
      AcceptsLater(g, words);
      ghost var hit: nat :| words <= hit && Accepted(g, hit);
      var raw := NextRawU64();
      while raw >= limit
        invariant Valid() && old(words) < words <= hit + 1
        invariant raw == Word(stream, words - 1)
        invariant forall k: nat :: old(words) <= k < words - 1 ==> Word(stream, k) >= limit
        invariant Emitted(g, words - 1) == Emitted(g, old(words))
        decreases hit + 1 - words
      {
        EmittedStep(g, words - 1);
        raw := NextRawU64();
      }
      v := from + raw % range;
      EmittedStep(g, words - 1);
      DrawOfEmitted(g, words, |Emitted(g, words)| - 1);
    }
  }
}
