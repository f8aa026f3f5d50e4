/** The bytes of the length-prefixed messages, place by place (src/wire_protocol.cpp): which byte
    of which number stands where, with no reference to how it was written. */
module WireLayout {
  import opened MachineInts
  import opened LittleEndian
  import opened Codecs
  import opened Messages
  import opened Ragged
  import opened WireCodecs

  // ---- Numbers and vectors -------------------------------------------------------------------

  lemma DigitsInPart(bytes: seq<byte>, at: nat, part: seq<byte>, inner: nat, len: nat, v: int)
    requires PartAt(bytes, at, part) && DigitsAt(part, inner, len, v)
    ensures DigitsAt(bytes, at + inner, len, v)
  {
    forall k: nat | k < len
      ensures bytes[at + inner + k] as int == (v / Pow256(k)) % 0x100
    {
      assert bytes[at..at + |part|][inner + k] == bytes[at + inner + k];
    }
  }

  /** A count of four bytes, and the vector's numbers of eight bytes each. */
  ghost predicate VectorAt(bytes: seq<byte>, at: nat, xs: seq<int>) {
    && DigitsAt(bytes, at, 4, |xs|)
    && forall i: nat :: i < |xs| ==> DigitsAt(bytes, at + 4 + 8 * i, 8, xs[i])
  }

  lemma {:induction false} NumbersSize(xs: seq<int>)
    ensures |RepeatEnc(I64(), xs)| == 8 * |xs|
  {
    if |xs| == 0 {
    } else {
      I64Digits(xs[0]);
      NumbersSize(xs[1..]);
    }
  }

  lemma NumberAt(xs: seq<int>, i: nat)
    requires i < |xs|
    ensures DigitsAt(RepeatEnc(I64(), xs), 8 * i, 8, xs[i])
  {
    hide I64, DigitsAt;
    NumbersSize(xs[..i]);
    RepeatPart(I64(), xs, i);
    I64Digits(xs[i]);
    DigitsInPart(RepeatEnc(I64(), xs), 8 * i, I64().enc(xs[i]), 0, 8, xs[i]);
  }

  lemma VectorBytes(xs: seq<int>)
    ensures |VecI64().enc(xs)| == 4 + 8 * |xs|
    ensures VectorAt(VecI64().enc(xs), 0, xs)
  {
    hide I64, U32, DigitsAt;
    var head, tail := U32().enc(|xs| % COUNT_LIMIT), RepeatEnc(I64(), xs);
    CountParts(I64(), xs);
    NumbersSize(xs);
    forall i: nat | i < |xs|
      ensures DigitsAt(head + tail, 4 + 8 * i, 8, xs[i])
    {
      NumberAt(xs, i);
      DigitsInPart(head + tail, 4, tail, 8 * i, 8, xs[i]);
    }
  }

  /** Every counted list is its count in four bytes and its items behind them. */
  lemma CountParts<T>(c: Codec<byte, T>, xs: seq<T>)
    ensures DigitsAt(Counted(c).enc(xs), 0, 4, |xs|)
    ensures Counted(c).enc(xs) == U32().enc(|xs| % COUNT_LIMIT) + RepeatEnc(c, xs)
    ensures PartAt(Counted(c).enc(xs), 4, RepeatEnc(c, xs))
    ensures |Counted(c).enc(xs)| == 4 + |RepeatEnc(c, xs)|
  {
    U32Digits(|xs|);
    var head, tail := U32().enc(|xs| % COUNT_LIMIT), RepeatEnc(c, xs);
    assert |head| == 4;
    assert Counted(c).enc(xs) == head + tail;
    PairParts(head, tail);
  }

  // ---- Rows ------------------------------------------------------------------------------------

  ghost function RowsSize(rows: seq<seq<int>>): nat {
    4 + 4 * |rows| + 8 * RowStart(rows, |rows|)
  }

  /** A count, and row `i` behind the counts and the numbers of all rows before it. */
  ghost predicate RowsAt(bytes: seq<byte>, at: nat, rows: seq<seq<int>>) {
    && DigitsAt(bytes, at, 4, |rows|)
    && forall i: nat :: i < |rows| ==> VectorAt(bytes, at + 4 + 4 * i + 8 * RowStart(rows, i), rows[i])
  }

  lemma {:induction false} FirstRowsSize(rows: seq<seq<int>>, i: nat)
    requires i <= |rows|
    ensures |RepeatEnc(VecI64(), rows[..i])| == 4 * i + 8 * RowStart(rows, i)
  {
    hide VecI64, RepeatEnc, VectorAt;
    if i == 0 {
      assert rows[..0] == [];
      RepeatEncNone(VecI64());
    } else {
      FirstRowsSize(rows, i - 1);
      RepeatEncSnoc(VecI64(), rows, i - 1);
      VectorBytes(rows[i - 1]);
    }
  }

  lemma VectorInPart(bytes: seq<byte>, at: nat, part: seq<byte>, inner: nat, xs: seq<int>)
    requires PartAt(bytes, at, part) && VectorAt(part, inner, xs)
    ensures VectorAt(bytes, at + inner, xs)
  {
    hide DigitsAt, PartAt;
    DigitsInPart(bytes, at, part, inner, 4, |xs|);
    forall i: nat | i < |xs|
      ensures DigitsAt(bytes, at + inner + 4 + 8 * i, 8, xs[i])
    {
      DigitsInPart(bytes, at, part, inner + 4 + 8 * i, 8, xs[i]);
    }
  }

  lemma RowsBytes(rows: seq<seq<int>>)
    ensures |VecVecI64().enc(rows)| == RowsSize(rows)
    ensures RowsAt(VecVecI64().enc(rows), 0, rows)
  {
    hide VecI64, U32, DigitsAt, VectorAt, RowStart, PartAt;
    var bytes, tail := VecVecI64().enc(rows), RepeatEnc(VecI64(), rows);
    CountParts(VecI64(), rows);
    FirstRowsSize(rows, |rows|);
    assert rows[..|rows|] == rows;
    forall i: nat | i < |rows|
      ensures VectorAt(bytes, 4 + 4 * i + 8 * RowStart(rows, i), rows[i])
    {
      var inner := 4 * i + 8 * RowStart(rows, i);
      FirstRowsSize(rows, i);
      RepeatPart(VecI64(), rows, i);
      PartOfPart(bytes, 4, tail, inner, VecI64().enc(rows[i]));
      VectorBytes(rows[i]);
      VectorInPart(bytes, 4 + inner, VecI64().enc(rows[i]), 0, rows[i]);
    }
  }

  lemma RowsInPart(bytes: seq<byte>, at: nat, part: seq<byte>, inner: nat, rows: seq<seq<int>>)
    requires PartAt(bytes, at, part) && RowsAt(part, inner, rows)
    ensures RowsAt(bytes, at + inner, rows)
  {
    hide DigitsAt, VectorAt, PartAt, RowStart;
    DigitsInPart(bytes, at, part, inner, 4, |rows|);
    forall i: nat | i < |rows|
      ensures VectorAt(bytes, at + inner + 4 + 4 * i + 8 * RowStart(rows, i), rows[i])
    {
      VectorInPart(bytes, at, part, inner + 4 + 4 * i + 8 * RowStart(rows, i), rows[i]);
    }
  }

  // ---- Levels of rows ------------------------------------------------------------------------

  /** Where level `v` starts behind the count of levels. */
  ghost function LevelOffset(levels: seq<seq<seq<int>>>, v: nat): nat
    requires v <= |levels|
  {
    if v == 0 then 0 else LevelOffset(levels, v - 1) + RowsSize(levels[v - 1])
  }

  ghost predicate LevelsAt(bytes: seq<byte>, at: nat, levels: seq<seq<seq<int>>>) {
    && DigitsAt(bytes, at, 4, |levels|)
    && forall v: nat :: v < |levels| ==> RowsAt(bytes, at + 4 + LevelOffset(levels, v), levels[v])
  }

  lemma {:induction false} FirstLevelsSize(levels: seq<seq<seq<int>>>, v: nat)
    requires v <= |levels|
    ensures |RepeatEnc(VecVecI64(), levels[..v])| == LevelOffset(levels, v)
  {
    hide VecVecI64, RowsSize, RepeatEnc, RowsAt;
    if v == 0 {
      assert levels[..0] == [];
      RepeatEncNone(VecVecI64());
    } else {
      FirstLevelsSize(levels, v - 1);
      RepeatEncSnoc(VecVecI64(), levels, v - 1);
      RowsBytes(levels[v - 1]);
    }
  }

  lemma LevelsBytes(levels: seq<seq<seq<int>>>)
    ensures |VecVecVecI64().enc(levels)| == 4 + LevelOffset(levels, |levels|)
    ensures LevelsAt(VecVecVecI64().enc(levels), 0, levels)
  {
    hide VecVecI64, U32, DigitsAt, RowsAt, LevelOffset, PartAt;
    var bytes, tail := VecVecVecI64().enc(levels), RepeatEnc(VecVecI64(), levels);
    CountParts(VecVecI64(), levels);
    FirstLevelsSize(levels, |levels|);
    assert levels[..|levels|] == levels;
    forall v: nat | v < |levels|
      ensures RowsAt(bytes, 4 + LevelOffset(levels, v), levels[v])
    {
      FirstLevelsSize(levels, v);
      RepeatPart(VecVecI64(), levels, v);
      PartOfPart(bytes, 4, tail, LevelOffset(levels, v), VecVecI64().enc(levels[v]));
      RowsBytes(levels[v]);
      RowsInPart(bytes, 4 + LevelOffset(levels, v), VecVecI64().enc(levels[v]), 0, levels[v]);
    }
  }

  lemma LevelsInPart(bytes: seq<byte>, at: nat, part: seq<byte>, inner: nat, levels: seq<seq<seq<int>>>)
    requires PartAt(bytes, at, part) && LevelsAt(part, inner, levels)
    ensures LevelsAt(bytes, at + inner, levels)
  {
    hide DigitsAt, RowsAt, PartAt, LevelOffset;
    DigitsInPart(bytes, at, part, inner, 4, |levels|);
    forall v: nat | v < |levels|
      ensures RowsAt(bytes, at + inner + 4 + LevelOffset(levels, v), levels[v])
    {
      RowsInPart(bytes, at, part, inner + 4 + LevelOffset(levels, v), levels[v]);
    }
  }

  // ---- Messages ----------------------------------------------------------------------------------

  /** A query: the number of seeds, the seeds of 16 bytes, the embedding's b-values, and the
      selector's behind them. */
  ghost predicate QueryBytes(bytes: seq<byte>, q: SeededQuery) {
    var embedding := 4 + 16 * |q.seeds|;
    var selector := embedding + RowsSize(q.embeddingB);
    && |bytes| == selector + RowsSize(q.selectorB)
    && DigitsAt(bytes, 0, 4, |q.seeds|)
    && (forall k: nat :: k < |q.seeds| ==> PartAt(bytes, 4 + 16 * k, q.seeds[k]))
    && RowsAt(bytes, embedding, q.embeddingB)
    && RowsAt(bytes, selector, q.selectorB)
  }

  lemma {:induction false} SeedsSize(seeds: seq<seq<byte>>)
    requires forall k :: 0 <= k < |seeds| ==> |seeds[k]| == 16
    ensures |RepeatEnc(Raw(SEED_BYTES), seeds)| == 16 * |seeds|
  {
    if |seeds| == 0 {
    } else {
      SeedsSize(seeds[1..]);
    }
  }

  lemma SeedPart(bytes: seq<byte>, seeds: seq<seq<byte>>, k: nat)
    requires PartAt(bytes, 0, Counted(Raw(SEED_BYTES)).enc(seeds)) && k < |seeds|
    requires forall k :: 0 <= k < |seeds| ==> |seeds[k]| == 16
    ensures PartAt(bytes, 4 + 16 * k, seeds[k])
  {
    hide U32, DigitsAt, PartAt, Counted;
    var c := Raw(SEED_BYTES);
    CountParts(c, seeds);
    PartOfPart(bytes, 0, Counted(c).enc(seeds), 4, RepeatEnc(c, seeds));
    SeedsSize(seeds[..k]);
    RepeatPart(c, seeds, k);
    PartOfPart(bytes, 4, RepeatEnc(c, seeds), 16 * k, seeds[k]);
  }

  lemma QuerySpelledOut(q: SeededQuery)
    requires forall k :: 0 <= k < |q.seeds| ==> |q.seeds[k]| == 16
    ensures QueryBytes(QueryWire().enc(((q.seeds, q.embeddingB), q.selectorB)), q)
  {
    hide U32, DigitsAt, RowsAt, PartAt, Counted, VecVecI64, RowStart, RowsSize;
    var seeds, embedding, selector :=
      Counted(Raw(SEED_BYTES)).enc(q.seeds), VecVecI64().enc(q.embeddingB), VecVecI64().enc(q.selectorB);
    var bytes := QueryWire().enc(((q.seeds, q.embeddingB), q.selectorB));
    assert bytes == seeds + embedding + selector;
    CountParts(Raw(SEED_BYTES), q.seeds);
    SeedsSize(q.seeds);
    RowsBytes(q.embeddingB);
    RowsBytes(q.selectorB);
    PairParts(seeds, embedding);
    PairParts(seeds + embedding, selector);
    PartOfPart(bytes, 0, seeds + embedding, 0, seeds);
    PartOfPart(bytes, 0, seeds + embedding, |seeds|, embedding);
    DigitsInPart(bytes, 0, seeds, 0, 4, |q.seeds|);
    forall k: nat | k < |q.seeds|
      ensures PartAt(bytes, 4 + 16 * k, q.seeds[k])
    {
      SeedPart(bytes, q.seeds, k);
    }
    RowsInPart(bytes, |seeds|, embedding, 0, q.embeddingB);
    RowsInPart(bytes, |seeds| + |embedding|, selector, 0, q.selectorB);
  }

  /** Key material: the seed of 16 bytes, the automorphism levels, and the rows of sk^2. */
  ghost predicate MaterialBytes(bytes: seq<byte>, m: SeededPublicMaterial) {
    var skSquared := 16 + 4 + LevelOffset(m.automorphismB, |m.automorphismB|);
    && |bytes| == skSquared + RowsSize(m.skSquaredB)
    && PartAt(bytes, 0, m.evalKeySeed)
    && LevelsAt(bytes, 16, m.automorphismB)
    && RowsAt(bytes, skSquared, m.skSquaredB)
  }

  lemma MaterialSpelledOut(m: SeededPublicMaterial)
    requires |m.evalKeySeed| == 16
    ensures MaterialBytes(MaterialWire().enc(((m.evalKeySeed, m.automorphismB), m.skSquaredB)), m)
  {
    hide DigitsAt, RowsAt, LevelsAt, PartAt, VecVecI64, VecVecVecI64, RowsSize, LevelOffset;
    var seed, levels, rows := m.evalKeySeed, VecVecVecI64().enc(m.automorphismB), VecVecI64().enc(m.skSquaredB);
    var bytes := MaterialWire().enc(((m.evalKeySeed, m.automorphismB), m.skSquaredB));
    assert bytes == seed + levels + rows;
    LevelsBytes(m.automorphismB);
    RowsBytes(m.skSquaredB);
    PairParts(seed, levels);
    PairParts(seed + levels, rows);
    PartOfPart(bytes, 0, seed + levels, 0, seed);
    PartOfPart(bytes, 0, seed + levels, |seed|, levels);
    LevelsInPart(bytes, |seed|, levels, 0, m.automorphismB);
    RowsInPart(bytes, |seed| + |levels|, rows, 0, m.skSquaredB);
  }

  /** A response: the number of ciphertexts, and of each the n coefficients of a and those of b. */
  ghost predicate ResponseBytes(bytes: seq<byte>, n: nat, cts: seq<RlweCt>)
    requires forall s :: 0 <= s < |cts| ==> |cts[s].a| == |cts[s].b| == n
  {
    && DigitsAt(bytes, 0, 4, |cts|)
    && |bytes| == 4 + CiphertextsSize(|cts|, n)
    && forall s: nat, j: nat :: s < |cts| && j < n ==>
         && DigitsAt(bytes, 4 + CiphertextsSize(s, n) + 8 * j, 8, cts[s].a[j])
         && DigitsAt(bytes, 4 + CiphertextsSize(s, n) + 8 * n + 8 * j, 8, cts[s].b[j])
  }

  function CiphertextsSize(cts: nat, n: nat): nat {
    cts * (16 * n)
  }

  lemma CiphertextsStep(cts: nat, n: nat)
    ensures CiphertextsSize(0, n) == 0
    ensures CiphertextsSize(cts + 1, n) == CiphertextsSize(cts, n) + 16 * n
  {
    assert 0 * (16 * n) == 0;
  }

  lemma {:induction false} FirstCiphertextsSize(n: nat, tuples: seq<(seq<int>, seq<int>)>)
    requires forall s :: 0 <= s < |tuples| ==> |tuples[s].0| == |tuples[s].1| == n
    ensures |RepeatEnc(CtWire(n), tuples)| == CiphertextsSize(|tuples|, n)
  {
    hide CtWire, I64, CiphertextsSize;
    if |tuples| == 0 {
      CiphertextsStep(0, n);
    } else {
      CtParts(n, tuples[0]);
      NumbersSize(tuples[0].0);
      NumbersSize(tuples[0].1);
      FirstCiphertextsSize(n, tuples[1..]);
      CiphertextsStep(|tuples| - 1, n);
    }
  }

  lemma CtParts(n: nat, x: (seq<int>, seq<int>))
    ensures CtWire(n).enc(x) == RepeatEnc(I64(), x.0) + RepeatEnc(I64(), x.1)
  {
  }

  lemma CiphertextPart(n: nat, tuples: seq<(seq<int>, seq<int>)>, s: nat)
    requires forall s :: 0 <= s < |tuples| ==> |tuples[s].0| == |tuples[s].1| == n
    requires s < |tuples|
    ensures PartAt(ResponseWire(n).enc(tuples), 4 + CiphertextsSize(s, n), RepeatEnc(I64(), tuples[s].0))
    ensures PartAt(ResponseWire(n).enc(tuples), 4 + CiphertextsSize(s, n) + 8 * n, RepeatEnc(I64(), tuples[s].1))
  {
    hide U32, DigitsAt, PartAt, CiphertextsSize, I64, CtWire, RepeatEnc;
    CtParts(n, tuples[s]);
    var bytes, c := ResponseWire(n).enc(tuples), CtWire(n);
    var a, b := RepeatEnc(I64(), tuples[s].0), RepeatEnc(I64(), tuples[s].1);
    CountParts(c, tuples);
    FirstCiphertextsSize(n, tuples[..s]);
    RepeatPart(c, tuples, s);
    PartOfPart(bytes, 4, RepeatEnc(c, tuples), CiphertextsSize(s, n), a + b);
    NumbersSize(tuples[s].0);
    PairParts(a, b);
    PartOfPart(bytes, 4 + CiphertextsSize(s, n), a + b, 0, a);
    PartOfPart(bytes, 4 + CiphertextsSize(s, n), a + b, 8 * n, b);
  }

  lemma ResponseSpelledOut(n: nat, cts: seq<RlweCt>, tuples: seq<(seq<int>, seq<int>)>)
    requires forall s :: 0 <= s < |cts| ==> |cts[s].a| == |cts[s].b| == n
    requires |tuples| == |cts| && forall s :: 0 <= s < |cts| ==> tuples[s] == (cts[s].a, cts[s].b)
    ensures ResponseBytes(ResponseWire(n).enc(tuples), n, cts)
  {
    hide U32, DigitsAt, PartAt, CiphertextsSize, I64, CtWire;
    var bytes := ResponseWire(n).enc(tuples);
    CountParts(CtWire(n), tuples);
    FirstCiphertextsSize(n, tuples);
    forall s: nat, j: nat | s < |cts| && j < n
      ensures DigitsAt(bytes, 4 + CiphertextsSize(s, n) + 8 * j, 8, cts[s].a[j])
      ensures DigitsAt(bytes, 4 + CiphertextsSize(s, n) + 8 * n + 8 * j, 8, cts[s].b[j])
    {
      CiphertextPart(n, tuples, s);
      NumberAt(cts[s].a, j);
      NumberAt(cts[s].b, j);
      DigitsInPart(bytes, 4 + CiphertextsSize(s, n), RepeatEnc(I64(), cts[s].a), 8 * j, 8, cts[s].a[j]);
      DigitsInPart(bytes, 4 + CiphertextsSize(s, n) + 8 * n, RepeatEnc(I64(), cts[s].b), 8 * j, 8, cts[s].b[j]);
    }
  }
}
