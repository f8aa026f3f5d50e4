/** Serializing and deserializing the length-prefixed messages (src/wire_protocol.cpp): a byte
    buffer that the nested writers append to, and a cursor that the nested readers advance.
    A None result stands for the exception the sources throw. */
module WireProtocol {
  import opened MachineInts
  import opened LittleEndian
  import opened Codecs
  import opened Messages
  import opened WireCodecs
  import opened WireLayout

  class ByteWriter {
    var buf: seq<byte>

    constructor ()
      ensures buf == []
    {
      buf := [];
    }

    /** The low 32 bits of a size. */
    method WriteU32(v: nat)
      modifies this
      ensures buf == old(buf) + U32().enc(v % COUNT_LIMIT)
      ensures |buf| == |old(buf)| + 4
      ensures forall k :: 0 <= k < 4 ==> buf[|old(buf)| + k] as int == (v / Pow256(k)) % 0x100
    {
      U32Digits(v);
      buf := buf + LeBytes(v % COUNT_LIMIT, 4);
    }

    method WriteI64(v: int)
      modifies this
      ensures buf == old(buf) + I64().enc(v)
      ensures |buf| == |old(buf)| + 8
      ensures forall k :: 0 <= k < 8 ==> buf[|old(buf)| + k] as int == (v / Pow256(k)) % 0x100
    {
      I64Digits(v);
      buf := buf + LeBytes(Wrapped(v), 8);
    }

    method WriteBytes(data: seq<byte>)
      modifies this
      ensures buf == old(buf) + data
    {
      buf := buf + data;
    }

    method WriteVecI64(vec: seq<int>)
      modifies this
      ensures buf == old(buf) + VecI64().enc(vec)
    {
      hide I64, U32, RepeatEnc;
      ghost var c := I64();
      WriteU32(|vec|);
      ghost var start := buf;
      RepeatEncNone(c);
      for i := 0 to |vec|
        invariant buf == start + RepeatEnc(c, vec[..i])
      {
        ghost var before := buf;
        WriteI64(vec[i]);
        AppendItem(c, vec, i, start, before, buf);
      }
      assert vec[..|vec|] == vec;
    }

    method WriteVecVecI64(vec: seq<seq<int>>)
      modifies this
      ensures buf == old(buf) + VecVecI64().enc(vec)
    {
      hide VecI64, U32, RepeatEnc;
      ghost var c := VecI64();
      WriteU32(|vec|);
      ghost var start := buf;
      RepeatEncNone(c);
      for i := 0 to |vec|
        invariant buf == start + RepeatEnc(c, vec[..i])
      {
        ghost var before := buf;
        WriteVecI64(vec[i]);
        AppendItem(c, vec, i, start, before, buf);
      }
      assert vec[..|vec|] == vec;
    }

    method WriteVecVecVecI64(vec: seq<seq<seq<int>>>)
      modifies this
      ensures buf == old(buf) + VecVecVecI64().enc(vec)
    {
      hide VecVecI64, U32, RepeatEnc;
      ghost var c := VecVecI64();
      WriteU32(|vec|);
      ghost var start := buf;
      RepeatEncNone(c);
      for i := 0 to |vec|
        invariant buf == start + RepeatEnc(c, vec[..i])
      {
        ghost var before := buf;
        WriteVecVecI64(vec[i]);
        AppendItem(c, vec, i, start, before, buf);
      }
      assert vec[..|vec|] == vec;
    }
  }

  class ByteReader {
    const buf: seq<byte>
    var pos: nat

    ghost predicate Valid()
      reads this
    {
      pos <= |buf|
    }

    ghost function Rest(): seq<byte>
      requires Valid()
      reads this
    {
      buf[pos..]
    }

    constructor (buf: seq<byte>)
      ensures Valid() && Rest() == buf
    {
      this.buf, pos := buf, 0;
    }

    /** Enough bytes for `len` more; the sources throw otherwise. */
    predicate Require(len: nat)
      reads this
    {
      pos + len <= |buf|
    }

    method ReadU32() returns (r: Option<nat>)
      requires Valid()
      modifies this
      ensures Reads(U32(), old(Rest()), r, this)
    {
      if !Require(4) {
        return None;
      }
      assert Rest()[..4] == buf[pos..pos + 4] && Rest()[4..] == buf[pos + 4..];
      r := Some(LeNat(buf[pos..pos + 4]));
      pos := pos + 4;
    }

    method ReadI64() returns (r: Option<int>)
      requires Valid()
      modifies this
      ensures Reads(I64(), old(Rest()), r, this)
    {
      if !Require(8) {
        return None;
      }
      assert Rest()[..8] == buf[pos..pos + 8] && Rest()[8..] == buf[pos + 8..];
      r := Some(Unwrapped(LeNat(buf[pos..pos + 8])));
      pos := pos + 8;
    }

    method ReadBytes(len: nat) returns (r: Option<seq<byte>>)
      requires Valid()
      modifies this
      ensures Reads(Raw(len), old(Rest()), r, this)
    {
      if !Require(len) {
        return None;
      }
      assert Rest()[..len] == buf[pos..pos + len] && Rest()[len..] == buf[pos + len..];
      r := Some(buf[pos..pos + len]);
      pos := pos + len;
    }

    method ReadVecI64() returns (r: Option<seq<int>>)
      requires Valid()
      modifies this
      ensures Reads(VecI64(), old(Rest()), r, this)
    {
      hide I64, U32, RepeatDec, Prepend;
      ghost var c := I64();
      var count := ReadU32();
      if count.None? {
        return None;
      }
      var out: seq<int> := [];
      ghost var whole := RepeatDec(c, count.value, Rest());
      PrependNothing(whole);
      for i := 0 to count.value
        invariant Valid()
        invariant whole == Prepend(out, RepeatDec(c, count.value - i, Rest()))
      {
        ghost var before := Rest();
        var v := ReadI64();
        if v.None? {
          NoItem(c, count.value - i, out, before);
          return None;
        }
        NextItem(c, count.value - i, out, before, v.value, Rest());
        out := out + [v.value];
      }
      RepeatDone(c, out, Rest());
      return Some(out);
    }

    method ReadVecVecI64() returns (r: Option<seq<seq<int>>>)
      requires Valid()
      modifies this
      ensures Reads(VecVecI64(), old(Rest()), r, this)
    {
      hide VecI64, U32, RepeatDec, Prepend;
      ghost var c := VecI64();
      var count := ReadU32();
      if count.None? {
        return None;
      }
      var out: seq<seq<int>> := [];
      ghost var whole := RepeatDec(c, count.value, Rest());
      PrependNothing(whole);
      for i := 0 to count.value
        invariant Valid()
        invariant whole == Prepend(out, RepeatDec(c, count.value - i, Rest()))
      {
        ghost var before := Rest();
        var v := ReadVecI64();
        if v.None? {
          NoItem(c, count.value - i, out, before);
          return None;
        }
        NextItem(c, count.value - i, out, before, v.value, Rest());
        out := out + [v.value];
      }
      RepeatDone(c, out, Rest());
      return Some(out);
    }

    method ReadVecVecVecI64() returns (r: Option<seq<seq<seq<int>>>>)
      requires Valid()
      modifies this
      ensures Reads(VecVecVecI64(), old(Rest()), r, this)
    {
      hide VecVecI64, U32, RepeatDec, Prepend;
      ghost var c := VecVecI64();
      var count := ReadU32();
      if count.None? {
        return None;
      }
      var out: seq<seq<seq<int>>> := [];
      ghost var whole := RepeatDec(c, count.value, Rest());
      PrependNothing(whole);
      for i := 0 to count.value
        invariant Valid()
        invariant whole == Prepend(out, RepeatDec(c, count.value - i, Rest()))
      {
        ghost var before := Rest();
        var v := ReadVecVecI64();
        if v.None? {
          NoItem(c, count.value - i, out, before);
          return None;
        }
        NextItem(c, count.value - i, out, before, v.value, Rest());
        out := out + [v.value];
      }
      RepeatDone(c, out, Rest());
      return Some(out);
    }
  }

  /** `r` is what `c` makes of the bytes `before`, and the reader is left at the bytes after. */
  ghost predicate Reads<T>(c: Codec<byte, T>, before: seq<byte>, r: Option<T>, reader: ByteReader)
    reads reader
  {
    match c.dec(before)
    case None => r.None?
    case Some((x, rest)) => r == Some(x) && reader.Valid() && reader.Rest() == rest
  }

  /** What a reader that ignores trailing bytes makes of a buffer. */
  ghost function Decoded<T>(c: Codec<byte, T>, buf: seq<byte>): Option<T> {
    match c.dec(buf)
    case None => None
    case Some((x, rest)) => Some(x)
  }

  // ---- Seeded queries --------------------------------------------------------------------------

  ghost function QueryTupleOf(q: SeededQuery): QueryTuple {
    ((q.seeds, q.embeddingB), q.selectorB)
  }

  ghost function QueryOf(x: QueryTuple): SeededQuery {
    SeededQuery(x.0.0, x.0.1, x.1)
  }

  method SerializeSeededQuery(q: SeededQuery) returns (bytes: seq<byte>)
    requires forall k :: 0 <= k < |q.seeds| ==> |q.seeds[k]| == SEED_BYTES
    ensures bytes == QueryWire().enc(QueryTupleOf(q))
    ensures QueryBytes(bytes, q)
  {
    hide QueryBytes, DigitsAt, VecVecI64, U32, RepeatEnc;
    ghost var c := Raw(SEED_BYTES);
    var w := new ByteWriter();
    w.WriteU32(|q.seeds|);
    ghost var start := w.buf;
    RepeatEncNone(c);
    for k := 0 to |q.seeds|
      invariant w.buf == start + RepeatEnc(c, q.seeds[..k])
    {
      ghost var before := w.buf;
      w.WriteBytes(q.seeds[k]);
      AppendItem(c, q.seeds, k, start, before, w.buf);
    }
    assert q.seeds[..|q.seeds|] == q.seeds;
    w.WriteVecVecI64(q.embeddingB);
    w.WriteVecVecI64(q.selectorB);
    bytes := w.buf;
    QuerySpelledOut(q);
  }

  method DeserializeSeededQuery(buf: seq<byte>) returns (r: Option<SeededQuery>)
    ensures r == match Decoded(QueryWire(), buf) case None => None case Some(x) => Some(QueryOf(x))
  {
    hide VecVecI64, U32, RepeatDec, Prepend, Raw;
    ghost var c := Raw(SEED_BYTES);
    var reader := new ByteReader(buf);
    var count := reader.ReadU32();
    if count.None? {
      return None;
    }
    var seeds: seq<seq<byte>> := [];
    ghost var whole := RepeatDec(c, count.value, reader.Rest());
    PrependNothing(whole);
    for k := 0 to count.value
      invariant reader.Valid()
      invariant whole == Prepend(seeds, RepeatDec(c, count.value - k, reader.Rest()))
    {
      ghost var before := reader.Rest();
      var seed := reader.ReadBytes(SEED_BYTES);
      if seed.None? {
        NoItem(c, count.value - k, seeds, before);
        return None;
      }
      NextItem(c, count.value - k, seeds, before, seed.value, reader.Rest());
      seeds := seeds + [seed.value];
    }
    RepeatDone(c, seeds, reader.Rest());
    var embedding := reader.ReadVecVecI64();
    if embedding.None? {
      return None;
    }
    var selector := reader.ReadVecVecI64();
    if selector.None? {
      return None;
    }
    return Some(SeededQuery(seeds, embedding.value, selector.value));
  }

  // ---- Seeded public material --------------------------------------------------------------------

  ghost function MaterialTupleOf(m: SeededPublicMaterial): MaterialTuple {
    ((m.evalKeySeed, m.automorphismB), m.skSquaredB)
  }

  ghost function MaterialOf(x: MaterialTuple): SeededPublicMaterial {
    SeededPublicMaterial(x.0.0, x.0.1, x.1)
  }

  method SerializeSeededPublicMaterial(m: SeededPublicMaterial) returns (bytes: seq<byte>)
    ensures bytes == MaterialWire().enc(MaterialTupleOf(m))
    ensures |m.evalKeySeed| == 16 ==> MaterialBytes(bytes, m)
  {
    hide MaterialBytes, DigitsAt, VecVecI64, VecVecVecI64;
    var w := new ByteWriter();
    w.WriteBytes(m.evalKeySeed);
    w.WriteVecVecVecI64(m.automorphismB);
    w.WriteVecVecI64(m.skSquaredB);
    bytes := w.buf;
    if |m.evalKeySeed| == 16 {
      MaterialSpelledOut(m);
    }
  }

  method DeserializeSeededPublicMaterial(buf: seq<byte>) returns (r: Option<SeededPublicMaterial>)
    ensures r == match Decoded(MaterialWire(), buf) case None => None case Some(x) => Some(MaterialOf(x))
  {
    hide VecVecI64, VecVecVecI64, Raw;
    var reader := new ByteReader(buf);
    var seed := reader.ReadBytes(SEED_BYTES);
    if seed.None? {
      return None;
    }
    var automorphism := reader.ReadVecVecVecI64();
    if automorphism.None? {
      return None;
    }
    var skSquared := reader.ReadVecVecI64();
    if skSquared.None? {
      return None;
    }
    return Some(SeededPublicMaterial(seed.value, automorphism.value, skSquared.value));
  }

  // ---- Responses -----------------------------------------------------------------------------------

  ghost function CtTuples(cts: seq<RlweCt>): (out: seq<(seq<int>, seq<int>)>)
    ensures |out| == |cts|
    ensures forall k :: 0 <= k < |out| ==> out[k] == (cts[k].a, cts[k].b)
  {
    seq(|cts|, k requires 0 <= k < |cts| => (cts[k].a, cts[k].b))
  }

  ghost function CtsOf(x: seq<(seq<int>, seq<int>)>): (out: seq<RlweCt>)
    ensures |out| == |x|
    ensures forall k :: 0 <= k < |out| ==> out[k] == RlweCt(x[k].0, x[k].1)
  {
    seq(|x|, k requires 0 <= k < |x| => RlweCt(x[k].0, x[k].1))
  }

  method WriteCoefficients(w: ByteWriter, coefficients: seq<int>, n: nat)
    requires |coefficients| == n
    modifies w
    ensures w.buf == old(w.buf) + Repeat(I64(), n).enc(coefficients)
  {
    hide I64, RepeatEnc;
    ghost var start := w.buf;
    RepeatEncNone(I64());
    for i := 0 to n
      invariant w.buf == start + RepeatEnc(I64(), coefficients[..i])
    {
      ghost var before := w.buf;
      w.WriteI64(coefficients[i]);
      AppendItem(I64(), coefficients, i, start, before, w.buf);
    }
    assert coefficients[..n] == coefficients;
  }

  method ReadCoefficients(reader: ByteReader, n: nat) returns (r: Option<seq<int>>)
    requires reader.Valid()
    modifies reader
    ensures Reads(Repeat(I64(), n), old(reader.Rest()), r, reader)
  {
    hide I64, RepeatDec, Prepend;
    var out: seq<int> := [];
    ghost var whole := RepeatDec(I64(), n, reader.Rest());
    PrependNothing(whole);
    for i := 0 to n
      invariant reader.Valid()
      invariant whole == Prepend(out, RepeatDec(I64(), n - i, reader.Rest()))
    {
      ghost var before := reader.Rest();
      var v := reader.ReadI64();
      if v.None? {
        NoItem(I64(), n - i, out, before);
        return None;
      }
      NextItem(I64(), n - i, out, before, v.value, reader.Rest());
      out := out + [v.value];
    }
    RepeatDone(I64(), out, reader.Rest());
    return Some(out);
  }

  method WriteCiphertext(w: ByteWriter, ct: RlweCt, n: nat)
    requires |ct.a| == |ct.b| == n
    modifies w
    ensures w.buf == old(w.buf) + CtWire(n).enc((ct.a, ct.b))
  {
    hide Repeat;
    WriteCoefficients(w, ct.a, n);
    WriteCoefficients(w, ct.b, n);
  }

  method ReadCiphertext(reader: ByteReader, n: nat) returns (r: Option<RlweCt>)
    requires reader.Valid()
    modifies reader
    ensures r.None? ==> CtWire(n).dec(old(reader.Rest())) == None
    ensures r.Some? ==> Reads(CtWire(n), old(reader.Rest()), Some((r.value.a, r.value.b)), reader)
  {
    hide Repeat;
    var a := ReadCoefficients(reader, n);
    if a.None? {
      return None;
    }
    var b := ReadCoefficients(reader, n);
    if b.None? {
      return None;
    }
    return Some(RlweCt(a.value, b.value));
  }

  method SerializeQueryResponse(n: nat, cts: seq<RlweCt>) returns (bytes: seq<byte>)
    requires forall k :: 0 <= k < |cts| ==> |cts[k].a| == |cts[k].b| == n
    ensures bytes == ResponseWire(n).enc(CtTuples(cts))
    ensures ResponseBytes(bytes, n, cts)
  {
    hide ResponseBytes, DigitsAt, CtWire, U32, RepeatEnc;
    ghost var c := CtWire(n);
    ghost var tuples := CtTuples(cts);
    var w := new ByteWriter();
    w.WriteU32(|cts|);
    ghost var start := w.buf;
    RepeatEncNone(c);
    assert tuples[..0] == [];
    for k := 0 to |cts|
      invariant w.buf == start + RepeatEnc(c, tuples[..k])
    {
      ghost var before := w.buf;
      WriteCiphertext(w, cts[k], n);
      AppendItem(c, tuples, k, start, before, w.buf);
    }
    assert tuples[..|cts|] == tuples;
    bytes := w.buf;
    ResponseSpelledOut(n, cts, tuples);
  }

  method DeserializeQueryResponse(n: nat, buf: seq<byte>) returns (r: Option<seq<RlweCt>>)
    ensures r == match Decoded(ResponseWire(n), buf) case None => None case Some(x) => Some(CtsOf(x))
  {
    hide CtWire, U32, RepeatDec, Prepend;
    ghost var c := CtWire(n);
    var reader := new ByteReader(buf);
    var count := reader.ReadU32();
    if count.None? {
      return None;
    }
    ghost var tuples: seq<(seq<int>, seq<int>)> := [];
    var cts: seq<RlweCt> := [];
    ghost var whole := RepeatDec(c, count.value, reader.Rest());
    PrependNothing(whole);
    for k := 0 to count.value
      invariant reader.Valid() && cts == CtsOf(tuples)
      invariant whole == Prepend(tuples, RepeatDec(c, count.value - k, reader.Rest()))
    {
      ghost var before := reader.Rest();
      var ct := ReadCiphertext(reader, n);
      if ct.None? {
        NoItem(c, count.value - k, tuples, before);
        return None;
      }
      NextItem(c, count.value - k, tuples, before, (ct.value.a, ct.value.b), reader.Rest());
      tuples := tuples + [(ct.value.a, ct.value.b)];
      cts := cts + [ct.value];
    }
    RepeatDone(c, tuples, reader.Rest());
    return Some(cts);
  }

  // ---- Session envelopes -----------------------------------------------------------------------------

  datatype RegistrationMessage = RegistrationMessage(sessionId: seq<byte>, material: SeededPublicMaterial)
  datatype QueryMessage = QueryMessage(sessionId: seq<byte>, query: SeededQuery)

  ghost function DecodedRegistration(buf: seq<byte>): Option<RegistrationMessage> {
    match Decoded(RegistrationWire(), buf)
    case None => None
    case Some(x) => Some(RegistrationMessage(x.0, MaterialOf(x.1)))
  }

  ghost function DecodedQueryMessage(buf: seq<byte>): Option<QueryMessage> {
    match Decoded(QueryMessageWire(), buf)
    case None => None
    case Some(x) => Some(QueryMessage(x.0, QueryOf(x.1)))
  }

  method SerializeRegistrationMessage(m: RegistrationMessage) returns (bytes: seq<byte>)
    ensures bytes == RegistrationWire().enc((m.sessionId, MaterialTupleOf(m.material)))
    ensures |m.sessionId| == 16 && |m.material.evalKeySeed| == 16 ==>
              |bytes| >= 16 && bytes[..16] == m.sessionId && MaterialBytes(bytes[16..], m.material)
  {
    hide MaterialBytes, MaterialWire;
    var material := SerializeSeededPublicMaterial(m.material);
    bytes := m.sessionId + material;
    assert bytes[|m.sessionId|..] == material;
  }

  method DeserializeRegistrationMessage(buf: seq<byte>) returns (r: Option<RegistrationMessage>)
    ensures r == DecodedRegistration(buf)
    ensures |buf| < 16 ==> r == None
    ensures r.Some? ==> r.value.sessionId == buf[..16]
  {
    hide MaterialWire;
    if |buf| < SESSION_ID_BYTES {
      return None;
    }
    var material := DeserializeSeededPublicMaterial(buf[SESSION_ID_BYTES..]);
    if material.None? {
      return None;
    }
    return Some(RegistrationMessage(buf[..SESSION_ID_BYTES], material.value));
  }

  method SerializeQueryMessage(m: QueryMessage) returns (bytes: seq<byte>)
    requires forall k :: 0 <= k < |m.query.seeds| ==> |m.query.seeds[k]| == SEED_BYTES
    ensures bytes == QueryMessageWire().enc((m.sessionId, QueryTupleOf(m.query)))
    ensures |m.sessionId| == 16 ==> |bytes| >= 16 && bytes[..16] == m.sessionId && QueryBytes(bytes[16..], m.query)
  {
    hide QueryBytes, QueryWire;
    var query := SerializeSeededQuery(m.query);
    bytes := m.sessionId + query;
    assert bytes[|m.sessionId|..] == query;
  }

  method DeserializeQueryMessage(buf: seq<byte>) returns (r: Option<QueryMessage>)
    ensures r == DecodedQueryMessage(buf)
    ensures |buf| < 16 ==> r == None
    ensures r.Some? ==> r.value.sessionId == buf[..16]
  {
    hide QueryWire;
    if |buf| < SESSION_ID_BYTES {
      return None;
    }
    var query := DeserializeSeededQuery(buf[SESSION_ID_BYTES..]);
    if query.None? {
      return None;
    }
    return Some(QueryMessage(buf[..SESSION_ID_BYTES], query.value));
  }
}
