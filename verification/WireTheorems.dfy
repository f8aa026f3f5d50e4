/** What the length-prefixed format promises: exact round trips, exact acceptance, and no
    message that is cut short decodes to anything. */
module WireTheorems {
  import opened MachineInts
  import opened Codecs
  import opened Messages
  import opened WireCodecs
  import opened WireProtocol

  // ---- For any lawful codec ----------------------------------------------------------------

  /** A buffer decodes to `x` exactly when it begins with the encoding of `x`, which must be
      encodable. Bytes behind it are ignored. */
  lemma DecodedIff<T(!new)>(c: Codec<byte, T>, buf: seq<byte>, x: T)
    requires Lawful(c)
    ensures Decoded(c, buf) == Some(x) <==> c.ok(x) && c.enc(x) <= buf
  {
    if c.ok(x) && c.enc(x) <= buf {
      var rest := buf[|c.enc(x)|..];
      assert buf == c.enc(x) + rest;
      assert c.dec(c.enc(x) + rest) == Some((x, rest));
    }
    if Decoded(c, buf) == Some(x) {
      var rest := c.dec(buf).value.1;
      assert buf == c.enc(x) + rest;
    }
  }

  lemma CutShort<T(!new)>(c: Codec<byte, T>, x: T, cut: seq<byte>)
    requires Lawful(c) && c.ok(x) && cut < c.enc(x)
    ensures Decoded(c, cut) == None
  {
    PrefixFree(c, x, cut);
  }

  // ---- Which values fit ------------------------------------------------------------------------

  /** The type the sources give a vector's elements. */
  ghost predicate Int64s(xs: seq<int>) {
    forall i :: 0 <= i < |xs| ==> INT64_MIN <= xs[i] <= INT64_MAX
  }

  ghost predicate Int64Rows(rows: seq<seq<int>>) {
    forall i :: 0 <= i < |rows| ==> Int64s(rows[i])
  }

  ghost predicate Int64Levels(levels: seq<seq<seq<int>>>) {
    forall i :: 0 <= i < |levels| ==> Int64Rows(levels[i])
  }

  /** Counts fit their 32-bit prefixes, at every nesting level. */
  ghost predicate RowsFit(rows: seq<seq<int>>) {
    |rows| < COUNT_LIMIT && forall i :: 0 <= i < |rows| ==> |rows[i]| < COUNT_LIMIT
  }

  ghost predicate LevelsFit(levels: seq<seq<seq<int>>>) {
    |levels| < COUNT_LIMIT && forall i :: 0 <= i < |levels| ==> RowsFit(levels[i])
  }

  lemma VecOk(xs: seq<int>)
    requires Int64s(xs)
    ensures VecI64().ok(xs) <==> |xs| < COUNT_LIMIT
  {
    assert AllOk(I64(), xs);
  }

  lemma RowsOk(rows: seq<seq<int>>)
    requires Int64Rows(rows)
    ensures VecVecI64().ok(rows) <==> RowsFit(rows)
  {
    var c := VecI64();
    assert VecVecI64().ok(rows) <==> |rows| < COUNT_LIMIT && AllOk(c, rows);
    forall i | 0 <= i < |rows|
      ensures c.ok(rows[i]) <==> |rows[i]| < COUNT_LIMIT
    {
      VecOk(rows[i]);
    }
  }

  lemma LevelsOk(levels: seq<seq<seq<int>>>)
    requires Int64Levels(levels)
    ensures VecVecVecI64().ok(levels) <==> LevelsFit(levels)
  {
    var c := VecVecI64();
    assert VecVecVecI64().ok(levels) <==> |levels| < COUNT_LIMIT && AllOk(c, levels);
    hide VecVecI64;
    forall i | 0 <= i < |levels|
      ensures c.ok(levels[i]) <==> RowsFit(levels[i])
    {
      RowsOk(levels[i]);
    }
  }

  // ---- Query messages --------------------------------------------------------------------------

  /** What the sources' types guarantee of a query message. */
  ghost predicate WellTypedQuery(m: QueryMessage) {
    && |m.sessionId| == SESSION_ID_BYTES
    && (forall k :: 0 <= k < |m.query.seeds| ==> |m.query.seeds[k]| == SEED_BYTES)
    && Int64Rows(m.query.embeddingB) && Int64Rows(m.query.selectorB)
  }

  ghost predicate QueryCountsFit(q: SeededQuery) {
    |q.seeds| < COUNT_LIMIT && RowsFit(q.embeddingB) && RowsFit(q.selectorB)
  }

  ghost function QueryMessageBytes(m: QueryMessage): seq<byte> {
    QueryMessageWire().enc((m.sessionId, QueryTupleOf(m.query)))
  }

  lemma QueryMessageOk(m: QueryMessage)
    requires WellTypedQuery(m)
    ensures QueryMessageWire().ok((m.sessionId, QueryTupleOf(m.query))) <==> QueryCountsFit(m.query)
  {
    RowsOk(m.query.embeddingB);
    RowsOk(m.query.selectorB);
    assert AllOk(Raw(SEED_BYTES), m.query.seeds);
  }

  /** A serialized query message decodes to itself exactly when every count fits in 32 bits,
      whatever bytes follow it; cut short anywhere it does not decode at all. */
  lemma QueryMessageRoundTrip(m: QueryMessage, trailing: seq<byte>)
    requires WellTypedQuery(m)
    ensures DecodedQueryMessage(QueryMessageBytes(m) + trailing) == Some(m) <==> QueryCountsFit(m.query)
  {
    hide QueryMessageWire;
    var x := (m.sessionId, QueryTupleOf(m.query));
    QueryWireLawful();
    QueryMessageOk(m);
    DecodedIff(QueryMessageWire(), QueryMessageBytes(m) + trailing, x);
  }

  lemma QueryMessageCutShort(m: QueryMessage, cut: seq<byte>)
    requires WellTypedQuery(m) && QueryCountsFit(m.query)
    requires cut < QueryMessageBytes(m)
    ensures DecodedQueryMessage(cut) == None
  {
    hide QueryMessageWire;
    QueryWireLawful();
    QueryMessageOk(m);
    CutShort(QueryMessageWire(), (m.sessionId, QueryTupleOf(m.query)), cut);
  }

  /** ... and whatever decodes to a message begins with that message's bytes. */
  lemma QueryMessageAccepted(buf: seq<byte>, m: QueryMessage)
    requires DecodedQueryMessage(buf) == Some(m)
    ensures QueryMessageBytes(m) <= buf
  {
    hide QueryMessageWire;
    QueryWireLawful();
    DecodedIff(QueryMessageWire(), buf, (m.sessionId, QueryTupleOf(m.query)));
  }

  // ---- Registration messages ---------------------------------------------------------------------

  ghost predicate WellTypedRegistration(m: RegistrationMessage) {
    && |m.sessionId| == SESSION_ID_BYTES && |m.material.evalKeySeed| == SEED_BYTES
    && Int64Levels(m.material.automorphismB) && Int64Rows(m.material.skSquaredB)
  }

  ghost predicate MaterialCountsFit(m: SeededPublicMaterial) {
    LevelsFit(m.automorphismB) && RowsFit(m.skSquaredB)
  }

  ghost function RegistrationBytes(m: RegistrationMessage): seq<byte> {
    RegistrationWire().enc((m.sessionId, MaterialTupleOf(m.material)))
  }

  lemma RegistrationOk(m: RegistrationMessage)
    requires WellTypedRegistration(m)
    ensures RegistrationWire().ok((m.sessionId, MaterialTupleOf(m.material))) <==> MaterialCountsFit(m.material)
  {
    LevelsOk(m.material.automorphismB);
    RowsOk(m.material.skSquaredB);
  }

  lemma RegistrationRoundTrip(m: RegistrationMessage, trailing: seq<byte>)
    requires WellTypedRegistration(m)
    ensures DecodedRegistration(RegistrationBytes(m) + trailing) == Some(m) <==> MaterialCountsFit(m.material)
  {
    hide RegistrationWire;
    MaterialWireLawful();
    RegistrationOk(m);
    DecodedIff(RegistrationWire(), RegistrationBytes(m) + trailing, (m.sessionId, MaterialTupleOf(m.material)));
  }

  lemma RegistrationCutShort(m: RegistrationMessage, cut: seq<byte>)
    requires WellTypedRegistration(m) && MaterialCountsFit(m.material)
    requires cut < RegistrationBytes(m)
    ensures DecodedRegistration(cut) == None
  {
    hide RegistrationWire;
    MaterialWireLawful();
    RegistrationOk(m);
    CutShort(RegistrationWire(), (m.sessionId, MaterialTupleOf(m.material)), cut);
  }

  lemma RegistrationAccepted(buf: seq<byte>, m: RegistrationMessage)
    requires DecodedRegistration(buf) == Some(m)
    ensures RegistrationBytes(m) <= buf
  {
    hide RegistrationWire;
    MaterialWireLawful();
    DecodedIff(RegistrationWire(), buf, (m.sessionId, MaterialTupleOf(m.material)));
  }

  // ---- The bare structs ------------------------------------------------------------------------

  lemma SeededQueryRoundTrip(q: SeededQuery, trailing: seq<byte>, cut: seq<byte>)
    requires forall k :: 0 <= k < |q.seeds| ==> |q.seeds[k]| == SEED_BYTES
    requires Int64Rows(q.embeddingB) && Int64Rows(q.selectorB)
    ensures var bytes := QueryWire().enc(QueryTupleOf(q));
            && (Decoded(QueryWire(), bytes + trailing) == Some(QueryTupleOf(q)) <==> QueryCountsFit(q))
            && (QueryCountsFit(q) && cut < bytes ==> Decoded(QueryWire(), cut) == None)
    ensures QueryOf(QueryTupleOf(q)) == q
  {
    RowsOk(q.embeddingB);
    RowsOk(q.selectorB);
    assert AllOk(Raw(SEED_BYTES), q.seeds);
    assert QueryWire().ok(QueryTupleOf(q)) <==> QueryCountsFit(q);
    hide QueryWire;
    QueryWireLawful();
    DecodedIff(QueryWire(), QueryWire().enc(QueryTupleOf(q)) + trailing, QueryTupleOf(q));
    if QueryCountsFit(q) && cut < QueryWire().enc(QueryTupleOf(q)) {
      CutShort(QueryWire(), QueryTupleOf(q), cut);
    }
  }

  lemma PublicMaterialRoundTrip(m: SeededPublicMaterial, trailing: seq<byte>, cut: seq<byte>)
    requires |m.evalKeySeed| == SEED_BYTES && Int64Levels(m.automorphismB) && Int64Rows(m.skSquaredB)
    ensures var bytes := MaterialWire().enc(MaterialTupleOf(m));
            && (Decoded(MaterialWire(), bytes + trailing) == Some(MaterialTupleOf(m)) <==> MaterialCountsFit(m))
            && (MaterialCountsFit(m) && cut < bytes ==> Decoded(MaterialWire(), cut) == None)
    ensures MaterialOf(MaterialTupleOf(m)) == m
  {
    LevelsOk(m.automorphismB);
    RowsOk(m.skSquaredB);
    assert MaterialWire().ok(MaterialTupleOf(m)) <==> MaterialCountsFit(m);
    hide MaterialWire;
    MaterialWireLawful();
    DecodedIff(MaterialWire(), MaterialWire().enc(MaterialTupleOf(m)) + trailing, MaterialTupleOf(m));
    if MaterialCountsFit(m) && cut < MaterialWire().enc(MaterialTupleOf(m)) {
      CutShort(MaterialWire(), MaterialTupleOf(m), cut);
    }
  }

  // ---- Responses -----------------------------------------------------------------------------------

  /** A response of ciphertexts of one ring decodes to itself exactly when its count fits,
      whatever bytes follow it; cut short anywhere it does not decode at all. */
  lemma ResponseRoundTrip(n: nat, cts: seq<RlweCt>, trailing: seq<byte>, cut: seq<byte>)
    requires forall k :: 0 <= k < |cts| ==> |cts[k].a| == |cts[k].b| == n && Int64s(cts[k].a) && Int64s(cts[k].b)
    ensures var bytes := ResponseWire(n).enc(CtTuples(cts));
            && (Decoded(ResponseWire(n), bytes + trailing) == Some(CtTuples(cts)) <==> |cts| < COUNT_LIMIT)
            && (|cts| < COUNT_LIMIT && cut < bytes ==> Decoded(ResponseWire(n), cut) == None)
    ensures CtsOf(CtTuples(cts)) == cts
  {
    var c := CtWire(n);
    var tuples := CtTuples(cts);
    forall k | 0 <= k < |cts|
      ensures c.ok(tuples[k])
    {
      assert AllOk(I64(), cts[k].a) && AllOk(I64(), cts[k].b);
    }
    assert AllOk(c, tuples);
    assert ResponseWire(n).ok(tuples) <==> |tuples| < COUNT_LIMIT;
    hide ResponseWire;
    ResponseWireLawful(n);
    DecodedIff(ResponseWire(n), ResponseWire(n).enc(tuples) + trailing, tuples);
    if |cts| < COUNT_LIMIT && cut < ResponseWire(n).enc(tuples) {
      CutShort(ResponseWire(n), tuples, cut);
    }
  }
}
