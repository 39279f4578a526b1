/** Whatever the decoder accepts, it accepts again after re-encoding, with the same result. */
module Canonical {
  import opened Wire
  import opened Messages
  import opened Encoding
  import opened Decoding
  import opened MergeLaws
  import opened RoundTrip

  // ------------------------------------------------ unknown bytes stay whole fields

  lemma {:induction false} UnknownAppend(sch: Schema, a: bytes, b: bytes)
    requires UnknownOnly(sch, a) && UnknownOnly(sch, b)
    ensures UnknownOnly(sch, a + b)
    decreases |a|
  {
    hide Varint, Skip;
    if a == [] {
      assert a + b == b;
    } else {
      assert a[0..] == a && (a + b)[0..] == a + b;
      VarintExtends(a, b, 0);
      SkipExtends(a, b, 0);
      var n := Skip(a).value;
      assert (a + b)[n..] == a[n..] + b;
      UnknownAppend(sch, a[n..], b);
    }
  }

  lemma UnknownChunk(sch: Schema, s: bytes)
    requires StartsUnknown(sch, s)
    ensures UnknownOnly(sch, s[..Skip(s).value])
  {
    hide ReadRaw, PayloadEnd;
    var n := Skip(s).value;
    var c := s[..n];
    assert c[..n] == c && c[0..] == c && s[0..] == s;
    RawLocalAt(s, c, 0, n);
    SkipLocal(s, c, 0, 0, n);
    assert c[n..] == [];
  }

  lemma StepKeepsUnknowns(sch: Schema, m: Msg, s: bytes, base: nat)
    requires Typed(sch, m) && UnknownsOk(sch, m) && Step(sch, m, s, base).Ok?
    ensures UnknownsOk(sch, Step(sch, m, s, base).value.0)
    decreases sch, |s|, 0
  {
    hide Varint, Skip, DecodeField, UnknownOnly;
    var (wire, n) := Varint(s).value;
    var k := Lookup(sch.fields, FieldNum(wire), 0);
    var m' := Step(sch, m, s, base).value.0;
    if k == |sch.fields| {
      var len := Skip(s).value;
      UnknownChunk(sch, s);
      UnknownAppend(sch, m.unknown, s[..len]);
    } else {
      FieldKeepsUnknowns(sch.fields[k], m.vals[k], s, n, WireType(wire), base);
      assert m'.unknown == m.unknown;
    }
  }

  lemma FieldKeepsUnknowns(f: Field, v: Val, s: bytes, j: nat, wt: nat, base: nat)
    requires TypedVal(f.kind, v) && j <= |s| && UnknownsOkVal(f.kind, v)
    requires DecodeField(f, v, s, j, wt, base).Ok?
    ensures UnknownsOkVal(f.kind, DecodeField(f, v, s, j, wt, base).value.0)
    decreases f
  {
    hide Varint, ReadLen, Decode, UnknownsOk;
    if f.kind.Message? || f.kind.Repeated? {
      var sub := f.kind.schema;
      var (p, e) := ReadLen(s, j, base).value;
      EmptyUnknowns(sub);
      if f.kind.Message? && v.msg.Some? {
        DecodeKeepsUnknowns(sub, v.msg.value, s[p..e], 0);
      } else {
        DecodeKeepsUnknowns(sub, Empty(sub), s[p..e], 0);
      }
    }
  }

  lemma {:induction false} DecodeKeepsUnknowns(sch: Schema, m: Msg, s: bytes, base: nat)
    requires Typed(sch, m) && UnknownsOk(sch, m) && Decode(sch, m, s, base).Ok?
    ensures UnknownsOk(sch, Decode(sch, m, s, base).value)
    decreases sch, |s|, 1
  {
    hide Step, UnknownsOk;
    if s != [] {
      var (m', n) := Step(sch, m, s, base).value;
      StepKeepsUnknowns(sch, m, s, base);
      DecodeKeepsUnknowns(sch, m', s[n..], base + n);
    }
  }

  lemma EmptyUnknowns(sch: Schema)
    ensures UnknownsOk(sch, Empty(sch))
  {
    forall k | 0 <= k < |sch.fields| ensures UnknownsOkVal(sch.fields[k].kind, Empty(sch).vals[k]) {
      assert Empty(sch).vals[k] == Default(sch.fields[k].kind);
    }
  }

  // ------------------------------------------------ main results

  /** Decoding an encoding into a fresh message gives the message back exactly when the
      unknown bytes, at every level, are whole fields with unknown numbers. */
  lemma RoundTripExactly(sch: Schema, x: Msg, e: bytes)
    requires ValidSchema(sch) && Typed(sch, x) && IsEncoding(sch, x, e) && |e| < TWO_63
    ensures Decode(sch, Empty(sch), e, 0) == Ok(x) <==> UnknownsOk(sch, x)
  {
    hide Decode, UnknownsOk, IsEncoding;
    if UnknownsOk(sch, x) {
      DecodeInvertsEncode(sch, x, e);
    } else if Decode(sch, Empty(sch), e, 0) == Ok(x) {
      EmptyUnknowns(sch);
      DecodeKeepsUnknowns(sch, Empty(sch), e, 0);
      assert false;
    }
  }

  /** For every accepted input, encoder output or not: any encoding of the decoded message
      decodes to that message again, unknown fields included and in order. */
  lemma Canonicalisation(sch: Schema, d: bytes, x: Msg, e: bytes)
    requires ValidSchema(sch) && Decode(sch, Empty(sch), d, 0) == Ok(x)
    requires IsEncoding(sch, x, e) && |e| < TWO_63
    ensures Decode(sch, Empty(sch), e, 0) == Ok(x)
  {
    hide Decode, UnknownsOk, IsEncoding;
    EmptyUnknowns(sch);
    DecodeKeepsUnknowns(sch, Empty(sch), d, 0);
    DecodeInvertsEncode(sch, x, e);
  }
}
