/** Decoding an encoding gives the message back; re-encoding what was decoded loses nothing. */
module RoundTrip {
  import opened Sequences
  import opened Wire
  import opened Messages
  import opened Encoding
  import opened Decoding
  import opened MergeLaws

  // ------------------------------------------------ unknown bytes

  /** `s` starts with one whole field whose number the schema does not have. */
  ghost predicate StartsUnknown(sch: Schema, s: bytes) {
    && Varint(s).Ok?
    && (var wire := Varint(s).value.0;
        && WireType(wire) != 4 && FieldNum(wire) > 0
        && Lookup(sch.fields, FieldNum(wire), 0) == |sch.fields|)
    && Skip(s).Ok? && Skip(s).value <= |s|
  }

  /** `u` is a concatenation of whole fields with unknown numbers. */
  ghost predicate UnknownOnly(sch: Schema, u: bytes)
    decreases |u|
  {
    u == [] || (StartsUnknown(sch, u) && UnknownOnly(sch, u[Skip(u).value..]))
  }

  /** Unknown bytes are whole unknown fields, in the message and in every submessage. */
  ghost predicate UnknownsOk(sch: Schema, m: Msg)
    requires Typed(sch, m)
    decreases sch
  {
    && UnknownOnly(sch, m.unknown)
    && forall k | 0 <= k < |sch.fields| :: UnknownsOkVal(sch.fields[k].kind, m.vals[k])
  }

  ghost predicate UnknownsOkVal(kind: Kind, v: Val)
    requires TypedVal(kind, v)
    decreases kind
  {
    match kind
    case Message(sub) => v.msg.Some? ==> UnknownsOk(sub, v.msg.value)
    case Repeated(sub) => forall k | 0 <= k < |v.msgs| :: UnknownsOk(sub, v.msgs[k])
    case _ => true
  }

  lemma UnknownStep(sch: Schema, m: Msg, u: bytes, base: nat)
    requires Typed(sch, m) && StartsUnknown(sch, u) && base + |u| < TWO_63
    ensures var n := Skip(u).value; Step(sch, m, u, base) == Ok((m.(unknown := m.unknown + u[..n]), n))
  {
    hide Varint, Skip;
  }

  /** Whole unknown fields are kept, in order, and nothing else changes. */
  lemma {:induction false} UnknownDecodes(sch: Schema, m: Msg, u: bytes, base: nat)
    requires Typed(sch, m) && UnknownOnly(sch, u) && base + |u| < TWO_63
    ensures Decode(sch, m, u, base) == Ok(m.(unknown := m.unknown + u))
    decreases |u|
  {
    hide Step, Skip;
    if u == [] {
      assert m.unknown + u == m.unknown;
    } else {
      var n := Skip(u).value;
      UnknownStep(sch, m, u, base);
      var m' := m.(unknown := m.unknown + u[..n]);
      Unfold(sch, m, u, base);
      UnknownDecodes(sch, m', u[n..], base + n);
      assert m.unknown + u[..n] + u[n..] == m.unknown + u;
    }
  }

  // ------------------------------------------------ one field

  lemma {:induction false} EncodingSize(sch: Schema, m: Msg, k: nat, e: bytes)
    requires Typed(sch, m) && k <= |sch.fields| && EncodesFrom(sch, m, k, e)
    ensures |e| == SizeFrom(sch, m, k)
    decreases |sch.fields| - k
  {
    hide SizeVal, EncodesVal;
    if k < |sch.fields| {
      EncodingSize(sch, m, k + 1, e[SizeVal(sch.fields[k], m.vals[k])..]);
    }
  }

  /** A string of bytes that is one record of field `k` takes exactly one decoding step. */
  lemma FieldDecodes(sch: Schema, m: Msg, k: nat, s: bytes, payload: bytes, v: Val, base: nat)
    requires ValidSchema(sch) && Typed(sch, m) && k < |sch.fields|
    requires var f := sch.fields[k];
      && s == TagOf(f) + payload
      && DecodeField(f, m.vals[k], s, |TagOf(f)|, WireTypeOf(f.kind), base) == Ok((v, |s|))
    ensures TypedVal(sch.fields[k].kind, v)
    ensures Decode(sch, m, s, base) == Ok(SetVal(m, k, v))
  {
    hide DecodeField, Varint;
    var f := sch.fields[k];
    var wt := WireTypeOf(f.kind);
    assert ValidField(f);
    TagRoundTrip(f.num, wt, payload);
    assert Step(sch, m, s, base) == Ok((SetVal(m, k, v), |s|));
    assert s[|s|..] == [];
  }

  /** Reading back a length-delimited record at index `i`. */
  lemma DelimitedAt(s: bytes, i: nat, tag: bytes, x: bytes, rest: bytes, base: nat)
    requires i <= |s| && s[i..] == Delimited(tag, x) + rest && base + |s| < TWO_63
    ensures |Delimited(tag, x)| == DelimitedSize(tag, |x|) && i + DelimitedSize(tag, |x|) <= |s|
    ensures var e := i + DelimitedSize(tag, |x|);
      ReadLen(s, i + |tag|, base) == Ok((e - |x|, e)) && s[e - |x|..e] == x
  {
    hide Varint, EncVarint;
    var j := i + |tag|;
    assert s[j..] == s[i..][|tag|..] == EncVarint(|x|) + (x + rest);
    VarintRoundTrip(|x|, x + rest);
    var e := i + DelimitedSize(tag, |x|);
    assert s[e - |x|..e] == s[i..][|tag| + |EncVarint(|x|)|..|tag| + |EncVarint(|x|)| + |x|] == x;
  }

  lemma WholeDelimited(tag: bytes, x: bytes, base: nat)
    requires base + |Delimited(tag, x)| < TWO_63
    ensures var s := Delimited(tag, x);
      && |s| == DelimitedSize(tag, |x|)
      && ReadLen(s, |tag|, base) == Ok((|s| - |x|, |s|)) && s[|s| - |x|..] == x
  {
    hide ReadLen, Delimited, DelimitedSize;
    var s := Delimited(tag, x);
    assert s[0..] == s == Delimited(tag, x) + [];
    DelimitedAt(s, 0, tag, x, [], base);
    assert s[|s| - |x|..] == s[|s| - |x|..|s|];
  }

  lemma IntDecodes(sch: Schema, m: Msg, k: nat, i: int, base: nat)
    requires ValidSchema(sch) && Typed(sch, m) && k < |sch.fields|
    requires sch.fields[k].kind.Int32? || sch.fields[k].kind.Int64?
    requires TypedVal(sch.fields[k].kind, VInt(i))
    ensures Decode(sch, m, TagOf(sch.fields[k]) + EncVarint(ToUint64(i)), base) == Ok(SetVal(m, k, VInt(i)))
  {
    hide Varint, EncVarint, Decode, TagOf;
    var tag, body := TagOf(sch.fields[k]), EncVarint(ToUint64(i));
    var s := tag + body;
    assert s[|tag|..] == body == body + [];
    SignedRoundTrip(i, []);
    FieldDecodes(sch, m, k, s, body, VInt(i), base);
  }

  lemma BoolDecodes(sch: Schema, m: Msg, k: nat, base: nat)
    requires ValidSchema(sch) && Typed(sch, m) && k < |sch.fields| && sch.fields[k].kind.Bool?
    ensures Decode(sch, m, TagOf(sch.fields[k]) + [1], base) == Ok(SetVal(m, k, VBool(true)))
  {
    hide Decode, TagOf;
    var tag := TagOf(sch.fields[k]);
    var s := tag + [1];
    assert s[|tag|..] == [1];
    FieldDecodes(sch, m, k, s, [1], VBool(true), base);
  }

  /** A record with payload `x` decodes to whatever its payload decodes to. */
  lemma DelimitedDecodes(sch: Schema, m: Msg, k: nat, x: bytes, v: Val, base: nat)
    requires ValidSchema(sch) && Typed(sch, m) && k < |sch.fields| && WireTypeOf(sch.fields[k].kind) == 2
    requires base + |Delimited(TagOf(sch.fields[k]), x)| < TWO_63
    requires var f := sch.fields[k]; var s := Delimited(TagOf(f), x);
      |x| <= |s| && DecodePayload(f, m.vals[k], s, |s| - |x|, |s|, base) == Ok(v)
    ensures TypedVal(sch.fields[k].kind, v)
    ensures Decode(sch, m, Delimited(TagOf(sch.fields[k]), x), base) == Ok(SetVal(m, k, v))
  {
    hide Decode, TagOf, EncVarint, ReadLen, DecodePayload;
    var f := sch.fields[k];
    WholeDelimited(TagOf(f), x, base);
    var s := Delimited(TagOf(f), x);
    assert s == TagOf(f) + (EncVarint(|x|) + x);
    FieldDecodes(sch, m, k, s, EncVarint(|x|) + x, v, base);
  }

  lemma StrDecodes(sch: Schema, m: Msg, k: nat, x: bytes, base: nat)
    requires ValidSchema(sch) && Typed(sch, m) && k < |sch.fields| && sch.fields[k].kind.Str?
    requires base + |Delimited(TagOf(sch.fields[k]), x)| < TWO_63
    ensures Decode(sch, m, Delimited(TagOf(sch.fields[k]), x), base) == Ok(SetVal(m, k, VStr(x)))
  {
    hide Decode, ReadLen, TagOf;
    WholeDelimited(TagOf(sch.fields[k]), x, base);
    var s := Delimited(TagOf(sch.fields[k]), x);
    assert s[|s| - |x|..|s|] == s[|s| - |x|..];
    DelimitedDecodes(sch, m, k, x, VStr(x), base);
  }

  // ------------------------------------------------ maps

  lemma KeyValueTags(rest: bytes)
    ensures Varint(KEY_TAG + rest) == Ok((10, 1)) && FieldNum(10) == 1
    ensures Varint(VALUE_TAG + rest) == Ok((18, 1)) && FieldNum(18) == 2
  {
    assert KEY_TAG == EncVarint(10) && VALUE_TAG == EncVarint(18);
    VarintRoundTrip(10, rest);
    VarintRoundTrip(18, rest);
  }

  /** The entry loop reads back the key and the value of an encoded entry. */
  lemma EntryDecodes(s: bytes, p: nat, k: bytes, v: bytes, base: nat)
    requires p <= |s| && s[p..] == EntryBody(k, v) && base + |s| < TWO_63
    ensures ParseEntry(s, p, |s|, [], [], base) == Ok((k, v))
  {
    hide Varint, ReadLen, Delimited, FieldNum, DelimitedSize;
    DelimitedAt(s, p, KEY_TAG, k, Delimited(VALUE_TAG, v), base);
    var q := p + DelimitedSize(KEY_TAG, |k|);
    assert s[q..] == s[p..][q - p..] == Delimited(VALUE_TAG, v) + [];
    DelimitedAt(s, q, VALUE_TAG, v, [], base);
    assert Varint(s[p..]) == Ok((10, 1)) && Varint(s[q..]) == Ok((18, 1)) && FieldNum(10) == 1 && FieldNum(18) == 2 by {
      DelimitedStart(KEY_TAG, k, Delimited(VALUE_TAG, v));
      DelimitedStart(VALUE_TAG, v, []);
      KeyValueTags(EncVarint(|k|) + k + Delimited(VALUE_TAG, v));
      KeyValueTags(EncVarint(|v|) + v + []);
    }
    assert q + DelimitedSize(VALUE_TAG, |v|) == |s|;
    assert ParseEntry(s, q, |s|, k, [], base) == ParseEntry(s, |s|, |s|, k, v, base);
  }

  lemma DelimitedStart(tag: bytes, x: bytes, rest: bytes)
    ensures Delimited(tag, x) + rest == tag + (EncVarint(|x|) + x + rest)
  {
    Associative(tag + EncVarint(|x|), x, rest);
    Associative(tag, EncVarint(|x|), x + rest);
    Associative(EncVarint(|x|), x, rest);
  }

  lemma EntryFieldDecodes(sch: Schema, m: Msg, k: nat, key: bytes, val: bytes, base: nat)
    requires ValidSchema(sch) && Typed(sch, m) && k < |sch.fields| && sch.fields[k].kind.StrMap?
    requires base + |Delimited(TagOf(sch.fields[k]), EntryBody(key, val))| < TWO_63
    ensures Decode(sch, m, Delimited(TagOf(sch.fields[k]), EntryBody(key, val)), base)
         == Ok(SetVal(m, k, VMap(m.vals[k].m[key := val])))
  {
    hide Decode, ReadLen, TagOf, EntryBody, Delimited;
    var x := EntryBody(key, val);
    WholeDelimited(TagOf(sch.fields[k]), x, base);
    var s := Delimited(TagOf(sch.fields[k]), x);
    EntryDecodes(s, |s| - |x|, key, val, base);
    DelimitedDecodes(sch, m, k, x, VMap(m.vals[k].m[key := val]), base);
  }

  /** Decoding an encoded map adds its entries to those already there. */
  lemma {:induction false} MapDecodes(
    sch: Schema, m: Msg, k: nat, todo: map<bytes, bytes>, e: bytes, base: nat)
    requires ValidSchema(sch) && Typed(sch, m) && k < |sch.fields| && sch.fields[k].kind.StrMap?
    requires EncodesMap(TagOf(sch.fields[k]), todo, e) && base + |e| < TWO_63
    ensures Decode(sch, m, e, base) == Ok(SetVal(m, k, VMap(m.vals[k].m + todo)))
    decreases |todo|
  {
    hide Decode, TagOf, Delimited, EntryBody, Remove, ValidSchema;
    var tag := TagOf(sch.fields[k]);
    var have := m.vals[k].m;
    if todo == map[] {
      assert have + todo == have;
      NothingDecodes(sch, m, k, base);
    } else {
      var key :| key in todo && EntryThen(tag, todo, key, e);
      var val := todo[key];
      var head := Delimited(tag, EntryBody(key, val));
      var tail := e[|head|..];
      assert EntrySize(tag, key, val) == |head| by { WholeDelimited(tag, EntryBody(key, val), base); }
      assert e == head + tail;
      EntryFieldDecodes(sch, m, k, key, val, base);
      var m' := SetVal(m, k, VMap(have[key := val]));
      DecodeAppend(sch, m, head, tail, base, m');
      RemoveShrinks(todo, key);
      MapDecodes(sch, m', k, Remove(todo, key), tail, base + |head|);
      MergeEntry(have, todo, key);
      SetTwice(m, k, VMap(have[key := val]), VMap(have + todo));
    }
  }

  lemma MergeEntry(have: map<bytes, bytes>, todo: map<bytes, bytes>, key: bytes)
    requires key in todo
    ensures have[key := todo[key]] + Remove(todo, key) == have + todo
  {}

  lemma SetTwice(m: Msg, k: nat, v: Val, w: Val)
    requires k < |m.vals|
    ensures SetVal(SetVal(m, k, v), k, w) == SetVal(m, k, w)
  {
    assert m.vals[k := v][k := w] == m.vals[k := w];
  }

  lemma NothingDecodes(sch: Schema, m: Msg, k: nat, base: nat)
    requires Typed(sch, m) && k < |sch.fields|
    ensures Decode(sch, m, [], base) == Ok(SetVal(m, k, m.vals[k]))
  {
    assert m.vals[k := m.vals[k]] == m.vals;
  }

  // ------------------------------------------------ submessages

  lemma MessageDecodes(sch: Schema, m: Msg, k: nat, x: Msg, e: bytes, base: nat)
    requires ValidSchema(sch) && Typed(sch, m) && k < |sch.fields|
    requires sch.fields[k].kind.Message? && m.vals[k] == VMsg(None)
    requires Typed(sch.fields[k].kind.schema, x) && EncodesMsg(sch.fields[k], x, e) && base + |e| < TWO_63
    requires SubDecodes(sch.fields[k].kind.schema, x, e)
    ensures Decode(sch, m, e, base) == Ok(SetVal(m, k, VMsg(Some(x))))
  {
    hide Decode, TagOf, Delimited;
    var f := sch.fields[k];
    var body := e[|e| - Size(f.kind.schema, x)..];
    assert e[|e| - |body|..|e|] == body;
    DelimitedDecodes(sch, m, k, body, VMsg(Some(x)), base);
  }

  lemma ElementDecodes(sch: Schema, m: Msg, k: nat, x: Msg, e: bytes, base: nat)
    requires ValidSchema(sch) && Typed(sch, m) && k < |sch.fields| && sch.fields[k].kind.Repeated?
    requires Typed(sch.fields[k].kind.schema, x) && EncodesMsg(sch.fields[k], x, e) && base + |e| < TWO_63
    requires SubDecodes(sch.fields[k].kind.schema, x, e)
    ensures Decode(sch, m, e, base) == Ok(SetVal(m, k, VRep(m.vals[k].msgs + [x])))
  {
    hide Decode, TagOf, Delimited;
    var f := sch.fields[k];
    var body := e[|e| - Size(f.kind.schema, x)..];
    assert e[|e| - |body|..|e|] == body;
    DelimitedDecodes(sch, m, k, body, VRep(m.vals[k].msgs + [x]), base);
  }

  /** The payload at the end of `e` decodes to `x` in a fresh submessage. */
  ghost predicate SubDecodes(sub: Schema, x: Msg, e: bytes)
    requires Typed(sub, x)
  {
    Size(sub, x) <= |e| && Decode(sub, Empty(sub), e[|e| - Size(sub, x)..], 0) == Ok(x)
  }

  // ------------------------------------------------ whole messages

  /** Decoding any encoding of a message into a fresh message gives the message back. */
  lemma {:induction false} DecodeInvertsEncode(sch: Schema, x: Msg, e: bytes)
    requires ValidSchema(sch) && Typed(sch, x) && UnknownsOk(sch, x)
    requires IsEncoding(sch, x, e) && |e| < TWO_63
    ensures Decode(sch, Empty(sch), e, 0) == Ok(x)
    decreases sch, |sch.fields| + 2
  {
    hide Decode, EncodesFrom, UnknownsOk;
    FromRoundTrip(sch, x, 0, e, Empty(sch), 0);
  }

  lemma {:induction false} FromRoundTrip(sch: Schema, x: Msg, k: nat, e: bytes, m: Msg, base: nat)
    requires ValidSchema(sch) && Typed(sch, x) && UnknownsOk(sch, x) && k <= |sch.fields|
    requires EncodesFrom(sch, x, k, e) && base + |e| < TWO_63
    requires Typed(sch, m) && m.unknown == []
    requires forall j | 0 <= j < |sch.fields| ::
      m.vals[j] == if j < k then x.vals[j] else Default(sch.fields[j].kind)
    ensures Decode(sch, m, e, base) == Ok(x)
    decreases sch, |sch.fields| - k + 1
  {
    hide Decode, EncodesVal, SizeVal, UnknownOnly, ValidSchema, Default;
    if k == |sch.fields| {
      assert m.vals == x.vals && m.unknown + e == e;
      UnknownDecodes(sch, m, e, base);
    } else {
      var n := SizeVal(sch.fields[k], x.vals[k]);
      var head, tail := e[..n], e[n..];
      assert e == head + tail;
      ValRoundTrip(sch, m, k, x.vals[k], head, base);
      var m' := SetVal(m, k, x.vals[k]);
      DecodeAppend(sch, m, head, tail, base, m');
      FromRoundTrip(sch, x, k + 1, tail, m', base + n);
    }
  }

  lemma {:induction false} ValRoundTrip(sch: Schema, m: Msg, k: nat, v: Val, e: bytes, base: nat)
    requires ValidSchema(sch) && Typed(sch, m) && k < |sch.fields| && base + |e| < TWO_63
    requires TypedVal(sch.fields[k].kind, v) && UnknownsOkVal(sch.fields[k].kind, v)
    requires m.vals[k] == Default(sch.fields[k].kind) && EncodesVal(sch.fields[k], v, e)
    ensures Decode(sch, m, e, base) == Ok(SetVal(m, k, v))
    decreases sch, 0
  {
    hide Decode, TagOf, EncodesMap, EncodesRep, EncodesMsg, EncVarint;
    var f := sch.fields[k];
    if e == [] && v == Default(f.kind) {
      NothingDecodes(sch, m, k, base);
    } else if f.kind.Int32? || f.kind.Int64? {
      IntDecodes(sch, m, k, v.i, base);
    } else if f.kind.Bool? {
      BoolDecodes(sch, m, k, base);
    } else if f.kind.Str? {
      StrDecodes(sch, m, k, v.s, base);
    } else if f.kind.StrMap? {
      MapDecodes(sch, m, k, v.m, e, base);
      assert map[] + v.m == v.m;
    } else if f.kind.Message? {
      SubRoundTrip(sch, k, v.msg.value, e);
      MessageDecodes(sch, m, k, v.msg.value, e, base);
    } else {
      RepRoundTrip(sch, m, k, v.msgs, e, base);
      assert [] + v.msgs == v.msgs;
    }
  }

  lemma {:induction false} SubRoundTrip(sch: Schema, k: nat, x: Msg, e: bytes)
    requires ValidSchema(sch) && k < |sch.fields| && |e| < TWO_63
    requires var f := sch.fields[k];
      && (f.kind.Message? || f.kind.Repeated?)
      && Typed(f.kind.schema, x) && UnknownsOk(f.kind.schema, x) && EncodesMsg(f, x, e)
    ensures SubDecodes(sch.fields[k].kind.schema, x, e)
    decreases sch, 0, 0
  {
    hide Decode, UnknownsOk, IsEncoding;
    var f := sch.fields[k];
    assert ValidField(f);
    DecodeInvertsEncode(f.kind.schema, x, e[|e| - Size(f.kind.schema, x)..]);
  }

  lemma {:induction false} RepRoundTrip(sch: Schema, m: Msg, k: nat, ms: seq<Msg>, e: bytes, base: nat)
    requires ValidSchema(sch) && Typed(sch, m) && k < |sch.fields| && base + |e| < TWO_63
    requires sch.fields[k].kind.Repeated?
    requires var sub := sch.fields[k].kind.schema;
      forall j | 0 <= j < |ms| :: Typed(sub, ms[j]) && UnknownsOk(sub, ms[j])
    requires EncodesRep(sch.fields[k], ms, e)
    ensures Decode(sch, m, e, base) == Ok(SetVal(m, k, VRep(m.vals[k].msgs + ms)))
    decreases sch, 0, |ms|
  {
    hide Decode, EncodesMsg, Size, UnknownsOk, ValidSchema;
    var f := sch.fields[k];
    var have := m.vals[k].msgs;
    if ms == [] {
      assert have + ms == have;
      NothingDecodes(sch, m, k, base);
    } else {
      var n := DelimitedSize(TagOf(f), Size(f.kind.schema, ms[0]));
      var head, tail := e[..n], e[n..];
      assert e == head + tail;
      SubRoundTrip(sch, k, ms[0], head);
      ElementDecodes(sch, m, k, ms[0], head, base);
      var m' := SetVal(m, k, VRep(have + [ms[0]]));
      DecodeAppend(sch, m, head, tail, base, m');
      RepRoundTrip(sch, m', k, ms[1..], tail, base + n);
      assert have + [ms[0]] + ms[1..] == have + ms;
      SetTwice(m, k, VRep(have + [ms[0]]), VRep(have + ms));
    }
  }
}
