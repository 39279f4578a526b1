/** Whole fields as the encoding specification describes them, nested groups included, and
    what skipping and decoding do with them. */
module WholeFields {
  import opened Sequences
  import opened Wire
  import opened Messages
  import opened RoundTrip

  /** One field of any wire type. */
  datatype RawField =
    | RVarint(num: nat, v: nat)
    | RFixed64(num: nat, data: bytes)
    | RBytes(num: nat, data: bytes)
    | RGroup(num: nat, fields: seq<RawField>)
    | RFixed32(num: nat, data: bytes)

  /** Numbers are in range, payloads have the length of their wire type. */
  predicate WellFormed(f: RawField)
    decreases f
  {
    1 <= f.num < 0x2000_0000 &&
    match f
    case RVarint(_, v) => v < TWO_64
    case RFixed64(_, data) => |data| == 8
    case RBytes(_, data) => |data| < TWO_63
    case RGroup(_, fields) => forall i | 0 <= i < |fields| :: WellFormed(fields[i])
    case RFixed32(_, data) => |data| == 4
  }

  function RawWireType(f: RawField): (t: nat)
    ensures t < 8
  {
    match f
    case RVarint(_, _) => 0
    case RFixed64(_, _) => 1
    case RBytes(_, _) => 2
    case RGroup(_, _) => 3
    case RFixed32(_, _) => 5
  }

  function Raw(f: RawField): (s: bytes)
    ensures |s| >= 1
    decreases f, 1
  {
    Tag(f.num, RawWireType(f)) +
    match f
    case RVarint(_, v) => EncVarint(v)
    case RFixed64(_, data) => data
    case RBytes(_, data) => EncVarint(|data|) + data
    case RGroup(num, fields) => RawAll(fields) + Tag(num, 4)
    case RFixed32(_, data) => data
  }

  function RawAll(fs: seq<RawField>): bytes
    decreases fs, 0
  {
    if fs == [] then [] else Raw(fs[0]) + RawAll(fs[1..])
  }

  /** The key at index `i` reads back, and its payload follows. */
  lemma KeyAt(s: bytes, i: nat, num: nat, wt: nat, rest: bytes)
    requires wt < 8 && num < 0x2000_0000 && i <= |s| && s[i..] == Tag(num, wt) + rest
    ensures var n := |Tag(num, wt)|;
      Varint(s[i..]) == Ok((num * 8 + wt, n)) && WireType(num * 8 + wt) == wt && i + n <= |s| && s[i + n..] == rest
  {
    hide Varint, EncVarint;
    TagRoundTrip(num, wt, rest);
    var n := |Tag(num, wt)|;
    assert s[i + n..] == s[i..][n..];
  }

  /** One turn of the skipping loop, for a key with wire type `wt` whose payload ends at `j`. */
  lemma SkipTurn(s: bytes, i: nat, depth: nat, num: nat, wt: nat, rest: bytes, j: nat)
    requires wt < 8 && num < 0x2000_0000 && i <= |s| && s[i..] == Tag(num, wt) + rest
    requires wt == 4 ==> depth > 0
    requires i + |Tag(num, wt)| <= |s| && PayloadEnd(s, i + |Tag(num, wt)|, wt) == Ok(j)
    ensures var d := if wt == 3 then depth + 1 else if wt == 4 then depth - 1 else depth;
      SkipFrom(s, i, depth) == if d == 0 then Ok(j) else SkipFrom(s, j, d)
  {
    hide Varint, Tag, WireType, PayloadEnd;
    KeyAt(s, i, num, wt, rest);
  }

  /** Skipping a field inside `depth` open groups moves past exactly its bytes; at depth zero
      it stops there. */
  lemma {:induction false} SkipOne(f: RawField, s: bytes, i: nat, depth: nat, rest: bytes)
    requires WellFormed(f) && i <= |s| < TWO_63 && s[i..] == Raw(f) + rest
    ensures i + |Raw(f)| <= |s| && s[i + |Raw(f)|..] == rest
    ensures SkipFrom(s, i, depth) == if depth == 0 then Ok(i + |Raw(f)|) else SkipFrom(s, i + |Raw(f)|, depth)
    decreases f, 1
  {
    hide Varint, EncVarint, Tag, WireType, SkipFrom, PayloadEnd;
    var wt := RawWireType(f);
    var tag := Tag(f.num, wt);
    var n := |tag|;
    var body := Raw(f)[n..];
    assert Raw(f) == tag + body && Raw(f) + rest == tag + (body + rest);
    KeyAt(s, i, f.num, wt, body + rest);
    var j := i + n;
    assert s[j + |body|..] == s[j..][|body|..] == rest;
    if f.RGroup? {
      SkipGroup(f, s, i, depth, rest);
    } else {
      PayloadOf(f, s, j, body, rest);
      SkipTurn(s, i, depth, f.num, wt, body + rest, j + |body|);
    }
  }

  lemma PayloadOf(f: RawField, s: bytes, j: nat, body: bytes, rest: bytes)
    requires WellFormed(f) && !f.RGroup? && j <= |s| < TWO_63 && s[j..] == body + rest
    requires |Tag(f.num, RawWireType(f))| <= |Raw(f)| && body == Raw(f)[|Tag(f.num, RawWireType(f))|..]
    ensures PayloadEnd(s, j, RawWireType(f)) == Ok(j + |body|)
  {
    hide EncVarint, ReadRaw;
    match f {
      case RVarint(_, v) =>
        assert body == EncVarint(v);
        VarintRoundTrip(v, rest);
      case RBytes(_, data) =>
        assert body == EncVarint(|data|) + data;
        assert s[j..] == EncVarint(|data|) + (data + rest);
        VarintRoundTrip(|data|, data + rest);
      case _ =>
    }
  }

  lemma {:induction false} SkipGroup(f: RawField, s: bytes, i: nat, depth: nat, rest: bytes)
    requires f.RGroup? && WellFormed(f) && i <= |s| < TWO_63 && s[i..] == Raw(f) + rest
    ensures SkipFrom(s, i, depth) == if depth == 0 then Ok(i + |Raw(f)|) else SkipFrom(s, i + |Raw(f)|, depth)
    decreases f, 0
  {
    hide Varint, EncVarint, Tag, WireType, SkipFrom;
    var open, inner, close := Tag(f.num, 3), RawAll(f.fields), Tag(f.num, 4);
    Associative(open, inner + close, rest);
    Associative(inner, close, rest);
    KeyAt(s, i, f.num, 3, inner + (close + rest));
    var j := i + |open|;
    SkipTurn(s, i, depth, f.num, 3, inner + (close + rest), j);
    SkipAll(f.fields, s, j, depth + 1, close + rest);
    var k := j + |inner|;
    KeyAt(s, k, f.num, 4, rest);
    SkipTurn(s, k, depth + 1, f.num, 4, rest, k + |close|);
  }

  /** Skipping inside a group passes over all its fields. */
  lemma {:induction false} SkipAll(fs: seq<RawField>, s: bytes, i: nat, depth: nat, rest: bytes)
    requires (forall k | 0 <= k < |fs| :: WellFormed(fs[k])) && depth >= 1
    requires i <= |s| < TWO_63 && s[i..] == RawAll(fs) + rest
    ensures i + |RawAll(fs)| <= |s| && s[i + |RawAll(fs)|..] == rest
    ensures SkipFrom(s, i, depth) == SkipFrom(s, i + |RawAll(fs)|, depth)
    decreases fs, 0
  {
    hide SkipFrom, Raw;
    if fs == [] {
      assert RawAll(fs) + rest == rest;
    } else {
      var first, others := Raw(fs[0]), RawAll(fs[1..]);
      assert first + others + rest == first + (others + rest);
      SkipOne(fs[0], s, i, depth, others + rest);
      SkipAll(fs[1..], s, i + |first|, depth, rest);
    }
  }

  /** Skip returns the length of the whole field in front, whatever follows it. */
  lemma SkipWholeField(f: RawField, rest: bytes)
    requires WellFormed(f) && |Raw(f)| + |rest| < TWO_63
    ensures Skip(Raw(f) + rest) == Ok(|Raw(f)|)
  {
    hide Raw, SkipFrom;
    var s := Raw(f) + rest;
    assert s[0..] == s;
    SkipOne(f, s, 0, 0, rest);
  }

  /** Whole fields whose numbers the schema does not have are what a message keeps as unknown. */
  lemma {:induction false} ForeignFieldsAreUnknown(sch: Schema, fs: seq<RawField>)
    requires |RawAll(fs)| < TWO_63
    requires forall k | 0 <= k < |fs| :: WellFormed(fs[k]) && Foreign(sch, fs[k].num)
    ensures UnknownOnly(sch, RawAll(fs))
    decreases |fs|
  {
    hide Raw, Varint, Skip, FieldNum, WireType;
    if fs != [] {
      var f, rest := fs[0], RawAll(fs[1..]);
      var u := Raw(f) + rest;
      SkipWholeField(f, rest);
      ForeignStart(sch, f, rest);
      assert u[|Raw(f)|..] == rest;
      ForeignFieldsAreUnknown(sch, fs[1..]);
    }
  }

  predicate Foreign(sch: Schema, num: nat) {
    forall k | 0 <= k < |sch.fields| :: sch.fields[k].num != num
  }

  lemma ForeignStart(sch: Schema, f: RawField, rest: bytes)
    requires WellFormed(f) && Foreign(sch, f.num) && Skip(Raw(f) + rest) == Ok(|Raw(f)|)
    ensures StartsUnknown(sch, Raw(f) + rest)
  {
    hide Varint, EncVarint, Skip, WireType, FieldNum;
    var tag := Tag(f.num, RawWireType(f));
    var body := Raw(f)[|tag|..];
    assert Raw(f) + rest == tag + (body + rest);
    TagRoundTrip(f.num, RawWireType(f), body + rest);
  }
}
