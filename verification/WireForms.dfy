/** The bytes of an encoding written out as a concatenation of parts with their keys, and the
    encodings of module Encoding characterised by them. */
module WireForms {
  import opened Sequences
  import opened Wire
  import opened Messages
  import opened Encoding
  import opened RoundTrip

  // ------------------------------------------------ parts

  /** Key, length, payload. */
  function LenPart(key: bytes, payload: bytes): bytes { key + EncVarint(|payload|) + payload }

  function IntPart(key: bytes, i: int): bytes
    requires -TWO_63 <= i < TWO_63
  {
    if i == 0 then [] else key + EncVarint(ToUint64(i))
  }

  function BoolPart(key: bytes, b: bool): bytes { if b then key + [1] else [] }

  function StrPart(key: bytes, s: bytes): bytes { if s == [] then [] else LenPart(key, s) }

  /** The entries of `m` in the order `ks`: each its own record, key as field 1, value as 2. */
  function Entries(key: bytes, m: map<bytes, bytes>, ks: seq<bytes>): bytes
    requires forall k | k in ks :: k in m
  {
    if ks == [] then []
    else LenPart(key, LenPart([0x0a], ks[0]) + LenPart([0x12], m[ks[0]])) + Entries(key, m, ks[1..])
  }

  /** `ks` lists every key of `m` once. */
  ghost predicate Lists(ks: seq<bytes>, m: map<bytes, bytes>) {
    && (forall k :: k in ks <==> k in m)
    && (forall i, j | 0 <= i < j < |ks| :: ks[i] != ks[j])
  }

  /** The entries of `m` in some order. */
  ghost predicate MapPart(key: bytes, m: map<bytes, bytes>, e: bytes) {
    exists ks :: Lists(ks, m) && e == Entries(key, m, ks)
  }

  /** One record for each payload, in order. */
  function Records(key: bytes, payloads: seq<bytes>): bytes {
    if payloads == [] then [] else LenPart(key, payloads[0]) + Records(key, payloads[1..])
  }

  function Concat(parts: seq<bytes>): bytes {
    if parts == [] then [] else parts[0] + Concat(parts[1..])
  }

  // ------------------------------------------------ maps

  lemma Tail(ks: seq<bytes>, m: map<bytes, bytes>)
    requires Lists(ks, m) && ks != []
    ensures Lists(ks[1..], Remove(m, ks[0]))
  {
    var r := Remove(m, ks[0]);
    forall k ensures k in ks[1..] <==> k in r {
      assert ks == [ks[0]] + ks[1..];
      if k in ks[1..] {
        var i :| 0 <= i < |ks[1..]| && ks[1..][i] == k;
        assert ks[i + 1] == k;
      }
    }
  }

  lemma Cons(k: bytes, ks: seq<bytes>, m: map<bytes, bytes>)
    requires k in m && Lists(ks, Remove(m, k))
    ensures Lists([k] + ks, m)
  {
    var all := [k] + ks;
    forall j ensures j in all <==> j in m {
      assert j in ks <==> j in Remove(m, k);
    }
    forall i, j | 0 <= i < j < |all| ensures all[i] != all[j] {
      if i == 0 {
        assert all[j] == ks[j - 1] && ks[j - 1] in ks;
      } else {
        assert all[i] == ks[i - 1] && all[j] == ks[j - 1];
      }
    }
  }

  lemma {:induction false} EntriesOfRest(key: bytes, m: map<bytes, bytes>, k: bytes, ks: seq<bytes>)
    requires forall j | j in ks :: j in m && j != k
    ensures forall j | j in ks :: j in Remove(m, k)
    ensures Entries(key, m, ks) == Entries(key, Remove(m, k), ks)
    decreases |ks|
  {
    if ks != [] {
      EntriesOfRest(key, m, k, ks[1..]);
    }
  }

  /** The first entry of an encoded map, and the rest. */
  lemma EntryFirst(tag: bytes, m: map<bytes, bytes>, k: bytes, e: bytes, rest: bytes)
    requires k in m && e == LenPart(tag, LenPart([0x0a], k) + LenPart([0x12], m[k])) + rest
    ensures EntryThen(tag, m, k, e) <==> EncodesMap(tag, Remove(m, k), rest)
  {
    hide EncVarint, EncodesMap;
    RemoveShrinks(m, k);
    var entry := Delimited(tag, EntryBody(k, m[k]));
    assert |entry| == EntrySize(tag, k, m[k]);
    assert e == entry + rest;
    assert e[|entry|..] == rest;
  }

  lemma {:induction false} MapExactlyLeft(tag: bytes, m: map<bytes, bytes>, e: bytes) returns (ks: seq<bytes>)
    requires EncodesMap(tag, m, e)
    ensures Lists(ks, m) && e == Entries(tag, m, ks)
    decreases |m|
  {
    ks := [];
    if m != map[] {
      var k :| k in m && EntryThen(tag, m, k, e);
      RemoveShrinks(m, k);
      var n := EntrySize(tag, k, m[k]);
      var entry := Delimited(tag, EntryBody(k, m[k]));
      assert |entry| == n by { hide EncVarint; }
      assert e == entry + e[n..];
      var rest := MapExactlyLeft(tag, Remove(m, k), e[n..]);
      Cons(k, rest, m);
      EntriesOfRest(tag, m, k, rest);
      ks := [k] + rest;
      assert ks[1..] == rest;
    }
  }

  lemma {:induction false} MapExactlyRight(tag: bytes, m: map<bytes, bytes>, ks: seq<bytes>)
    requires Lists(ks, m)
    ensures EncodesMap(tag, m, Entries(tag, m, ks))
    decreases |ks|
  {
    if ks == [] {
      assert m == map[] by { assert forall k | k in m :: k in ks; }
    } else {
      var k := ks[0];
      assert k in ks;
      Tail(ks, m);
      MapExactlyRight(tag, Remove(m, k), ks[1..]);
      EntriesOfRest(tag, m, k, ks[1..]);
      EntryFirst(tag, m, k, Entries(tag, m, ks), Entries(tag, m, ks[1..]));
      assert m != map[];
    }
  }

  /** The encodings of a map are its entries, each once, in any order whatever. */
  lemma MapExactly(tag: bytes, m: map<bytes, bytes>, e: bytes)
    ensures EncodesMap(tag, m, e) <==> MapPart(tag, m, e)
  {
    hide EncodesMap, Entries;
    if EncodesMap(tag, m, e) {
      var ks := MapExactlyLeft(tag, m, e);
    }
    if MapPart(tag, m, e) {
      ghost var ks :| Lists(ks, m) && e == Entries(tag, m, ks);
      MapExactlyRight(tag, m, ks);
    }
  }

  // ------------------------------------------------ sizes of parts

  lemma {:induction false} MapSize(tag: bytes, m: map<bytes, bytes>, e: bytes)
    requires EncodesMap(tag, m, e)
    ensures |e| == SizeMap(tag, m)
    decreases |m|
  {
    if m != map[] {
      var k :| k in m && EntryThen(tag, m, k, e);
      RemoveShrinks(m, k);
      SizeMapAnyKey(tag, m, k);
      assert |Delimited(tag, EntryBody(k, m[k]))| == EntrySize(tag, k, m[k]);
      MapSize(tag, Remove(m, k), e[EntrySize(tag, k, m[k])..]);
    }
  }

  lemma MsgSize(f: Field, x: Msg, e: bytes)
    requires (f.kind.Message? || f.kind.Repeated?) && Typed(f.kind.schema, x) && EncodesMsg(f, x, e)
    ensures |e| == DelimitedSize(TagOf(f), Size(f.kind.schema, x))
  {
    hide IsEncoding, Size, EncVarint, TagOf;
  }

  lemma {:induction false} RepSize(f: Field, ms: seq<Msg>, e: bytes)
    requires f.kind.Repeated? && (forall k | 0 <= k < |ms| :: Typed(f.kind.schema, ms[k])) && EncodesRep(f, ms, e)
    ensures |e| == SizeRep(f, ms)
    decreases |ms|
  {
    hide EncodesMsg, Size, TagOf, EncVarint;
    if ms != [] {
      RepSize(f, ms[1..], e[DelimitedSize(TagOf(f), Size(f.kind.schema, ms[0]))..]);
    }
  }

  lemma ValSize(f: Field, v: Val, e: bytes)
    requires TypedVal(f.kind, v) && EncodesVal(f, v, e)
    ensures |e| == SizeVal(f, v)
  {
    hide EncVarint, TagOf, EncodesMsg, EncodesRep, EncodesMap, SizeMap, SizeRep, Size, ToUint64;
    match f.kind {
      case StrMap => MapSize(TagOf(f), v.m, e);
      case Message(_) =>
        if v.msg.Some? {
          MsgSize(f, v.msg.value, e);
        }
      case Repeated(_) => RepSize(f, v.msgs, e);
      case _ =>
    }
  }

  // ------------------------------------------------ messages

  /** `parts` encode the fields from `k` on, one each. */
  ghost predicate IsParts(sch: Schema, m: Msg, k: nat, parts: seq<bytes>)
    requires Typed(sch, m) && k <= |sch.fields|
  {
    && |parts| == |sch.fields| - k
    && forall j | k <= j < |sch.fields| :: EncodesVal(sch.fields[j], m.vals[j], parts[j - k])
  }

  lemma {:induction false} PartsOf(sch: Schema, m: Msg, k: nat, e: bytes) returns (parts: seq<bytes>)
    requires Typed(sch, m) && k <= |sch.fields| && EncodesFrom(sch, m, k, e)
    ensures IsParts(sch, m, k, parts) && e == Concat(parts) + m.unknown
    decreases |sch.fields| - k
  {
    hide EncodesVal, SizeVal;
    if k == |sch.fields| {
      parts := [];
      assert [] + m.unknown == m.unknown;
    } else {
      var n := SizeVal(sch.fields[k], m.vals[k]);
      var rest := PartsOf(sch, m, k + 1, e[n..]);
      parts := [e[..n]] + rest;
      assert parts[1..] == rest;
      forall j | k <= j < |sch.fields| ensures EncodesVal(sch.fields[j], m.vals[j], parts[j - k]) {
        if j > k {
          assert parts[j - k] == rest[j - (k + 1)];
        }
      }
      Associative(e[..n], Concat(rest), m.unknown);
    }
  }

  lemma {:induction false} OfParts(sch: Schema, m: Msg, k: nat, parts: seq<bytes>)
    requires Typed(sch, m) && k <= |sch.fields| && IsParts(sch, m, k, parts)
    ensures EncodesFrom(sch, m, k, Concat(parts) + m.unknown)
    decreases |sch.fields| - k
  {
    hide EncodesVal, SizeVal;
    if k == |sch.fields| {
      assert [] + m.unknown == m.unknown;
    } else {
      assert EncodesVal(sch.fields[k], m.vals[k], parts[0]);
      ValSize(sch.fields[k], m.vals[k], parts[0]);
      forall j | k + 1 <= j < |sch.fields| ensures EncodesVal(sch.fields[j], m.vals[j], parts[1..][j - (k + 1)]) {
        assert parts[1..][j - (k + 1)] == parts[j - k];
      }
      OfParts(sch, m, k + 1, parts[1..]);
      var rest := Concat(parts[1..]) + m.unknown;
      Associative(parts[0], Concat(parts[1..]), m.unknown);
      assert (parts[0] + rest)[..|parts[0]|] == parts[0] && (parts[0] + rest)[|parts[0]|..] == rest;
    }
  }

  ghost predicate HasParts(sch: Schema, m: Msg, e: bytes)
    requires Typed(sch, m)
  {
    exists parts :: IsParts(sch, m, 0, parts) && e == Concat(parts) + m.unknown
  }

  /** An encoding is one part for each field, in order, and then the unknown bytes. */
  lemma PartsExactly(sch: Schema, m: Msg, e: bytes)
    requires Typed(sch, m)
    ensures IsEncoding(sch, m, e) <==> HasParts(sch, m, e)
  {
    hide EncodesFrom, IsParts, Concat;
    if IsEncoding(sch, m, e) {
      var parts := PartsOf(sch, m, 0, e);
    }
    if HasParts(sch, m, e) {
      ghost var parts :| IsParts(sch, m, 0, parts) && e == Concat(parts) + m.unknown;
      OfParts(sch, m, 0, parts);
    }
  }

  // ------------------------------------------------ submessages

  ghost predicate SubPart(sub: Schema, key: bytes, x: Msg, e: bytes)
    requires Typed(sub, x)
  {
    exists body :: IsEncoding(sub, x, body) && e == LenPart(key, body)
  }

  /** A submessage is framed by its key and the length of its own encoding. */
  lemma MsgExactly(f: Field, x: Msg, e: bytes)
    requires (f.kind.Message? || f.kind.Repeated?) && Typed(f.kind.schema, x)
    ensures EncodesMsg(f, x, e) <==> SubPart(f.kind.schema, TagOf(f), x, e)
  {
    hide IsEncoding, Size, EncVarint, TagOf;
    var sub := f.kind.schema;
    if EncodesMsg(f, x, e) {
      var body := e[|e| - Size(sub, x)..];
      assert IsEncoding(sub, x, body) && e == LenPart(TagOf(f), body);
    }
    forall body | IsEncoding(sub, x, body) && e == LenPart(TagOf(f), body) ensures EncodesMsg(f, x, e) {
      BodySize(sub, x, body);
      assert e[|e| - |body|..] == body;
    }
  }

  lemma BodySize(sub: Schema, x: Msg, body: bytes)
    requires Typed(sub, x) && IsEncoding(sub, x, body)
    ensures |body| == Size(sub, x)
  {
    EncodingSize(sub, x, 0, body);
  }

  ghost predicate AreEncodings(sub: Schema, ms: seq<Msg>, bodies: seq<bytes>)
    requires forall k | 0 <= k < |ms| :: Typed(sub, ms[k])
  {
    |bodies| == |ms| && forall k | 0 <= k < |ms| :: IsEncoding(sub, ms[k], bodies[k])
  }

  lemma {:induction false} RepLeft(f: Field, ms: seq<Msg>, e: bytes) returns (bodies: seq<bytes>)
    requires f.kind.Repeated? && (forall k | 0 <= k < |ms| :: Typed(f.kind.schema, ms[k])) && EncodesRep(f, ms, e)
    ensures AreEncodings(f.kind.schema, ms, bodies) && e == Records(TagOf(f), bodies)
    decreases |ms|
  {
    hide IsEncoding, EncodesMsg, Size, TagOf, EncVarint;
    bodies := [];
    if ms != [] {
      var n := DelimitedSize(TagOf(f), Size(f.kind.schema, ms[0]));
      var rest := RepLeft(f, ms[1..], e[n..]);
      MsgExactly(f, ms[0], e[..n]);
      var body :| IsEncoding(f.kind.schema, ms[0], body) && e[..n] == LenPart(TagOf(f), body);
      bodies := [body] + rest;
      assert bodies[1..] == rest;
      forall k | 0 <= k < |ms| ensures IsEncoding(f.kind.schema, ms[k], bodies[k]) {
        if k > 0 {
          assert bodies[k] == rest[k - 1] && ms[k] == ms[1..][k - 1];
        }
      }
      assert e == e[..n] + e[n..];
    }
  }

  lemma {:induction false} RepRight(f: Field, ms: seq<Msg>, bodies: seq<bytes>)
    requires f.kind.Repeated? && (forall k | 0 <= k < |ms| :: Typed(f.kind.schema, ms[k]))
    requires AreEncodings(f.kind.schema, ms, bodies)
    ensures EncodesRep(f, ms, Records(TagOf(f), bodies))
    decreases |ms|
  {
    hide IsEncoding, EncodesMsg, Size, TagOf, EncVarint;
    if ms != [] {
      var head, rest := LenPart(TagOf(f), bodies[0]), Records(TagOf(f), bodies[1..]);
      RepRight(f, ms[1..], bodies[1..]);
      MsgExactly(f, ms[0], head);
      assert SubPart(f.kind.schema, TagOf(f), ms[0], head);
      MsgSize(f, ms[0], head);
      assert (head + rest)[..|head|] == head && (head + rest)[|head|..] == rest;
    }
  }

  ghost predicate RepPart(sub: Schema, key: bytes, ms: seq<Msg>, e: bytes)
    requires forall k | 0 <= k < |ms| :: Typed(sub, ms[k])
  {
    exists bodies :: AreEncodings(sub, ms, bodies) && e == Records(key, bodies)
  }

  /** A repeated field is one record for each element, in order. */
  lemma RepExactly(f: Field, ms: seq<Msg>, e: bytes)
    requires f.kind.Repeated? && (forall k | 0 <= k < |ms| :: Typed(f.kind.schema, ms[k]))
    ensures EncodesRep(f, ms, e) <==> RepPart(f.kind.schema, TagOf(f), ms, e)
  {
    hide EncodesRep, AreEncodings, Records, TagOf;
    if EncodesRep(f, ms, e) {
      var bodies := RepLeft(f, ms, e);
    }
    if RepPart(f.kind.schema, TagOf(f), ms, e) {
      ghost var bodies :| AreEncodings(f.kind.schema, ms, bodies) && e == Records(TagOf(f), bodies);
      RepRight(f, ms, bodies);
    }
  }
}
