/** The encoder as the generated code runs it: an index that counts down while the buffer is
    filled from the end. The contents of the buffer afterwards are given by `Put`. */
module Marshal {
  import opened Wire
  import opened Messages
  import opened Encoding

  /** `s` with `x` written over the bytes at `lo`. */
  ghost function Put(s: bytes, lo: nat, x: bytes): (r: bytes)
    requires lo + |x| <= |s|
    ensures |r| == |s|
  {
    s[..lo] + x + s[lo + |x|..]
  }

  /** Writing `y` just below `x` is writing `y + x` at once. */
  lemma PutBelow(s: bytes, lo: nat, y: bytes, x: bytes)
    requires lo + |y| + |x| <= |s|
    ensures Put(Put(s, lo + |y|, x), lo, y) == Put(s, lo, y + x)
  {
    var t := Put(s, lo + |y|, x);
    assert t[..lo] == s[..lo];
    assert t[lo + |y|..] == x + s[lo + |y| + |x|..];
    assert s[..lo] + y + (x + s[lo + |y| + |x|..]) == s[..lo] + (y + x) + s[lo + |y| + |x|..];
  }

  /** `now` is `was` with `x` written over the bytes at `lo`. */
  ghost predicate Filled(now: bytes, was: bytes, lo: nat, x: bytes) {
    lo + |x| <= |was| && now == Put(was, lo, x)
  }

  lemma FilledBelow(now: bytes, was: bytes, lo: nat, x: bytes, next: bytes, y: bytes)
    requires Filled(now, was, lo + |y|, x) && next == Put(now, lo, y)
    ensures Filled(next, was, lo, y + x)
  {
    PutBelow(was, lo, y, x);
  }

  /** `copy(dAtA[i:], x)` after `i -= len(x)`. */
  method WriteBytes(a: array<byte>, end: nat, x: bytes) returns (i: nat)
    requires |x| <= end <= a.Length
    modifies a
    ensures i == end - |x| && a[..] == Put(old(a[..]), i, x)
  {
    i := end - |x|;
    forall k | 0 <= k < |x| {
      a[i + k] := x[k];
    }
    PutByIndex(a[..], old(a[..]), i, x);
  }

  /** Writes a varint that ends at `end`, low group first, and returns where it starts. */
  method EncodeVarint(a: array<byte>, end: nat, v0: nat) returns (base: nat)
    requires |EncVarint(v0)| <= end <= a.Length
    modifies a
    ensures base == end - |EncVarint(v0)| && a[..] == Put(old(a[..]), base, EncVarint(v0))
  {
    hide EncVarint, SizeOfVarint;
    SizeOfVarintExact(v0);
    var offset, v := end - SizeOfVarint(v0), v0;
    base := offset;
    ghost var was, enc := a[..], EncVarint(v0);
    while v >= 128
      invariant base <= offset < end && enc[offset - base..] == EncVarint(v)
      invariant forall k | 0 <= k < a.Length :: a[k] == if base <= k < offset then enc[k - base] else was[k]
      decreases v
    {
      Groups(v);
      assert enc[offset - base] == EncVarint(v)[0];
      assert enc[offset + 1 - base..] == EncVarint(v)[1..];
      a[offset] := v % 128 + 128;
      v := v / 128;
      offset := offset + 1;
    }
    Groups(v);
    assert enc[offset - base] == EncVarint(v)[0] && offset + 1 == end;
    a[offset] := v;
    PutByIndex(a[..], was, base, enc);
  }

  lemma PutByIndex(now: bytes, was: bytes, lo: nat, x: bytes)
    requires |now| == |was| && lo + |x| <= |was|
    requires forall k | 0 <= k < |now| :: now[k] == if lo <= k < lo + |x| then x[k - lo] else was[k]
    ensures now == Put(was, lo, x)
  {}

  lemma Groups(v: nat)
    ensures v < 128 ==> EncVarint(v) == [v]
    ensures v >= 128 ==> EncVarint(v)[0] == v % 128 + 128 && EncVarint(v)[1..] == EncVarint(v / 128)
  {}

  /** Length and key below an already written payload. */
  method WriteHead(a: array<byte>, end: nat, tag: bytes, len: nat) returns (i: nat)
    requires |tag| + |EncVarint(len)| <= end <= a.Length
    modifies a
    ensures i == end - |tag| - |EncVarint(len)| && a[..] == Put(old(a[..]), i, tag + EncVarint(len))
  {
    hide EncVarint;
    i := EncodeVarint(a, end, len);
    i := WriteBytes(a, i, tag);
    PutBelow(old(a[..]), i, tag, EncVarint(len));
  }

  method WriteDelimited(a: array<byte>, end: nat, tag: bytes, x: bytes) returns (i: nat)
    requires DelimitedSize(tag, |x|) <= end <= a.Length
    modifies a
    ensures |Delimited(tag, x)| == DelimitedSize(tag, |x|)
    ensures i == end - DelimitedSize(tag, |x|) && a[..] == Put(old(a[..]), i, Delimited(tag, x))
  {
    hide EncVarint;
    i := WriteBytes(a, end, x);
    i := WriteHead(a, i, tag, |x|);
    PutBelow(old(a[..]), i, tag + EncVarint(|x|), x);
  }

  /** One map entry: value, key, then the length of both and the key of the map field. */
  method WriteEntry(a: array<byte>, end: nat, tag: bytes, k: bytes, v: bytes) returns (i: nat)
    requires EntrySize(tag, k, v) <= end <= a.Length
    modifies a
    ensures |Delimited(tag, EntryBody(k, v))| == EntrySize(tag, k, v)
    ensures i == end - EntrySize(tag, k, v) && a[..] == Put(old(a[..]), i, Delimited(tag, EntryBody(k, v)))
  {
    EntryLengths(tag, k, v);
    hide Delimited, DelimitedSize, EntryBody, EntrySize, EncVarint;
    i := WriteEntryBody(a, end, k, v);
    i := WriteHead(a, i, tag, end - i);
    PutBelow(old(a[..]), i, tag + EncVarint(|EntryBody(k, v)|), EntryBody(k, v));
  }

  method WriteEntryBody(a: array<byte>, end: nat, k: bytes, v: bytes) returns (i: nat)
    requires |EntryBody(k, v)| <= end <= a.Length
    modifies a
    ensures i == end - |EntryBody(k, v)| && a[..] == Put(old(a[..]), i, EntryBody(k, v))
  {
    EntryLengths([], k, v);
    hide Delimited, DelimitedSize, EntryBody, EntrySize, EncVarint;
    i := WriteDelimited(a, end, VALUE_TAG, v);
    i := WriteDelimited(a, i, KEY_TAG, k);
    PutBelow(old(a[..]), i, Delimited(KEY_TAG, k), Delimited(VALUE_TAG, v));
  }

  lemma EntryLengths(tag: bytes, k: bytes, v: bytes)
    ensures var body := EntryBody(k, v);
      && body == Delimited(KEY_TAG, k) + Delimited(VALUE_TAG, v)
      && |body| == DelimitedSize(KEY_TAG, |k|) + DelimitedSize(VALUE_TAG, |v|)
      && EntrySize(tag, k, v) == |tag| + |EncVarint(|body|)| + |body|
      && Delimited(tag, body) == tag + EncVarint(|body|) + body
  {}

  /** The map in whatever order the iteration yields. */
  method WriteMap(a: array<byte>, end: nat, tag: bytes, m: map<bytes, bytes>) returns (i: nat, ghost e: bytes)
    requires SizeMap(tag, m) <= end <= a.Length
    modifies a
    ensures EncodesMap(tag, m, e) && |e| == SizeMap(tag, m)
    ensures i == end - |e| && Filled(a[..], old(a[..]), i, e)
  {
    hide Delimited, EntryBody, EntrySize, Remove, SizeMap, EncodesMap, MapSplit, Filled, Put;
    var rest := m;
    i := end;
    e := [];
    ghost var done: map<bytes, bytes>, was := map[], a[..];
    NoEntries(tag, m);
    FilledNothing(was, end);
    while rest != map[]
      invariant MapSplit(tag, m, done, rest)
      invariant EncodesMap(tag, done, e) && |e| == SizeMap(tag, done)
      invariant i == end - |e| && Filled(a[..], was, i, e)
      decreases |rest|
    {
      var k :| k in rest;
      MoveEntry(tag, m, done, rest, k);
      ghost var now, entry := a[..], Delimited(tag, EntryBody(k, rest[k]));
      i := WriteEntry(a, i, tag, k, rest[k]);
      FilledBelow(now, was, i, e, a[..], entry);
      AddEntry(tag, done, k, rest[k], e);
      e := entry + e;
      RemoveShrinks(rest, k);
      done, rest := done[k := rest[k]], Remove(rest, k);
    }
    AllMoved(tag, m, done);
  }

  /** `done` and `rest` are disjoint, make up `m`, and their sizes add up. */
  ghost predicate MapSplit(tag: bytes, m: map<bytes, bytes>, done: map<bytes, bytes>, rest: map<bytes, bytes>) {
    && done.Keys !! rest.Keys && m == done + rest
    && SizeMap(tag, done) + SizeMap(tag, rest) == SizeMap(tag, m)
  }

  lemma NoEntries(tag: bytes, m: map<bytes, bytes>)
    ensures SizeMap(tag, map[]) == 0 && EncodesMap(tag, map[], []) && MapSplit(tag, m, map[], m)
  {
    assert map[] + m == m;
  }

  lemma AllMoved(tag: bytes, m: map<bytes, bytes>, done: map<bytes, bytes>)
    requires MapSplit(tag, m, done, map[])
    ensures done == m
  {
    assert done + map[] == done;
  }

  lemma FilledNothing(s: bytes, lo: nat)
    requires lo <= |s|
    ensures Filled(s, s, lo, [])
  {}

  lemma MoveEntry(tag: bytes, m: map<bytes, bytes>, done: map<bytes, bytes>, rest: map<bytes, bytes>, k: bytes)
    requires MapSplit(tag, m, done, rest) && k in rest
    ensures k !in done
    ensures SizeMap(tag, done) + EntrySize(tag, k, rest[k]) <= SizeMap(tag, m)
    ensures MapSplit(tag, m, done[k := rest[k]], Remove(rest, k))
  {
    hide EntrySize, SizeMap;
    SizeMapAnyKey(tag, rest, k);
    var done' := done[k := rest[k]];
    SizeMapAnyKey(tag, done', k);
    assert Remove(done', k) == done;
    assert done' + Remove(rest, k) == done + rest;
  }

  lemma AddEntry(tag: bytes, done: map<bytes, bytes>, k: bytes, v: bytes, e: bytes)
    requires k !in done && EncodesMap(tag, done, e)
    requires |Delimited(tag, EntryBody(k, v))| == EntrySize(tag, k, v)
    ensures EncodesMap(tag, done[k := v], Delimited(tag, EntryBody(k, v)) + e)
    ensures SizeMap(tag, done[k := v]) == EntrySize(tag, k, v) + SizeMap(tag, done)
  {
    hide Delimited, EntryBody, EntrySize, SizeMap;
    var done' := done[k := v];
    assert Remove(done', k) == done;
    SizeMapAnyKey(tag, done', k);
    var entry := Delimited(tag, EntryBody(k, v));
    assert (entry + e)[|entry|..] == e;
    assert EntryThen(tag, done', k, entry + e);
  }

  // ---------------------------------------------------------------- values and messages

  /** Field `f` with value `v`, or nothing when the value is zero. */
  method WriteVal(f: Field, v: Val, a: array<byte>, end: nat) returns (i: nat, ghost e: bytes)
    requires TypedVal(f.kind, v) && SizeVal(f, v) <= end <= a.Length
    modifies a
    ensures EncodesVal(f, v, e) && |e| == SizeVal(f, v)
    ensures i == end - |e| && Filled(a[..], old(a[..]), i, e)
    decreases f, 1
  {
    hide EncVarint, TagOf, Put, EncodesMap, SizeMap, Size, EncodesMsg, EncodesRep, SizeRep;
    var tag := TagOf(f);
    i, e := end, [];
    FilledNothing(a[..], end);
    if f.kind.Int32? || f.kind.Int64? {
      if v.i != 0 {
        i := WriteHead(a, end, tag, ToUint64(v.i));
        e := tag + EncVarint(ToUint64(v.i));
      }
    } else if f.kind.Bool? {
      if v.b {
        i := WriteBytes(a, end, [1]);
        i := WriteBytes(a, i, tag);
        PutBelow(old(a[..]), i, tag, [1]);
        e := tag + [1];
      }
    } else if f.kind.Str? {
      if v.s != [] {
        i := WriteDelimited(a, end, tag, v.s);
        e := Delimited(tag, v.s);
      }
    } else if f.kind.StrMap? {
      i, e := WriteMap(a, end, tag, v.m);
    } else if f.kind.Message? {
      if v.msg.Some? {
        i, e := WriteMsg(f, v.msg.value, a, end);
      }
    } else {
      i, e := WriteRep(f, v.msgs, a, end);
    }
  }

  /** A submessage: its bytes, then its length and key below them. */
  method WriteMsg(f: Field, x: Msg, a: array<byte>, end: nat) returns (i: nat, ghost e: bytes)
    requires (f.kind.Message? || f.kind.Repeated?) && Typed(f.kind.schema, x)
    requires DelimitedSize(TagOf(f), Size(f.kind.schema, x)) <= end <= a.Length
    modifies a
    ensures EncodesMsg(f, x, e) && |e| == DelimitedSize(TagOf(f), Size(f.kind.schema, x))
    ensures i == end - |e| && Filled(a[..], old(a[..]), i, e)
    decreases f, 0, 0
  {
    hide EncVarint, TagOf, Put, Size, IsEncoding;
    var size, body := MarshalToSizedBufferVT(f.kind.schema, x, a, end);
    ghost var now, head := a[..], TagOf(f) + EncVarint(size);
    i := WriteHead(a, end - size, TagOf(f), size);
    FilledBelow(now, old(a[..]), i, body, a[..], head);
    e := head + body;
    assert e[|e| - size..] == body;
  }

  /** Elements last to first. */
  method WriteRep(f: Field, ms: seq<Msg>, a: array<byte>, end: nat) returns (i: nat, ghost e: bytes)
    requires f.kind.Repeated? && forall k | 0 <= k < |ms| :: Typed(f.kind.schema, ms[k])
    requires SizeRep(f, ms) <= end <= a.Length
    modifies a
    ensures EncodesRep(f, ms, e) && |e| == SizeRep(f, ms)
    ensures i == end - |e| && Filled(a[..], old(a[..]), i, e)
    decreases f, 0, 1
  {
    hide Filled, Put, EncodesMsg, EncodesRep, SizeRep, Size, DelimitedSize, TagOf;
    i, e := end, [];
    ghost var was := a[..];
    FilledNothing(was, end);
    var k := |ms|;
    RepParts(f, ms, |ms|);
    while k > 0
      invariant 0 <= k <= |ms| && EncodesRep(f, ms[k..], e) && |e| == SizeRep(f, ms[k..])
      invariant i == end - |e| && Filled(a[..], was, i, e)
    {
      k := k - 1;
      RepParts(f, ms, k);
      ghost var now, tail := a[..], e;
      ghost var head;
      i, head := WriteMsg(f, ms[k], a, i);
      FilledAgain(now, was, i, tail, a[..], head);
      PrependElement(f, ms, k, head, tail);
      e := head + tail;
    }
    assert ms[0..] == ms;
  }

  lemma FilledAgain(now: bytes, was: bytes, lo: nat, x: bytes, next: bytes, y: bytes)
    requires Filled(now, was, lo + |y|, x) && Filled(next, now, lo, y)
    ensures Filled(next, was, lo, y + x)
  {
    FilledBelow(now, was, lo, x, next, y);
  }

  lemma {:induction false} RepParts(f: Field, ms: seq<Msg>, k: nat)
    requires f.kind.Repeated? && k <= |ms| && forall j | 0 <= j < |ms| :: Typed(f.kind.schema, ms[j])
    ensures SizeRep(f, ms[k..]) <= SizeRep(f, ms)
    ensures k < |ms| ==>
      SizeRep(f, ms[k..]) == DelimitedSize(TagOf(f), Size(f.kind.schema, ms[k])) + SizeRep(f, ms[k + 1..])
    ensures k == |ms| ==> ms[k..] == [] && SizeRep(f, ms[k..]) == 0 && EncodesRep(f, ms[k..], [])
    decreases k
  {
    hide DelimitedSize, TagOf, Size;
    if k < |ms| {
      assert ms[k..][1..] == ms[k + 1..];
    }
    if k > 0 {
      RepParts(f, ms, k - 1);
      assert ms[k - 1..][1..] == ms[k..];
    } else {
      assert ms[0..] == ms;
    }
  }

  lemma PrependElement(f: Field, ms: seq<Msg>, k: nat, head: bytes, tail: bytes)
    requires f.kind.Repeated? && k < |ms| && forall j | 0 <= j < |ms| :: Typed(f.kind.schema, ms[j])
    requires EncodesMsg(f, ms[k], head) && |head| == DelimitedSize(TagOf(f), Size(f.kind.schema, ms[k]))
    requires EncodesRep(f, ms[k + 1..], tail)
    ensures EncodesRep(f, ms[k..], head + tail)
  {
    hide EncodesMsg, DelimitedSize, TagOf, Size;
    assert ms[k..][1..] == ms[k + 1..];
    assert (head + tail)[..|head|] == head && (head + tail)[|head|..] == tail;
  }

  /** Fills `a[end - n..end]` with an encoding of `m` and touches nothing else. Any buffer
      with room for Size(sch, m) bytes below `end` will do. */
  method MarshalToSizedBufferVT(sch: Schema, m: Msg, a: array<byte>, end: nat) returns (n: nat, ghost e: bytes)
    requires Typed(sch, m) && Size(sch, m) <= end <= a.Length
    modifies a
    ensures IsEncoding(sch, m, e) && n == |e| == Size(sch, m)
    ensures Filled(a[..], old(a[..]), end - n, e)
    decreases sch
  {
    hide Filled, Put, EncodesVal, SizeVal, EncodesFrom, SizeFrom;
    var k := |sch.fields|;
    FieldParts(sch, m, k);
    var i := WriteBytes(a, end, m.unknown);
    e := m.unknown;
    ghost var was := old(a[..]);
    assert Filled(a[..], was, i, e) by { FilledOnce(a[..], was, i, e); }
    while k > 0
      invariant 0 <= k <= |sch.fields| && EncodesFrom(sch, m, k, e) && |e| == SizeFrom(sch, m, k)
      invariant i == end - |e| && Filled(a[..], was, i, e)
    {
      k := k - 1;
      FieldParts(sch, m, k);
      ghost var now, tail := a[..], e;
      ghost var head;
      i, head := WriteVal(sch.fields[k], m.vals[k], a, i);
      FilledAgain(now, was, i, tail, a[..], head);
      PrependField(sch, m, k, head, tail);
      e := head + tail;
    }
    n := end - i;
  }

  lemma FilledOnce(now: bytes, was: bytes, lo: nat, x: bytes)
    requires lo + |x| <= |was| && now == Put(was, lo, x)
    ensures Filled(now, was, lo, x)
  {}

  lemma {:induction false} FieldParts(sch: Schema, m: Msg, k: nat)
    requires Typed(sch, m) && k <= |sch.fields|
    ensures SizeFrom(sch, m, k) <= Size(sch, m)
    ensures k < |sch.fields| ==> SizeFrom(sch, m, k) == SizeVal(sch.fields[k], m.vals[k]) + SizeFrom(sch, m, k + 1)
    ensures k == |sch.fields| ==> SizeFrom(sch, m, k) == |m.unknown| && EncodesFrom(sch, m, k, m.unknown)
    decreases k
  {
    hide SizeVal;
    if k > 0 {
      FieldParts(sch, m, k - 1);
    }
  }

  lemma PrependField(sch: Schema, m: Msg, k: nat, head: bytes, tail: bytes)
    requires Typed(sch, m) && k < |sch.fields|
    requires EncodesVal(sch.fields[k], m.vals[k], head) && |head| == SizeVal(sch.fields[k], m.vals[k])
    requires EncodesFrom(sch, m, k + 1, tail)
    ensures EncodesFrom(sch, m, k, head + tail)
  {
    hide EncodesVal, SizeVal;
    assert (head + tail)[..|head|] == head && (head + tail)[|head|..] == tail;
  }

  // ---------------------------------------------------------------- precomputed size

  /** Adds up the sizes of the fields, in number order, and of the unknown bytes. */
  method SizeVT(sch: Schema, m: Msg) returns (n: nat)
    requires Typed(sch, m)
    ensures n == Size(sch, m)
    decreases sch
  {
    hide SizeVal;
    n := 0;
    for k := 0 to |sch.fields|
      invariant n + SizeFrom(sch, m, k) == Size(sch, m)
    {
      var size := SizeOfVal(sch.fields[k], m.vals[k]);
      n := n + size;
    }
    n := n + |m.unknown|;
  }

  method SizeOfVal(f: Field, v: Val) returns (n: nat)
    requires TypedVal(f.kind, v)
    ensures n == SizeVal(f, v)
    decreases f
  {
    hide EncVarint, SizeOfVarint, TagOf, SizeMap, Size, SizeRep;
    var tag := |TagOf(f)|;
    n := 0;
    if f.kind.Int32? || f.kind.Int64? {
      if v.i != 0 {
        SizeOfVarintExact(ToUint64(v.i));
        n := tag + SizeOfVarint(ToUint64(v.i));
      }
    } else if f.kind.Bool? {
      if v.b {
        n := tag + 1;
      }
    } else if f.kind.Str? {
      var l := |v.s|;
      if l > 0 {
        SizeOfVarintExact(l);
        n := tag + l + SizeOfVarint(l);
      }
    } else if f.kind.StrMap? {
      n := SizeOfMap(TagOf(f), v.m);
    } else if f.kind.Message? {
      if v.msg.Some? {
        var l := SizeVT(f.kind.schema, v.msg.value);
        SizeOfVarintExact(l);
        n := tag + l + SizeOfVarint(l);
      }
    } else {
      n := SizeOfRep(f, v.msgs);
    }
  }

  method SizeOfRep(f: Field, ms: seq<Msg>) returns (n: nat)
    requires f.kind.Repeated? && forall k | 0 <= k < |ms| :: Typed(f.kind.schema, ms[k])
    ensures n == SizeRep(f, ms)
    decreases f, 0
  {
    hide EncVarint, SizeOfVarint, TagOf, Size, SizeRep;
    n := 0;
    assert ms[0..] == ms;
    for k := 0 to |ms|
      invariant n + SizeRep(f, ms[k..]) == SizeRep(f, ms)
    {
      RepParts(f, ms, k);
      var l := SizeVT(f.kind.schema, ms[k]);
      SizeOfVarintExact(l);
      n := n + |TagOf(f)| + l + SizeOfVarint(l);
    }
    RepParts(f, ms, |ms|);
  }

  /** The term that the size of a map has for one entry. */
  lemma EntryTerm(tag: bytes, k: bytes, v: bytes, n: nat)
    requires n == 1 + |k| + SizeOfVarint(|k|) + 1 + |v| + SizeOfVarint(|v|)
    ensures n + |tag| + SizeOfVarint(n) == EntrySize(tag, k, v)
  {
    hide EncVarint, SizeOfVarint;
    SizeOfVarintExact(|k|);
    SizeOfVarintExact(|v|);
    SizeOfVarintExact(n);
    EntryLengths(tag, k, v);
  }

  /** Visits the map in some order of its own; the sum does not depend on it. */
  method SizeOfMap(tag: bytes, m: map<bytes, bytes>) returns (n: nat)
    ensures n == SizeMap(tag, m)
  {
    hide EncVarint, SizeOfVarint, SizeMap, EntrySize, EntryBody;
    n := 0;
    var rest := m;
    while rest != map[]
      invariant n + SizeMap(tag, rest) == SizeMap(tag, m)
      decreases |rest|
    {
      var k :| k in rest;
      var v := rest[k];
      SizeMapAnyKey(tag, rest, k);
      RemoveShrinks(rest, k);
      var mapEntrySize := 1 + |k| + SizeOfVarint(|k|) + 1 + |v| + SizeOfVarint(|v|);
      EntryTerm(tag, k, v, mapEntrySize);
      n := n + mapEntrySize + |tag| + SizeOfVarint(mapEntrySize);
      rest := Remove(rest, k);
    }
    NoEntries(tag, m);
  }

  /** A fresh buffer of exactly the precomputed size, filled completely. */
  method MarshalVT(sch: Schema, m: Msg) returns (a: array<byte>)
    requires Typed(sch, m)
    ensures fresh(a) && a.Length == Size(sch, m) && IsEncoding(sch, m, a[..])
  {
    hide IsEncoding, Size;
    var size := SizeVT(sch, m);
    a := new byte[size];
    ghost var was := a[..];
    var n, e := MarshalToSizedBufferVT(sch, m, a, size);
    FilledWhole(a[..], was, e);
  }

  lemma FilledWhole(now: bytes, was: bytes, x: bytes)
    requires Filled(now, was, 0, x) && |x| == |was|
    ensures now == x
  {}

  /** Filled in terms of slices: the bytes written, and the bytes before and after them. */
  lemma FilledFrame(now: bytes, was: bytes, lo: nat, x: bytes)
    ensures Filled(now, was, lo, x) <==>
      && lo + |x| <= |was| == |now|
      && now[..lo] == was[..lo] && now[lo..lo + |x|] == x && now[lo + |x|..] == was[lo + |x|..]
  {
    if lo + |x| <= |was| == |now| {
      assert now == now[..lo] + now[lo..lo + |x|] + now[lo + |x|..];
    }
  }
}
