/** What the encoder writes: exact sizes, and the set of byte strings it may produce.
    Go visits a map in an unspecified order, so encodings form a relation, not a function. */
module Encoding {
  import opened Wire
  import opened Messages

  /** A length-delimited record: key, length, payload. */
  function Delimited(tag: bytes, payload: bytes): bytes {
    tag + EncVarint(|payload|) + payload
  }

  const KEY_TAG: bytes := [0x0a]
  const VALUE_TAG: bytes := [0x12]

  /** The payload of one map entry: the key as field 1, the value as field 2. */
  function EntryBody(k: bytes, v: bytes): bytes {
    Delimited(KEY_TAG, k) + Delimited(VALUE_TAG, v)
  }

  function DelimitedSize(tag: bytes, len: nat): nat {
    |tag| + |EncVarint(len)| + len
  }

  // ---------------------------------------------------------------- sizes

  ghost function Size(sch: Schema, m: Msg): nat
    requires Typed(sch, m)
    decreases sch, |sch.fields| + 1
  {
    SizeFrom(sch, m, 0)
  }

  /** Size of the fields from `k` on, then of the unknown bytes. */
  ghost function SizeFrom(sch: Schema, m: Msg, k: nat): nat
    requires Typed(sch, m) && k <= |sch.fields|
    decreases sch, |sch.fields| - k
  {
    if k == |sch.fields| then |m.unknown|
    else SizeVal(sch.fields[k], m.vals[k]) + SizeFrom(sch, m, k + 1)
  }

  ghost function SizeVal(f: Field, v: Val): nat
    requires TypedVal(f.kind, v)
    decreases f, 1, 0
  {
    match f.kind
    case Int32 => if v.i == 0 then 0 else |TagOf(f)| + |EncVarint(ToUint64(v.i))|
    case Int64 => if v.i == 0 then 0 else |TagOf(f)| + |EncVarint(ToUint64(v.i))|
    case Bool => if v.b then |TagOf(f)| + 1 else 0
    case Str => if v.s == [] then 0 else DelimitedSize(TagOf(f), |v.s|)
    case StrMap => SizeMap(TagOf(f), v.m)
    case Message(sub) => if v.msg.None? then 0 else DelimitedSize(TagOf(f), Size(sub, v.msg.value))
    case Repeated(sub) => SizeRep(f, v.msgs)
  }

  ghost function SizeRep(f: Field, ms: seq<Msg>): nat
    requires f.kind.Repeated? && forall k | 0 <= k < |ms| :: Typed(f.kind.schema, ms[k])
    decreases f, 0, |ms|
  {
    if ms == [] then 0
    else DelimitedSize(TagOf(f), Size(f.kind.schema, ms[0])) + SizeRep(f, ms[1..])
  }

  function EntrySize(tag: bytes, k: bytes, v: bytes): nat {
    DelimitedSize(tag, |EntryBody(k, v)|)
  }

  ghost function SizeMap(tag: bytes, m: map<bytes, bytes>): nat
    decreases |m|
  {
    if m == map[] then 0
    else
      var k :| k in m;
      RemoveShrinks(m, k);
      EntrySize(tag, k, m[k]) + SizeMap(tag, Remove(m, k))
  }

  function Remove(m: map<bytes, bytes>, k: bytes): map<bytes, bytes> { m - {k} }

  lemma RemoveShrinks(m: map<bytes, bytes>, k: bytes)
    requires k in m
    ensures |Remove(m, k)| == |m| - 1
  {
    assert Remove(m, k).Keys == m.Keys - {k};
    assert |m.Keys| == |m.Keys - {k}| + 1;
  }

  lemma RemoveCommutes(m: map<bytes, bytes>, j: bytes, k: bytes)
    ensures Remove(Remove(m, j), k) == Remove(Remove(m, k), j)
  {}

  /** The order in which a map is visited does not change its size. */
  lemma {:induction false} SizeMapAnyKey(tag: bytes, m: map<bytes, bytes>, k: bytes)
    requires k in m
    ensures SizeMap(tag, m) == EntrySize(tag, k, m[k]) + SizeMap(tag, Remove(m, k))
    decreases |m|
  {
    var k0 :| k0 in m && SizeMap(tag, m) == EntrySize(tag, k0, m[k0]) + SizeMap(tag, Remove(m, k0));
    if k0 != k {
      RemoveShrinks(m, k);
      RemoveShrinks(m, k0);
      SizeMapAnyKey(tag, Remove(m, k0), k);
      SizeMapAnyKey(tag, Remove(m, k), k0);
      RemoveCommutes(m, k, k0);
    }
  }

  // ---------------------------------------------------------------- encodings

  /** `e` is an encoding of `m`: its fields in number order, each present exactly when it is
      not zero, maps in any order, then the unknown bytes. */
  ghost predicate IsEncoding(sch: Schema, m: Msg, e: bytes)
    requires Typed(sch, m)
    decreases sch, |sch.fields| + 1
  {
    EncodesFrom(sch, m, 0, e)
  }

  ghost predicate EncodesFrom(sch: Schema, m: Msg, k: nat, e: bytes)
    requires Typed(sch, m) && k <= |sch.fields|
    decreases sch, |sch.fields| - k
  {
    if k == |sch.fields| then e == m.unknown
    else
      var n := SizeVal(sch.fields[k], m.vals[k]);
      n <= |e| && EncodesVal(sch.fields[k], m.vals[k], e[..n]) && EncodesFrom(sch, m, k + 1, e[n..])
  }

  ghost predicate EncodesVal(f: Field, v: Val, e: bytes)
    requires TypedVal(f.kind, v)
    decreases f, 1, 0
  {
    match f.kind
    case Int32 => e == if v.i == 0 then [] else TagOf(f) + EncVarint(ToUint64(v.i))
    case Int64 => e == if v.i == 0 then [] else TagOf(f) + EncVarint(ToUint64(v.i))
    case Bool => e == if v.b then TagOf(f) + [1] else []
    case Str => e == if v.s == [] then [] else Delimited(TagOf(f), v.s)
    case StrMap => EncodesMap(TagOf(f), v.m, e)
    case Message(sub) => if v.msg.None? then e == [] else EncodesMsg(f, v.msg.value, e)
    case Repeated(sub) => EncodesRep(f, v.msgs, e)
  }

  /** `e` is the key and length of submessage `x` followed by an encoding of it. */
  ghost predicate EncodesMsg(f: Field, x: Msg, e: bytes)
    requires f.kind.Message? || f.kind.Repeated?
    requires Typed(f.kind.schema, x)
    decreases f, 0, 0
  {
    var n := Size(f.kind.schema, x);
    n <= |e| && e == Delimited(TagOf(f), e[|e| - n..]) && IsEncoding(f.kind.schema, x, e[|e| - n..])
  }

  ghost predicate EncodesRep(f: Field, ms: seq<Msg>, e: bytes)
    requires f.kind.Repeated? && forall k | 0 <= k < |ms| :: Typed(f.kind.schema, ms[k])
    decreases f, 0, |ms|
  {
    if ms == [] then e == []
    else
      var n := DelimitedSize(TagOf(f), Size(f.kind.schema, ms[0]));
      n <= |e| && EncodesMsg(f, ms[0], e[..n]) && EncodesRep(f, ms[1..], e[n..])
  }

  /** Some entry first, then an encoding of the map without it. */
  ghost predicate EncodesMap(tag: bytes, m: map<bytes, bytes>, e: bytes)
    decreases |m|
  {
    if m == map[] then e == []
    else exists k | k in m :: EntryThen(tag, m, k, e)
  }

  ghost predicate EntryThen(tag: bytes, m: map<bytes, bytes>, k: bytes, e: bytes)
    requires k in m
    decreases |m|, 0
  {
    RemoveShrinks(m, k);
    && Delimited(tag, EntryBody(k, m[k])) <= e
    && EncodesMap(tag, Remove(m, k), e[EntrySize(tag, k, m[k])..])
  }
}
