/** What the decoder computes, as functions of the remaining input.

    `base` is the absolute index of the remaining input in the caller's slice. It matters only
    where the source adds an index to a length and tests the 64-bit sum for overflow. */
module Decoding {
  import opened Wire
  import opened Messages

  /** Reads a length at `j` and gives the bounds of the payload it announces. */
  function ReadLen(s: bytes, j: nat, base: nat): (r: Result<(nat, nat)>)
    requires j <= |s|
    ensures r.Ok? ==> j < r.value.0 <= r.value.1 <= |s|
  {
    match Varint(s[j..])
    case Err(e) => Err(e)
    case Ok((v, n)) =>
      if ToInt64(v) < 0 then Err(InvalidLength)
      else if base + j + n + v >= TWO_63 then Err(InvalidLength)
      else if j + n + v > |s| then Err(UnexpectedEOF)
      else Ok((j + n, j + n + v))
  }

  /** The loop over one map entry that is announced to end at `post`. Keys and values are
      checked against the end of the input, not against `post`. */
  function ParseEntry(s: bytes, i: nat, post: nat, key: bytes, val: bytes, base: nat)
    : (r: Result<(bytes, bytes)>)
    requires i <= |s| && post <= |s|
    decreases |s| - i
  {
    if i >= post then Ok((key, val))
    else match Varint(s[i..])
      case Err(e) => Err(e)
      case Ok((wire, n)) =>
        var num := FieldNum(wire);
        if num == 1 || num == 2 then
          match ReadLen(s, i + n, base)
          case Err(e) => Err(e)
          case Ok((p, e)) =>
            if num == 1 then ParseEntry(s, e, post, s[p..e], val, base)
            else ParseEntry(s, e, post, key, s[p..e], base)
        else
          match Skip(s[i..])
          case Err(e) => Err(e)
          case Ok(len) =>
            if base + i + len >= TWO_63 then Err(InvalidLength)
            else if i + len > post then Err(UnexpectedEOF)
            else ParseEntry(s, i + len, post, key, val, base)
  }

  /** Decodes the payload of field `f` at index `j` on top of its present value `v`. */
  function DecodeField(f: Field, v: Val, s: bytes, j: nat, wt: nat, base: nat): (r: Result<(Val, nat)>)
    requires TypedVal(f.kind, v) && j <= |s|
    ensures r.Ok? ==> TypedVal(f.kind, r.value.0) && j <= r.value.1 <= |s|
    decreases f, 1
  {
    if wt != WireTypeOf(f.kind) then Err(WrongWireType)
    else if wt == 0 then
      match Varint(s[j..])
      case Err(e) => Err(e)
      case Ok((x, n)) => Ok((FromVarint(f.kind, x), j + n))
    else
      match ReadLen(s, j, base)
      case Err(e) => Err(e)
      case Ok((p, e)) =>
        match DecodePayload(f, v, s, p, e, base)
        case Err(err) => Err(err)
        case Ok(v') => Ok((v', e))
  }

  /** A scalar from its varint, truncated to the width of its Go type. */
  function FromVarint(kind: Kind, x: nat): (v: Val)
    requires WireTypeOf(kind) == 0 && x < TWO_64
    ensures TypedVal(kind, v)
  {
    match kind
    case Int32 => VInt(ToInt32(x))
    case Int64 => VInt(ToInt64(x))
    case _ => VBool(x != 0)
  }

  /** Last string wins, map entries update, submessages merge, repeated submessages append. */
  function DecodePayload(f: Field, v: Val, s: bytes, p: nat, e: nat, base: nat): (r: Result<Val>)
    requires WireTypeOf(f.kind) == 2 && TypedVal(f.kind, v) && p <= e <= |s|
    ensures r.Ok? ==> TypedVal(f.kind, r.value)
    decreases f, 0
  {
    if f.kind.Str? then Ok(VStr(s[p..e]))
    else if f.kind.StrMap? then
      match ParseEntry(s, p, e, [], [], base)
      case Err(err) => Err(err)
      case Ok((key, val)) => Ok(VMap(v.m[key := val]))
    else if f.kind.Message? then
      match Decode(f.kind.schema, if v.msg.Some? then v.msg.value else Empty(f.kind.schema), s[p..e], 0)
      case Err(err) => Err(err)
      case Ok(x) => Ok(VMsg(Some(x)))
    else
      match Decode(f.kind.schema, Empty(f.kind.schema), s[p..e], 0)
      case Err(err) => Err(err)
      case Ok(x) => Ok(VRep(v.msgs + [x]))
  }

  /** A field the message does not know: skipped and kept byte for byte. */
  function TakeUnknown(m: Msg, s: bytes, base: nat): (r: Result<(Msg, nat)>)
    ensures r.Ok? ==> 1 <= r.value.1 <= |s|
    ensures r.Ok? ==> r.value.0 == m.(unknown := m.unknown + s[..r.value.1])
  {
    match Skip(s)
    case Err(e) => Err(e)
    case Ok(n) =>
      if base + n >= TWO_63 then Err(InvalidLength)
      else if n > |s| then Err(UnexpectedEOF)
      else Ok((m.(unknown := m.unknown + s[..n]), n))
  }

  /** One turn of the decoding loop: the updated message and the bytes consumed. */
  function Step(sch: Schema, m: Msg, s: bytes, base: nat): (r: Result<(Msg, nat)>)
    requires Typed(sch, m)
    ensures r.Ok? ==> Typed(sch, r.value.0) && 1 <= r.value.1 <= |s|
    decreases sch, |s|, 0
  {
    match Varint(s)
    case Err(e) => Err(e)
    case Ok((wire, n)) =>
      var wt, num := WireType(wire), FieldNum(wire);
      if wt == 4 then Err(EndGroup)
      else if num <= 0 then Err(IllegalTag)
      else
        var k := Lookup(sch.fields, num, 0);
        if k == |sch.fields| then TakeUnknown(m, s, base)
        else
          match DecodeField(sch.fields[k], m.vals[k], s, n, wt, base)
          case Err(e) => Err(e)
          case Ok((v, j)) => Ok((SetVal(m, k, v), j))
  }

  /** Decodes `s` on top of message `m`. */
  function Decode(sch: Schema, m: Msg, s: bytes, base: nat): (r: Result<Msg>)
    requires Typed(sch, m)
    ensures r.Ok? ==> Typed(sch, r.value)
    decreases sch, |s|, 1
  {
    if s == [] then Ok(m)
    else match Step(sch, m, s, base)
      case Err(e) => Err(e)
      case Ok((m', n)) => Decode(sch, m', s[n..], base + n)
  }

  /** The message after all whole fields of `s` up to its end or the first error. */
  function Reached(sch: Schema, m: Msg, s: bytes, base: nat): (r: Msg)
    requires Typed(sch, m)
    ensures Typed(sch, r)
    decreases |s|
  {
    if s == [] then m
    else match Step(sch, m, s, base)
      case Err(_) => m
      case Ok((m', n)) => Reached(sch, m', s[n..], base + n)
  }

  lemma Unfold(sch: Schema, m: Msg, s: bytes, base: nat)
    requires Typed(sch, m)
    ensures s == [] ==> Decode(sch, m, s, base) == Ok(m)
    ensures s != [] ==> match Step(sch, m, s, base)
      case Err(e) => Decode(sch, m, s, base) == Err(e)
      case Ok((m', n)) => Decode(sch, m, s, base) == Decode(sch, m', s[n..], base + n)
    ensures s != [] ==> match Step(sch, m, s, base)
      case Err(_) => Reached(sch, m, s, base) == m
      case Ok((m', n)) => Reached(sch, m, s, base) == Reached(sch, m', s[n..], base + n)
  {
    hide Step;
  }
}
