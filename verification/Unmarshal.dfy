/** The decoder as the generated code runs it: an index that advances through a slice, varint
    loops with truncating shifts, and a message object updated field by field. Every method
    is proved against the function of module Decoding that specifies it. */
module Unmarshal {
  import opened Wire
  import opened Messages
  import opened Decoding

  function Pow2(n: nat): (p: nat)
    ensures p >= 1
  {
    if n == 0 then 1 else 2 * Pow2(n - 1)
  }

  /** Bitwise disjunction. */
  function BitOr(a: nat, b: nat): nat {
    if a == 0 then b
    else if b == 0 then a
    else 2 * BitOr(a / 2, b / 2) + (if a % 2 == 1 || b % 2 == 1 then 1 else 0)
  }

  /** `acc |= T(group) << shift` for a T that holds the integers below `width`: bits shifted
      out of T are lost, then the words are combined bit by bit. */
  function OrGroup(acc: nat, group: nat, shift: nat, width: nat): nat
    requires width > 0
  {
    BitOr(acc, group * Pow2(shift) % width)
  }

  /** Below the shift there is nothing to combine with, so the disjunction is a sum. */
  lemma {:induction false} OrAbove(acc: nat, x: nat, s: nat)
    requires acc < Pow2(s)
    ensures BitOr(acc, x * Pow2(s)) == acc + x * Pow2(s)
    decreases s
  {
    if s > 0 && acc > 0 && x * Pow2(s) > 0 {
      var half := x * Pow2(s - 1);
      assert x * Pow2(s) == 2 * half by { assert x * (2 * Pow2(s - 1)) == 2 * (x * Pow2(s - 1)); }
      OrAbove(acc / 2, x, s - 1);
      assert BitOr(acc, 2 * half) == 2 * BitOr(acc / 2, half) + acc % 2;
    }
  }

  /** `width` is 2^bits. */
  ghost predicate IsWord(width: nat, bits: nat) { width == Pow2(bits) }

  lemma {:induction false} Pow2Add(a: nat, b: nat)
    ensures Pow2(a + b) == Pow2(a) * Pow2(b)
    decreases a
  {
    if a > 0 {
      Pow2Add(a - 1, b);
      assert Pow2(a) == 2 * Pow2(a - 1) && Pow2(a + b) == 2 * Pow2(a - 1 + b);
      hide Pow2;
      Regroup(2, Pow2(a - 1), Pow2(b));
    }
  }

  lemma Distribute(a: int, b: int, c: int)
    ensures (a + b) * c == a * c + b * c
  {}

  lemma Regroup(a: nat, b: nat, c: nat)
    ensures a * b * c == a * (b * c)
  {}

  lemma MulMonotone(a: nat, b: nat, c: nat)
    requires a <= b
    ensures a * c <= b * c
  {
    Distribute(a, b - a, c);
  }

  lemma ModOf(x: nat, m: nat, q: nat, r: nat)
    requires r < m && x == q * m + r
    ensures x % m == r
  {
    var d, e := x / m, x % m;
    assert x == d * m + e;
    if d < q {
      MulMonotone(d + 1, q, m);
      Distribute(d, 1, m);
    } else if d > q {
      MulMonotone(q + 1, d, m);
      Distribute(q, 1, m);
    }
  }

  /** A group shifted by p into a word of top * p values keeps its low digits, in place. */
  lemma ShiftedGroup(group: nat, top: nat, p: nat)
    requires top > 0 && p > 0
    ensures top * p > 0 && group * p % (top * p) == (group % top) * p
    ensures (group % top) * p + p <= top * p
  {
    var q, x := group / top, group % top;
    MulMonotone(x + 1, top, p);
    Distribute(x, 1, p);
    assert group * p == q * (top * p) + x * p by {
      Distribute(q * top, x, p);
      Regroup(q, top, p);
    }
    ModOf(group * p, top * p, q, x * p);
  }

  lemma ModMultiple(x: nat, y: nat, m: nat)
    requires m > 0 && x + y % m < m
    ensures (x + y) % m == x + y % m
  {
    ModOf(x + y, m, y / m, x + y % m);
  }

  /** A group that starts inside the word. */
  lemma GroupInside(acc: nat, group: nat, p: nat, top: nat, width: nat)
    requires top > 0 && p > 0 && width == top * p && acc < p
    ensures group * p % width == (group % top) * p && (acc + group * p) % width == acc + (group % top) * p
  {
    ShiftedGroup(group, top, p);
    ModMultiple(acc, group * p, width);
  }

  /** A group that starts beyond it. */
  lemma GroupBeyond(acc: nat, group: nat, k: nat, width: nat)
    requires acc < width
    ensures group * (k * width) % width == 0 && (acc + group * (k * width)) % width == acc
  {
    Regroup(group, k, width);
    ModOf(group * k * width, width, group * k, 0);
    ModOf(acc + group * k * width, width, group * k, acc);
  }

  /** Combining a group bit by bit is adding it and dropping what does not fit. */
  lemma OrGroupAdds(acc: nat, group: nat, s: nat, width: nat, bits: nat)
    requires IsWord(width, bits) && acc < Pow2(s) && acc < width
    ensures OrGroup(acc, group, s, width) == (acc + group * Pow2(s)) % width
  {
    hide Pow2, BitOr;
    if s <= bits {
      Pow2Add(bits - s, s);
      GroupInside(acc, group, Pow2(s), Pow2(bits - s), width);
      OrAbove(acc, group % Pow2(bits - s), s);
    } else {
      Pow2Add(s - bits, bits);
      GroupBeyond(acc, group, Pow2(s - bits), width);
      OrAbove(acc, 0, s);
    }
  }

  lemma Square(n: nat, v: nat)
    requires Pow2(n) == v
    ensures Pow2(n + n) == v * v
  {
    hide Pow2;
    Pow2Add(n, n);
  }

  /** The two widths in use. */
  lemma Words()
    ensures IsWord(TWO_32, 32) && IsWord(TWO_64, 64)
  {
    assert Pow2(8) == 256 by { assert Pow2(4) == 16; }
    hide Pow2;
    Square(8, 256);
    Square(16, 0x1_0000);
    Square(32, 0x1_0000_0000);
  }

  /** A varint value reduced to a width, at an absolute index. */
  ghost function Placed(r: Result<(nat, nat)>, i: nat, width: nat): Result<(nat, nat)>
    requires width > 0
  {
    match r
    case Err(e) => Err(e)
    case Ok((v, n)) => Ok((v % width, i + n))
  }

  ghost predicate IsWidth(width: nat) { width == TWO_32 || width == TWO_64 }

  lemma ModAdd(x: nat, y: nat, width: nat)
    requires IsWidth(width)
    ensures (x % width + y) % width == (x + y) % width
  {
    if width == TWO_32 {} else {}
  }

  /** What the loop has read so far, and what is left, make up the whole varint. */
  ghost predicate Progress(whole: Result<(nat, nat)>, left: Result<(nat, nat)>, full: nat, p: nat, n: nat) {
    match left
    case Err(e) => whole == Err(e)
    case Ok((v, k)) => whole == Ok((full + p * v, n + k))
  }

  lemma ProgressStep(whole: Result<(nat, nat)>, s: bytes, fuel: nat, full: nat, p: nat, n: nat)
    requires fuel > 0 && s != [] && Progress(whole, ReadRaw(s, fuel), full, p, n)
    ensures s[0] < 128 ==> whole == Ok((full + (s[0] % 128) * p, n + 1))
    ensures s[0] >= 128 ==> Progress(whole, ReadRaw(s[1..], fuel - 1), full + (s[0] % 128) * p, 128 * p, n + 1)
  {
    if s[0] >= 128 && ReadRaw(s[1..], fuel - 1).Ok? {
      NextGroup(full, s[0] % 128, p, ReadRaw(s[1..], fuel - 1).value.0);
    } else {
      NextGroup(full, s[0] % 128, p, 0);
    }
  }

  lemma NextGroup(full: nat, g: nat, p: nat, v: nat)
    ensures full + p * (g + 128 * v) == full + g * p + 128 * p * v
  {}

  lemma ProgressEnds(whole: Result<(nat, nat)>, s: bytes, fuel: nat, full: nat, p: nat, n: nat)
    requires Progress(whole, ReadRaw(s, fuel), full, p, n)
    ensures fuel == 0 ==> whole == Err(IntOverflow)
    ensures fuel > 0 && s == [] ==> whole == Err(UnexpectedEOF)
  {}

  lemma ProgressStart(whole: Result<(nat, nat)>)
    ensures Progress(whole, whole, 0, Pow2(0), 0) && Pow2(0) == 1
  {}

  /** `acc` is the word that the value `full`, read in `shift` bits, leaves. */
  ghost predicate Accumulated(acc: nat, full: nat, shift: nat, width: nat)
    requires width > 0
  {
    acc == full % width && full < Pow2(shift)
  }

  /** `group` moved `shift` bits up. */
  function Shifted(group: nat, shift: nat): nat { group * Pow2(shift) }

  lemma AccumulateStep(acc: nat, full: nat, shift: nat, width: nat, group: nat)
    requires IsWidth(width) && group < 128 && Accumulated(acc, full, shift, width)
    ensures Accumulated(OrGroup(acc, group, shift, width), full + Shifted(group, shift), shift + 7, width)
    ensures Pow2(shift + 7) == 128 * Pow2(shift)
  {
    Words();
    hide Pow2, OrGroup;
    ModSmaller(full, width);
    OrGroupAdds(acc, group, shift, width, if width == TWO_32 then 32 else 64);
    ModAdd(full, group * Pow2(shift), width);
    GroupFits(full, group, Pow2(shift));
    Pow2Seven(shift);
  }

  lemma ModSmaller(x: nat, m: nat)
    requires m > 0
    ensures x % m <= x && x % m < m
  {}

  /** The varint loop, accumulating into a word of `width` values; `acc` is that word, also
      when the loop stops with an error. */
  method ReadVarint(d: bytes, i0: nat, width: nat) returns (r: Result<(nat, nat)>, acc: nat)
    requires i0 <= |d| && IsWidth(width)
    ensures r == Placed(ReadRaw(d[i0..], MAX_VARINT_LEN), i0, width)
    ensures acc < width && (r.Ok? ==> acc == r.value.0)
  {
    hide ReadRaw, Pow2, Progress, OrGroup, Accumulated;
    var shift, i := 0, i0;
    acc := 0;
    ghost var full: nat := 0;
    ghost var whole := ReadRaw(d[i0..], MAX_VARINT_LEN);
    ProgressStart(whole);
    AccumulateStart(width);
    while true
      invariant i0 <= i <= |d| && i - i0 <= MAX_VARINT_LEN && shift == 7 * (i - i0)
      invariant acc < width && Accumulated(acc, full, shift, width)
      invariant Progress(whole, ReadRaw(d[i..], MAX_VARINT_LEN - (i - i0)), full, Pow2(shift), i - i0)
      decreases |d| - i
    {
      ghost var fuel := MAX_VARINT_LEN - (i - i0);
      ProgressEnds(whole, d[i..], fuel, full, Pow2(shift), i - i0);
      if shift >= 64 {
        return Err(IntOverflow), acc;
      }
      if i >= |d| {
        return Err(UnexpectedEOF), acc;
      }
      var b := d[i];
      ProgressStep(whole, d[i..], fuel, full, Pow2(shift), i - i0);
      assert d[i..][1..] == d[i + 1..];
      AccumulateStep(acc, full, shift, width, b % 128);
      i := i + 1;
      acc := OrGroup(acc, b % 128, shift, width);
      full := full + Shifted(b % 128, shift);
      AccumulateEnds(acc, full, shift + 7, width);
      if b < 128 {
        return Ok((acc, i)), acc;
      }
      shift := shift + 7;
    }
  }

  lemma AccumulateStart(width: nat)
    requires IsWidth(width)
    ensures Accumulated(0, 0, 0, width)
  {}

  lemma AccumulateEnds(acc: nat, full: nat, shift: nat, width: nat)
    requires IsWidth(width) && Accumulated(acc, full, shift, width)
    ensures acc == full % width && acc < width
  {}

  lemma GroupFits(full: nat, group: nat, p: nat)
    requires full < p && group < 128
    ensures full + group * p < 128 * p
  {
    MulMonotone(group, 127, p);
  }

  lemma Pow2Seven(n: nat)
    ensures Pow2(n + 7) == 128 * Pow2(n)
  {
    assert Pow2(n + 4) == 16 * Pow2(n) by { assert Pow2(n + 2) == 4 * Pow2(n); }
    assert Pow2(n + 7) == 8 * Pow2(n + 4) by { assert Pow2(n + 6) == 4 * Pow2(n + 4); }
  }

  /** A uint64 varint as the loops read it. */
  method ReadUint64(d: bytes, i: nat) returns (r: Result<(nat, nat)>)
    requires i <= |d|
    ensures Varint(d[i..]).Err? ==> r == Err(Varint(d[i..]).error)
    ensures Varint(d[i..]).Ok? ==> r == Ok((Varint(d[i..]).value.0, i + Varint(d[i..]).value.1))
  {
    hide ReadRaw;
    var acc;
    r, acc := ReadVarint(d, i, TWO_64);
  }

  /** An int32 field: the loop ORs into an int32, which gives the same as truncating the
      whole varint; `acc` is that int32, also when the loop stops with an error. */
  method ReadInt32(d: bytes, i: nat) returns (r: Result<nat>, acc: int)
    requires i <= |d|
    ensures Varint(d[i..]).Err? ==> r == Err(Varint(d[i..]).error)
    ensures Varint(d[i..]).Ok? ==> acc == ToInt32(Varint(d[i..]).value.0) && r == Ok(i + Varint(d[i..]).value.1)
    ensures -TWO_31 <= acc < TWO_31
  {
    hide ReadRaw, Varint, ToInt32, Placed;
    var x, word := ReadVarint(d, i, TWO_32);
    acc := ToInt32(word);
    PlacedInt32(d[i..], i);
    r := match x case Err(e) => Err(e) case Ok((_, j)) => Ok(j);
  }

  /** Truncating in the loop or at the end gives the same int32. */
  lemma PlacedInt32(s: bytes, i: nat)
    ensures var x := Placed(ReadRaw(s, MAX_VARINT_LEN), i, TWO_32);
      match Varint(s)
      case Err(e) => x == Err(e)
      case Ok((v, n)) => x.Ok? && ToInt32(x.value.0) == ToInt32(v) && x.value.1 == i + n
  {
    hide ReadRaw, ToInt32;
    var raw := ReadRaw(s, MAX_VARINT_LEN);
    if raw.Ok? {
      SameInt32(raw.value.0);
    }
  }

  lemma SameInt32(v: nat)
    ensures ToInt32(v % TWO_32) == ToInt32(v % TWO_64)
  {
    ModTwice(v);
    ModTwice(v % TWO_32);
  }

  lemma ModTwice(v: nat)
    ensures v % TWO_64 % TWO_32 == v % TWO_32
  {
    var q, w := v / TWO_64, v % TWO_64;
    var r, x := w / TWO_32, w % TWO_32;
    assert v == (q * TWO_32 + r) * TWO_32 + x;
    ModOf(v, TWO_32, q * TWO_32 + r, x);
  }

  /** An int64 field, likewise. */
  method ReadInt64(d: bytes, i: nat) returns (r: Result<nat>, acc: int)
    requires i <= |d|
    ensures Varint(d[i..]).Err? ==> r == Err(Varint(d[i..]).error)
    ensures Varint(d[i..]).Ok? ==> acc == ToInt64(Varint(d[i..]).value.0) && r == Ok(i + Varint(d[i..]).value.1)
    ensures -TWO_63 <= acc < TWO_63
  {
    hide ReadRaw;
    var x, word := ReadVarint(d, i, TWO_64);
    acc := ToInt64(word);
    r := match x case Err(e) => Err(e) case Ok((_, j)) => Ok(j);
  }

  /** Length of the whole field at the front of `s`, groups included. */
  method SkipField(s: bytes) returns (r: Result<nat>)
    ensures r == Skip(s)
  {
    hide Varint, ToInt64;
    var i: nat, depth: nat := 0, 0;
    while i < |s|
      invariant Skip(s) == SkipFrom(s, i, depth)
      decreases |s| - i
    {
      var tag := ReadUint64(s, i);
      if tag.Err? {
        return Err(tag.error);
      }
      var wt := WireType(tag.value.0);
      if wt == 4 && depth == 0 {
        return Err(UnexpectedEndOfGroup);
      }
      var end := SkipPayload(s, tag.value.1, wt);
      if end.Err? {
        return Err(end.error);
      }
      i := end.value;
      if wt == 3 {
        depth := depth + 1;
      } else if wt == 4 {
        depth := depth - 1;
      }
      if depth == 0 {
        return Ok(i);
      }
    }
    return Err(UnexpectedEOF);
  }

  method SkipPayload(s: bytes, j: nat, wt: nat) returns (r: Result<nat>)
    requires j <= |s| && wt < 8
    ensures r == PayloadEnd(s, j, wt)
  {
    hide ReadRaw;
    var i := j;
    if wt == 0 {
      var x := ReadUint64(s, j);
      if x.Err? {
        return Err(x.error);
      }
      i := x.value.1;
    } else if wt == 1 {
      i := i + 8;
    } else if wt == 2 {
      var x := ReadUint64(s, j);
      if x.Err? {
        return Err(x.error);
      }
      if ToInt64(x.value.0) < 0 {
        return Err(InvalidLength);
      }
      i := x.value.1 + x.value.0;
    } else if wt == 5 {
      i := i + 4;
    } else if wt == 6 || wt == 7 {
      return Err(IllegalWireType);
    }
    if i >= TWO_63 {
      return Err(InvalidLength);
    }
    return Ok(i);
  }

  lemma SignOf(v: nat)
    requires v < TWO_64 + TWO_63
    ensures v < TWO_63 ==> ToInt64(v) == v
    ensures TWO_63 <= v < TWO_64 ==> ToInt64(v) < 0
  {}

  /** Reads a length at index `i` of `d` and checks the end it announces against the whole
      slice. `pre` is where the current field started. */
  method ReadLength(d: bytes, i: nat, ghost pre: nat) returns (r: Result<(nat, nat)>)
    requires pre <= i <= |d| < TWO_63
    ensures ReadLen(d[pre..], i - pre, pre).Err? ==> r == Err(ReadLen(d[pre..], i - pre, pre).error)
    ensures ReadLen(d[pre..], i - pre, pre).Ok? ==>
      var (p, e) := ReadLen(d[pre..], i - pre, pre).value; r == Ok((pre + p, pre + e))
    ensures r.Ok? ==> i < r.value.0 <= r.value.1 <= |d|
  {
    hide Varint, ToInt64;
    assert d[pre..][i - pre..] == d[i..];
    var x := ReadUint64(d, i);
    if x.Err? {
      return Err(x.error);
    }
    SignOf(x.value.0);
    SignOf(x.value.0 + x.value.1);
    var len, start := ToInt64(x.value.0), x.value.1;
    if len < 0 {
      return Err(InvalidLength);
    }
    var post := ToInt64(start + len);
    if post < 0 {
      return Err(InvalidLength);
    }
    if post > |d| {
      return Err(UnexpectedEOF);
    }
    return Ok((start, post));
  }

  /** One map entry announced to end at `post`: the index may run past `post`, up to the end
      of the slice. */
  method ReadEntry(d: bytes, i0: nat, post: nat, ghost pre: nat) returns (r: Result<(bytes, bytes)>)
    requires pre <= i0 <= post <= |d| < TWO_63
    ensures r == ParseEntry(d[pre..], i0 - pre, post - pre, [], [], pre)
  {
    hide Varint, Skip, ReadLen, FieldNum;
    var i, key, val := i0, [], [];
    ghost var s := d[pre..];
    while i < post
      invariant i0 <= i <= |d|
      invariant ParseEntry(s, i0 - pre, post - pre, [], [], pre) == ParseEntry(s, i - pre, post - pre, key, val, pre)
      decreases |d| - i
    {
      assert s[i - pre..] == d[i..];
      var tag := ReadUint64(d, i);
      if tag.Err? {
        return Err(tag.error);
      }
      var num := FieldNum(tag.value.0);
      if num == 1 || num == 2 {
        var bounds := ReadLength(d, tag.value.1, pre);
        if bounds.Err? {
          return Err(bounds.error);
        }
        var (p, e) := bounds.value;
        assert s[p - pre..e - pre] == d[p..e];
        if num == 1 {
          key := d[p..e];
        } else {
          val := d[p..e];
        }
        i := e;
      } else {
        var skippy := SkipField(d[i..]);
        if skippy.Err? {
          return Err(skippy.error);
        }
        if i + skippy.value >= TWO_63 {
          return Err(InvalidLength);
        }
        if i + skippy.value > post {
          return Err(UnexpectedEOF);
        }
        i := i + skippy.value;
      }
    }
    return Ok((key, val));
  }

  /** The messages agree in all but one field. */
  ghost predicate AgreeBut(k: nat, a: Msg, b: Msg) {
    && a.unknown == b.unknown && |a.vals| == |b.vals|
    && forall j | 0 <= j < |a.vals| && j != k :: a.vals[j] == b.vals[j]
  }

  /** What an error leaves of a message that had reached `a`: everything but the field in
      which the error occurred. */
  ghost predicate Interrupted(a: Msg, b: Msg) {
    exists k: nat :: AgreeBut(k, a, b)
  }

  /** A submessage field that now holds `x`, or a repeated field with `x` as its new element. */
  function Put(kind: Kind, v: Val, x: Msg): (r: Val)
    requires kind.Message? || kind.Repeated?
    requires TypedVal(kind, v) && Typed(kind.schema, x)
    ensures TypedVal(kind, r)
  {
    if kind.Message? then VMsg(Some(x)) else VRep(v.msgs + [x])
  }

  /** A message object of some schema. */
  class MessageObject {
    const schema: Schema
    var vals: seq<Val>
    var unknown: bytes

    ghost function Value(): Msg
      reads this
    {
      Msg(vals, unknown)
    }

    ghost predicate Valid()
      reads this
      ensures Valid() ==> Typed(schema, Value())
    {
      && |vals| == |schema.fields|
      && forall k | 0 <= k < |vals| :: TypedVal(schema.fields[k].kind, vals[k])
    }

    constructor (sch: Schema, m: Msg)
      requires Typed(sch, m)
      ensures schema == sch && Value() == m && Valid()
    {
      schema, vals, unknown := sch, m.vals, m.unknown;
    }

    /** Decodes `d` on top of the present contents. On success the new contents are what
        Decode specifies. On an error, which is the one Decode specifies, all the whole
        fields before it have been taken in and at most one other field has changed. */
    method UnmarshalVT(d: bytes) returns (err: Option<DecodeError>)
      requires Valid() && |d| < TWO_63
      modifies this
      ensures Valid()
      ensures match Decode(schema, old(Value()), d, 0)
        case Ok(m) => err == None && Value() == m
        case Err(e) => err == Some(e) && Interrupted(Reached(schema, old(Value()), d, 0), Value())
      decreases schema, 3
    {
      hide Decode, Step, Reached, Interrupted;
      var i := 0;
      assert d[0..] == d;
      while i < |d|
        invariant 0 <= i <= |d| && Valid()
        invariant Decode(schema, old(Value()), d, 0) == Decode(schema, Value(), d[i..], i)
        invariant Reached(schema, old(Value()), d, 0) == Reached(schema, Value(), d[i..], i)
        decreases |d| - i
      {
        ghost var before := Value();
        var next := UnmarshalStep(d, i);
        Unfold(schema, before, d[i..], i);
        if next.Err? {
          return Some(next.error);
        }
        assert d[i..][next.value - i..] == d[next.value..];
        i := next.value;
      }
      Unfold(schema, Value(), d[i..], i);
      return None;
    }

    /** One field: key, switch on its number, payload. */
    method UnmarshalStep(d: bytes, pre: nat) returns (r: Result<nat>)
      requires Valid() && pre < |d| < TWO_63
      modifies this
      ensures Valid()
      ensures match Step(schema, old(Value()), d[pre..], pre)
        case Ok((m, n)) => r == Ok(pre + n) && Value() == m
        case Err(e) => r == Err(e) && Interrupted(old(Value()), Value())
      decreases schema, 2
    {
      hide Varint, DecodeField, Skip;
      assert AgreeBut(0, Value(), Value());
      var tag := ReadUint64(d, pre);
      if tag.Err? {
        return Err(tag.error);
      }
      var (wire, i) := tag.value;
      var wt, num := WireType(wire), FieldNum(wire);
      if wt == 4 {
        return Err(EndGroup);
      }
      if num <= 0 {
        return Err(IllegalTag);
      }
      var k := Lookup(schema.fields, num, 0);
      if k < |schema.fields| {
        r := UnmarshalField(k, d, pre, i, wt);
        assert r.Err? ==> AgreeBut(k, old(Value()), Value());
      } else {
        var skippy := SkipField(d[pre..]);
        if skippy.Err? {
          return Err(skippy.error);
        }
        var end := pre + skippy.value;
        if end >= TWO_63 {
          return Err(InvalidLength);
        }
        if end > |d| {
          return Err(UnexpectedEOF);
        }
        assert d[pre..][..skippy.value] == d[pre..end];
        unknown := unknown + d[pre..end];
        r := Ok(end);
      }
    }

    /** The switch case of field `k`: its payload starts at `i`. */
    method UnmarshalField(k: nat, d: bytes, ghost pre: nat, i: nat, wt: nat) returns (r: Result<nat>)
      requires Valid() && k < |schema.fields| && pre <= i <= |d| < TWO_63
      modifies this`vals
      ensures Valid()
      ensures match DecodeField(schema.fields[k], old(vals)[k], d[pre..], i - pre, wt, pre)
        case Ok((v, j)) => r == Ok(pre + j) && vals == old(vals)[k := v]
        case Err(e) => r == Err(e) && vals == old(vals)[k := vals[k]]
      decreases schema, 1
    {
      hide Varint, ReadLen, Decode;
      var f := schema.fields[k];
      assert d[pre..][i - pre..] == d[i..];
      if wt != WireTypeOf(f.kind) {
        return Err(WrongWireType);
      }
      if f.kind.Int32? {
        var acc;
        r, acc := ReadInt32(d, i);
        vals := vals[k := VInt(acc)];
        return;
      }
      if f.kind.Int64? {
        var acc;
        r, acc := ReadInt64(d, i);
        vals := vals[k := VInt(acc)];
        return;
      }
      if f.kind.Bool? {
        var x := ReadUint64(d, i);
        if x.Err? {
          return Err(x.error);
        }
        vals := vals[k := VBool(x.value.0 != 0)];
        return Ok(x.value.1);
      }
      var bounds := ReadLength(d, i, pre);
      if bounds.Err? {
        return Err(bounds.error);
      }
      var (p, e) := bounds.value;
      assert d[pre..][p - pre..e - pre] == d[p..e];
      if f.kind.Str? {
        vals := vals[k := VStr(d[p..e])];
      } else if f.kind.StrMap? {
        var entry := ReadEntry(d, p, e, pre);
        if entry.Err? {
          return Err(entry.error);
        }
        vals := vals[k := VMap(vals[k].m[entry.value.0 := entry.value.1])];
      } else {
        var err := UnmarshalSub(k, d[p..e]);
        if err.Some? {
          return Err(err.value);
        }
      }
      return Ok(e);
    }

    /** Merges into the submessage of field `k`, or appends a new element and fills it. On an
        error the submessage or element stays, as far as it got. */
    method UnmarshalSub(k: nat, d: bytes) returns (err: Option<DecodeError>)
      requires Valid() && k < |schema.fields| && |d| < TWO_63
      requires schema.fields[k].kind.Message? || schema.fields[k].kind.Repeated?
      modifies this`vals
      ensures Valid()
      ensures
        var f, v := schema.fields[k], old(vals)[k];
        var start := if f.kind.Message? && v.msg.Some? then v.msg.value else Empty(f.kind.schema);
        match Decode(f.kind.schema, start, d, 0)
        case Ok(x) => err == None && vals == old(vals)[k := Put(f.kind, v, x)]
        case Err(e) =>
          err == Some(e) && exists x ::
            && Typed(f.kind.schema, x) && Interrupted(Reached(f.kind.schema, start, d, 0), x)
            && vals == old(vals)[k := Put(f.kind, v, x)]
      decreases schema, 0
    {
      hide Decode, Reached, Interrupted;
      var f, v := schema.fields[k], vals[k];
      var sub := new MessageObject(f.kind.schema,
        if f.kind.Message? && v.msg.Some? then v.msg.value else Empty(f.kind.schema));
      err := sub.UnmarshalVT(d);
      vals := vals[k := Put(f.kind, v, Msg(sub.vals, sub.unknown))];
    }
  }
}
