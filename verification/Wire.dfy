/** The protobuf wire primitives used by the generated codec: base-128 varints, two's
    complement reinterpretation, and skipping one whole field (groups included).

    Bytes are integers 0..255 and machine words are integers with explicit wrap-around.
    Reading functions take the remaining input `s` and return how many bytes they consume. */
module Wire {

  type byte = b: int | 0 <= b < 256
  type bytes = seq<byte>

  const TWO_31 := 0x8000_0000
  const TWO_32 := 0x1_0000_0000
  const TWO_63 := 0x8000_0000_0000_0000
  const TWO_64 := 0x1_0000_0000_0000_0000
  const MAX_VARINT_LEN: nat := 10

  datatype DecodeError =
    | IntOverflow | UnexpectedEOF | InvalidLength | EndGroup | IllegalTag
    | WrongWireType | IllegalWireType | UnexpectedEndOfGroup

  datatype Result<+T> = Ok(value: T) | Err(error: DecodeError)

  datatype Option<+T> = None | Some(value: T)

  /** Go's conversion of an unsigned word to int64: the low 64 bits, sign bit last. */
  function ToInt64(v: nat): (r: int)
    ensures -TWO_63 <= r < TWO_63 && (r - v) % TWO_64 == 0
  {
    var w := v % TWO_64;
    if w < TWO_63 then w else w - TWO_64
  }

  /** Go's conversion to int32: the low 32 bits, sign bit last. */
  function ToInt32(v: nat): (r: int)
    ensures -TWO_31 <= r < TWO_31 && (r - v) % TWO_32 == 0
  {
    var w := v % TWO_32;
    if w < TWO_31 then w else w - TWO_32
  }

  /** Go's `uint64(x)` of a signed value: sign extension to 64 bits. */
  function ToUint64(x: int): (v: nat)
    requires -TWO_63 <= x < TWO_63
    ensures v < TWO_64 && (v - x) % TWO_64 == 0
  {
    if x < 0 then x + TWO_64 else x
  }

  // ---------------------------------------------------------------- varints

  /** The base-128 varint of `v`: low group first, high bit set on all but the last byte. */
  function EncVarint(v: nat): (s: bytes)
    ensures |s| >= 1
  {
    if v < 128 then [v] else [v % 128 + 128] + EncVarint(v / 128)
  }

  /** Reads at most `fuel` varint bytes; the value is not yet truncated to a word. */
  function ReadRaw(s: bytes, fuel: nat): (r: Result<(nat, nat)>)
    ensures r.Ok? ==> 1 <= r.value.1 <= |s| && r.value.1 <= fuel
  {
    if fuel == 0 then Err(IntOverflow)
    else if s == [] then Err(UnexpectedEOF)
    else if s[0] < 128 then Ok((s[0], 1))
    else match ReadRaw(s[1..], fuel - 1)
      case Err(e) => Err(e)
      case Ok((v, n)) => Ok((s[0] - 128 + 128 * v, n + 1))
  }

  /** A uint64 varint: shifts beyond 64 bits are dropped. */
  function Varint(s: bytes): (r: Result<(nat, nat)>)
    ensures r.Ok? ==> 1 <= r.value.1 <= |s| && r.value.0 < TWO_64
  {
    match ReadRaw(s, MAX_VARINT_LEN)
    case Err(e) => Err(e)
    case Ok((v, n)) => Ok((v % TWO_64, n))
  }

  ghost function Pow128(k: nat): (p: nat)
    ensures p >= 1
  {
    if k == 0 then 1 else 128 * Pow128(k - 1)
  }

  /** Reading inverts writing, whatever follows. */
  lemma {:induction false} RawRoundTrip(v: nat, fuel: nat, rest: bytes)
    requires fuel >= 1 && v < Pow128(fuel)
    ensures ReadRaw(EncVarint(v) + rest, fuel) == Ok((v, |EncVarint(v)|))
  {
    var s := EncVarint(v) + rest;
    assert s[0] == EncVarint(v)[0];
    if v >= 128 {
      RawRoundTrip(v / 128, fuel - 1, rest);
      assert s[1..] == EncVarint(v / 128) + rest;
    }
  }

  lemma Pow128Ten()
    ensures Pow128(10) >= TWO_64
  {
    assert Pow128(5) == 34359738368;
    assert Pow128(10) == 128 * 128 * 128 * 128 * 128 * Pow128(5);
  }

  lemma VarintRoundTrip(v: nat, rest: bytes)
    requires v < TWO_64
    ensures Varint(EncVarint(v) + rest) == Ok((v, |EncVarint(v)|))
  {
    hide ReadRaw, EncVarint;
    Pow128Ten();
    RawRoundTrip(v, 10, rest);
  }

  /** The int32 and int64 field decoders invert the sign-extended encoding of every value;
      a negative value takes all ten bytes. */
  lemma SignedRoundTrip(x: int, rest: bytes)
    requires -TWO_63 <= x < TWO_63
    ensures Varint(EncVarint(ToUint64(x)) + rest) == Ok((ToUint64(x), |EncVarint(ToUint64(x))|))
    ensures ToInt64(ToUint64(x)) == x
    ensures -TWO_31 <= x < TWO_31 ==> ToInt32(ToUint64(x)) == x
    ensures x < 0 ==> |EncVarint(ToUint64(x))| == 10
  {
    hide Varint, EncVarint;
    VarintRoundTrip(ToUint64(x), rest);
    if x < 0 {
      TopBitLength(ToUint64(x));
    }
  }

  lemma TopBitLength(v: nat)
    requires TWO_63 <= v < TWO_64
    ensures |EncVarint(v)| == 10
  {
    LengthBounds(v, 10);
    LengthBounds(v, 9);
    Pow128Ten();
    assert Pow128(9) == 128 * 128 * 128 * 128 * Pow128(5);
    assert Pow128(5) == 34359738368;
  }

  /** A varint of length n holds exactly the values of n groups and no fewer. */
  lemma {:induction false} LengthBounds(v: nat, n: nat)
    requires n >= 1
    ensures |EncVarint(v)| <= n <==> v < Pow128(n)
  {
    if n == 1 {
      assert Pow128(1) == 128;
    } else if v >= 128 {
      LengthBounds(v / 128, n - 1);
    } else {
      assert Pow128(n) == 128 * Pow128(n - 1);
    }
  }

  /** A varint read depends only on the bytes it consumes. */
  lemma {:induction false} ReadRawLocal(a: bytes, t: bytes, fuel: nat)
    requires ReadRaw(a, fuel).Ok?
    requires var n := ReadRaw(a, fuel).value.1; n <= |t| && t[..n] == a[..n]
    ensures ReadRaw(t, fuel) == ReadRaw(a, fuel)
  {
    var n := ReadRaw(a, fuel).value.1;
    assert t[0] == t[..n][0] == a[..n][0] == a[0];
    if a[0] >= 128 {
      assert t[1..][..n - 1] == t[..n][1..] == a[..n][1..] == a[1..][..n - 1];
      ReadRawLocal(a[1..], t[1..], fuel - 1);
    }
  }

  // ---------------------------------------------------------------- sizes

  /** Number of bits needed to write v (zero for zero). */
  function BitLen(v: nat): (n: nat) {
    if v == 0 then 0 else 1 + BitLen(v / 2)
  }

  /** The closed form used to precompute lengths: (bits.Len64(x|1) + 6) / 7. */
  function SizeOfVarint(v: nat): (n: nat) {
    (BitLen(if v % 2 == 0 then v + 1 else v) + 6) / 7
  }

  lemma BitLenSeven(v: nat)
    requires v >= 128
    ensures BitLen(v) == 7 + BitLen(v / 128)
  {
    var a := v / 2;
    var b := a / 2;
    var c := b / 2;
    assert c == v / 8;
    assert BitLen(a) == 1 + BitLen(b);
    assert BitLen(v) == 3 + BitLen(c);
    var d := c / 2;
    var e := d / 2;
    assert e == v / 32;
    assert BitLen(c) == 2 + BitLen(e);
    assert BitLen(e) == 2 + BitLen(e / 2 / 2);
    assert e / 2 / 2 == v / 128;
  }

  /** The precomputed size is the number of bytes actually written. */
  lemma {:induction false} SizeOfVarintExact(v: nat)
    ensures SizeOfVarint(v) == |EncVarint(v)|
  {
    var odd := if v % 2 == 0 then v + 1 else v;
    if v < 128 {
      SmallBitLen(odd);
    } else {
      SizeOfVarintExact(v / 128);
      BitLenSeven(odd);
      assert odd / 128 == v / 128;
      var q := v / 128;
      if q % 2 == 0 { EvenBitLen(q); }
    }
  }

  lemma EvenBitLen(q: nat)
    requires q % 2 == 0 && q > 0
    ensures BitLen(q + 1) == BitLen(q)
  {
    assert (q + 1) / 2 == q / 2;
  }

  lemma SmallBitLen(v: nat)
    requires 1 <= v < 128
    ensures 1 <= BitLen(v) <= 7
  {
    var a := v / 2;
    var b := a / 2;
    var c := b / 2;
    assert c < 16;
    var d := c / 2;
    var e := d / 2;
    assert e < 4;
    assert BitLen(e) <= 2 by { assert e / 2 < 2; assert e / 2 / 2 == 0; }
    assert BitLen(c) <= 4 by { assert BitLen(d) <= 3; }
    assert BitLen(v) <= 7 by { assert BitLen(b) <= 5; assert BitLen(a) <= 6; }
  }

  // ---------------------------------------------------------------- tags

  /** A field key: number and wire type in one varint. */
  function Tag(num: nat, wireType: nat): (s: bytes)
    requires wireType < 8
    ensures |s| >= 1
  {
    EncVarint(num * 8 + wireType)
  }

  /** The field number as the decoder sees it: `int32(wire >> 3)`. */
  function FieldNum(wire: nat): int { ToInt32(wire / 8) }

  function WireType(wire: nat): (t: nat)
    ensures t < 8
  { wire % 8 }

  lemma TagRoundTrip(num: nat, wireType: nat, rest: bytes)
    requires wireType < 8 && num < TWO_31
    ensures Varint(Tag(num, wireType) + rest) == Ok((num * 8 + wireType, |Tag(num, wireType)|))
    ensures FieldNum(num * 8 + wireType) == num && WireType(num * 8 + wireType) == wireType
  {
    hide Varint, EncVarint;
    VarintRoundTrip(num * 8 + wireType, rest);
  }

  // ---------------------------------------------------------------- skipping a field

  /** End index of the payload that starts at `j`, possibly past the end of `s`. */
  function PayloadEnd(s: bytes, j: nat, wireType: nat): (r: Result<nat>)
    requires j <= |s|
    ensures r.Ok? ==> j <= r.value < TWO_63
  {
    var r: Result<nat> :=
      if wireType == 0 then
        (match ReadRaw(s[j..], MAX_VARINT_LEN) case Err(e) => Err(e) case Ok((_, n)) => Ok(j + n))
      else if wireType == 1 then Ok(j + 8)
      else if wireType == 2 then
        (match Varint(s[j..])
         case Err(e) => Err(e)
         case Ok((v, n)) => if ToInt64(v) < 0 then Err(InvalidLength) else Ok(j + n + v))
      else if wireType == 3 || wireType == 4 then Ok(j)
      else if wireType == 5 then Ok(j + 4)
      else Err(IllegalWireType);
    if r.Ok? && r.value >= TWO_63 then Err(InvalidLength) else r
  }

  /** Skips from index `i` with `depth` groups open, up to the end of the outermost field. */
  function SkipFrom(s: bytes, i: nat, depth: nat): (r: Result<nat>)
    ensures r.Ok? ==> i < r.value < TWO_63
    decreases |s| - i
  {
    if i >= |s| then Err(UnexpectedEOF)
    else match Varint(s[i..])
      case Err(e) => Err(e)
      case Ok((wire, n)) =>
        var wt := WireType(wire);
        if wt == 4 && depth == 0 then Err(UnexpectedEndOfGroup)
        else match PayloadEnd(s, i + n, wt)
          case Err(e) => Err(e)
          case Ok(j) =>
            var d := if wt == 3 then depth + 1 else if wt == 4 then depth - 1 else depth;
            if d == 0 then Ok(j) else SkipFrom(s, j, d)
  }

  /** Length of the whole field at the front of `s`; it may exceed |s|, callers check. */
  function Skip(s: bytes): (r: Result<nat>)
    ensures r.Ok? ==> r.value >= 1
  {
    SkipFrom(s, 0, 0)
  }

  /** A varint at index `j` is the same in two inputs that agree up to its end. */
  lemma RawLocalAt(a: bytes, t: bytes, j: nat, n: nat)
    requires j <= n <= |a| && n <= |t| && a[..n] == t[..n]
    requires ReadRaw(a[j..], MAX_VARINT_LEN).Ok? && j + ReadRaw(a[j..], MAX_VARINT_LEN).value.1 <= n
    ensures ReadRaw(t[j..], MAX_VARINT_LEN) == ReadRaw(a[j..], MAX_VARINT_LEN)
  {
    hide ReadRaw;
    var len := ReadRaw(a[j..], MAX_VARINT_LEN).value.1;
    assert a[j..][..len] == a[..n][j..j + len];
    assert t[j..][..len] == t[..n][j..j + len];
    ReadRawLocal(a[j..], t[j..], MAX_VARINT_LEN);
  }

  lemma PayloadEndLocal(a: bytes, t: bytes, j: nat, wireType: nat, n: nat)
    requires j <= n <= |a| && n <= |t| && a[..n] == t[..n]
    requires PayloadEnd(a, j, wireType).Ok? && PayloadEnd(a, j, wireType).value <= n
    ensures PayloadEnd(t, j, wireType) == PayloadEnd(a, j, wireType)
  {
    if wireType == 0 || wireType == 2 {
      RawLocalAt(a, t, j, n);
    }
  }

  /** Skipping depends only on the bytes skipped. */
  lemma {:induction false} SkipLocal(a: bytes, t: bytes, i: nat, depth: nat, n: nat)
    requires SkipFrom(a, i, depth) == Ok(n)
    requires n <= |a| && n <= |t| && a[..n] == t[..n]
    ensures SkipFrom(t, i, depth) == Ok(n)
    decreases |a| - i
  {
    hide ReadRaw, PayloadEnd, WireType;
    var (wire, len) := Varint(a[i..]).value;
    var wt := WireType(wire);
    var j := PayloadEnd(a, i + len, wt).value;
    assert j <= n;
    RawLocalAt(a, t, i, n);
    PayloadEndLocal(a, t, i + len, wt, n);
    var d := if wt == 3 then depth + 1 else if wt == 4 then depth - 1 else depth;
    if d != 0 {
      SkipLocal(a, t, j, d, n);
    }
  }
}
