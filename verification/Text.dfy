/** The text functions the vault code takes from Go's library: strings.Split and Join,
    strconv.Atoi with decimal formatting, and standard base64 (section 4 of RFC 4648). */
module Text {
  import opened Wire

  // ---------------------------------------------------------------- split

  /** strings.Split with a one-character separator: never empty. */
  function Split(s: string, sep: char): (parts: seq<string>)
    ensures |parts| >= 1
  {
    if s == [] then [[]]
    else
      var rest := Split(s[1..], sep);
      if s[0] == sep then [[]] + rest else [[s[0]] + rest[0]] + rest[1..]
  }

  function Join(parts: seq<string>, sep: char): string
    requires |parts| >= 1
  {
    if |parts| == 1 then parts[0] else parts[0] + [sep] + Join(parts[1..], sep)
  }

  /** Splitting loses nothing, and no part holds the separator. */
  lemma {:induction false} JoinSplit(s: string, sep: char)
    ensures Join(Split(s, sep), sep) == s
    ensures forall p | p in Split(s, sep) :: sep !in p
    decreases |s|
  {
    if s != [] {
      JoinSplit(s[1..], sep);
      var rest := Split(s[1..], sep);
      var parts := Split(s, sep);
      if s[0] == sep {
        assert parts[1..] == rest;
        assert [] + [sep] + s[1..] == s;
      } else {
        assert parts[1..] == rest[1..];
        assert Join(parts, sep) == [s[0]] + Join(rest, sep) by {
          if |rest| > 1 {
            assert [s[0]] + rest[0] + [sep] + Join(rest[1..], sep) == [s[0]] + (rest[0] + [sep] + Join(rest[1..], sep));
          }
        }
        assert rest[0] in rest;
      }
    }
  }

  lemma {:induction false} SplitWhole(a: string, sep: char)
    requires sep !in a
    ensures Split(a, sep) == [a]
    decreases |a|
  {
    if a != [] {
      SplitWhole(a[1..], sep);
      assert [a[0]] + a[1..] == a;
    }
  }

  lemma {:induction false} SplitFirst(a: string, b: string, sep: char)
    requires sep !in a
    ensures Split(a + [sep] + b, sep) == [a] + Split(b, sep)
    decreases |a|
  {
    var s := a + [sep] + b;
    if a == [] {
      assert s[1..] == b;
    } else {
      assert s[1..] == a[1..] + [sep] + b;
      SplitFirst(a[1..], b, sep);
      assert [a[0]] + a[1..] == a;
    }
  }

  lemma SplitThree(a: string, b: string, c: string, sep: char)
    requires sep !in a && sep !in b && sep !in c
    ensures Split(a + [sep] + b + [sep] + c, sep) == [a, b, c]
  {
    assert a + [sep] + b + [sep] + c == a + [sep] + (b + [sep] + c);
    SplitFirst(a, b + [sep] + c, sep);
    SplitFirst(b, c, sep);
    SplitWhole(c, sep);
  }

  // ---------------------------------------------------------------- decimal

  predicate IsDigit(c: char) { '0' <= c <= '9' }

  function DigitChar(d: nat): (c: char)
    requires d < 10
    ensures IsDigit(c)
  {
    ('0' as int + d) as char
  }

  function FormatNat(n: nat): (s: string)
    ensures |s| >= 1 && forall c | c in s :: IsDigit(c)
  {
    if n < 10 then [DigitChar(n)] else FormatNat(n / 10) + [DigitChar(n % 10)]
  }

  /** The %d verb. */
  function FormatInt(v: int): string {
    if v < 0 then "-" + FormatNat(-v) else FormatNat(v)
  }

  function ParseNat(s: string): Option<nat> {
    if s == [] || !IsDigit(s[|s| - 1]) then None
    else
      var d := s[|s| - 1] as int - '0' as int;
      if |s| == 1 then Some(d)
      else match ParseNat(s[..|s| - 1])
        case None => None
        case Some(n) => Some(10 * n + d)
  }

  /** strconv.Atoi: an optional sign, at least one digit, and a value that fits int64. */
  function Atoi(s: string): (r: Option<int>)
    ensures r.Some? ==> -TWO_63 <= r.value < TWO_63
  {
    var negative := s != [] && s[0] == '-';
    var digits := if negative || (s != [] && s[0] == '+') then s[1..] else s;
    match ParseNat(digits)
    case None => None
    case Some(n) =>
      var v := if negative then 0 - (n as int) else n as int;
      if -TWO_63 <= v < TWO_63 then Some(v) else None
  }

  lemma {:induction false} ParseFormatNat(n: nat)
    ensures ParseNat(FormatNat(n)) == Some(n)
  {
    if n >= 10 {
      ParseFormatNat(n / 10);
      var s := FormatNat(n);
      assert s[..|s| - 1] == FormatNat(n / 10);
    }
  }

  /** Every int64 parses back from its decimal form, which holds digits and a sign only. */
  lemma AtoiFormat(v: int)
    requires -TWO_63 <= v < TWO_63
    ensures Atoi(FormatInt(v)) == Some(v)
    ensures |FormatInt(v)| >= 1 && forall c | c in FormatInt(v) :: IsDigit(c) || c == '-'
  {
    hide FormatNat, ParseNat;
    if v < 0 {
      ParseFormatNat(-v);
      assert FormatInt(v)[1..] == FormatNat(-v);
    } else {
      ParseFormatNat(v);
      assert FormatNat(v)[0] in FormatNat(v);
    }
  }

  /** The number that digits stand for, read from left to right. */
  function Horner(s: string, acc: nat): nat
    requires forall c | c in s :: IsDigit(c)
  {
    if s == [] then acc else assert IsDigit(s[0]); Horner(s[1..], 10 * acc + (s[0] as int - '0' as int))
  }

  lemma {:induction false} HornerSnoc(s: string, c: char, acc: nat)
    requires IsDigit(c) && forall d | d in s :: IsDigit(d)
    ensures Horner(s + [c], acc) == 10 * Horner(s, acc) + (c as int - '0' as int)
    decreases |s|
  {
    if s != [] {
      assert (s + [c])[1..] == s[1..] + [c];
      assert IsDigit(s[0]);
      HornerSnoc(s[1..], c, 10 * acc + (s[0] as int - '0' as int));
    }
  }

  predicate IsNumeral(s: string) { s != [] && forall c | c in s :: IsDigit(c) }

  lemma {:induction false} ParseHorner(s: string)
    ensures ParseNat(s) == if IsNumeral(s) then Some(Horner(s, 0)) else None
    decreases |s|
  {
    if s != [] {
      var init, last := s[..|s| - 1], s[|s| - 1];
      assert s == init + [last];
      ParseHorner(init);
      if IsNumeral(s) {
        HornerSnoc(init, last, 0);
      }
    }
  }

  /** `s` is `digits` with an optional sign. */
  predicate Signed(s: string, digits: string, negative: bool) {
    if negative then s == "-" + digits else s == digits || s == "+" + digits
  }

  /** The numerals that Atoi reads, as text and value. */
  ghost predicate Reads(s: string, digits: string, v: int) {
    && IsNumeral(digits) && -TWO_63 <= v < TWO_63
    && ((Signed(s, digits, false) && v == Horner(digits, 0)) || (Signed(s, digits, true) && v == -(Horner(digits, 0) as int)))
  }

  /** Exactly the decimal numerals with an optional sign and an int64 value are read. */
  lemma AtoiExactly(s: string, v: int)
    ensures Atoi(s) == Some(v) <==> exists digits :: Reads(s, digits, v)
  {
    hide ParseNat, Horner;
    var digits := if s != [] && (s[0] == '-' || s[0] == '+') then s[1..] else s;
    ParseHorner(digits);
    if Atoi(s) == Some(v) {
      assert s != [];
      assert s[0] == '-' ==> s == "-" + digits;
      assert s[0] == '+' ==> s == "+" + digits;
      assert Reads(s, digits, v);
    }
    forall d | Reads(s, d, v) ensures d == digits {
      assert d[0] in d;
      assert s == "-" + d ==> s[1..] == d;
      assert s == "+" + d ==> s[1..] == d;
    }
  }

  lemma {:induction false} NoLeadingZero(n: nat)
    requires n > 0
    ensures FormatNat(n)[0] != '0'
  {
    if n >= 10 {
      NoLeadingZero(n / 10);
      assert FormatNat(n)[0] == FormatNat(n / 10)[0];
    }
  }

  /** The decimal form: digits of that value without a leading zero, after a minus if negative. */
  lemma FormatExactly(v: int)
    ensures var digits := FormatNat(if v < 0 then -v else v);
      && IsNumeral(digits) && Horner(digits, 0) == (if v < 0 then -v else v)
      && (v != 0 ==> digits[0] != '0') && FormatInt(v) == (if v < 0 then "-" + digits else digits)
    ensures FormatInt(0) == "0"
  {
    hide ParseNat, Horner;
    var n := if v < 0 then -v else v;
    ParseFormatNat(n);
    ParseHorner(FormatNat(n));
    if n > 0 {
      NoLeadingZero(n);
    }
  }

  // ---------------------------------------------------------------- base64

  function Sextet(d: nat): (c: char)
    requires d < 64
  {
    if d < 26 then ('A' as int + d) as char
    else if d < 52 then ('a' as int + (d - 26)) as char
    else if d < 62 then ('0' as int + (d - 52)) as char
    else if d == 62 then '+' else '/'
  }

  function SextetOf(c: char): (r: Option<nat>)
    ensures r.Some? ==> r.value < 64
  {
    if 'A' <= c <= 'Z' then Some(c as int - 'A' as int)
    else if 'a' <= c <= 'z' then Some(c as int - 'a' as int + 26)
    else if '0' <= c <= '9' then Some(c as int - '0' as int + 52)
    else if c == '+' then Some(62)
    else if c == '/' then Some(63)
    else None
  }

  lemma SextetRoundTrip(d: nat)
    requires d < 64
    ensures SextetOf(Sextet(d)) == Some(d)
  {}

  /** Three bytes as one 24-bit number. */
  function Word(b0: byte, b1: byte, b2: byte): nat { b0 * 65536 + b1 * 256 + b2 }

  function Base64Encode(b: bytes): string {
    if b == [] then []
    else if |b| == 1 then
      var n := Word(b[0], 0, 0);
      [Sextet(n / 262144), Sextet(n / 4096 % 64), '=', '=']
    else if |b| == 2 then
      var n := Word(b[0], b[1], 0);
      [Sextet(n / 262144), Sextet(n / 4096 % 64), Sextet(n / 64 % 64), '=']
    else
      var n := Word(b[0], b[1], b[2]);
      [Sextet(n / 262144), Sextet(n / 4096 % 64), Sextet(n / 64 % 64), Sextet(n % 64)] + Base64Encode(b[3..])
  }

  /** Three bytes at a time. */
  lemma GroupByGroup(a: bytes, b: bytes)
    requires |a| == 3
    ensures Base64Encode(a + b) == Base64Encode(a) + Base64Encode(b)
  {
    hide Sextet, Word;
    assert (a + b)[3..] == b && a[3..] == [];
  }

  /** Test vectors of section 10 of RFC 4648, and the last two characters of its alphabet. */
  lemma Vectors()
    ensures Base64Encode([102]) == "Zg==" && Base64Encode([102, 111]) == "Zm8=" && Base64Encode([102, 111, 111]) == "Zm9v"
    ensures Base64Encode([251, 255]) == "+/8="
  {
    var b: bytes := [102, 111, 111];
    assert b[3..] == [];
  }

  /** Line breaks are skipped by the decoder. */
  function StripBreaks(s: string): string {
    if s == [] then []
    else (if s[0] == '\r' || s[0] == '\n' then [] else [s[0]]) + StripBreaks(s[1..])
  }

  /** Groups of four; padding only in the last one. Trailing bits under the padding are not
      checked, as in the decoder's default mode. */
  function DecodeGroups(s: string): Option<bytes> {
    if s == [] then Some([])
    else if |s| < 4 || SextetOf(s[0]).None? || SextetOf(s[1]).None? then None
    else
      var hi := SextetOf(s[0]).value * 262144 + SextetOf(s[1]).value * 4096;
      if s[2] == '=' then
        if s[3] == '=' && |s| == 4 then Some([hi / 65536]) else None
      else if SextetOf(s[2]).None? then None
      else
        var mid := hi + SextetOf(s[2]).value * 64;
        if s[3] == '=' then
          if |s| == 4 then Some([mid / 65536, mid / 256 % 256]) else None
        else if SextetOf(s[3]).None? then None
        else
          var n := mid + SextetOf(s[3]).value;
          match DecodeGroups(s[4..])
          case None => None
          case Some(rest) => Some([n / 65536, n / 256 % 256, n % 256] + rest)
  }

  function Base64Decode(s: string): Option<bytes> {
    DecodeGroups(StripBreaks(s))
  }

  /** The sextets of a 24-bit number, put together again. */
  lemma SextetsOfWord(n: nat)
    requires n < 16777216
    ensures n / 262144 < 64
    ensures n / 262144 * 262144 + n / 4096 % 64 * 4096 + n / 64 % 64 * 64 + n % 64 == n
  {
    var q0 := n / 64;
    var q1 := q0 / 64;
    var q2 := q1 / 64;
    assert q1 == n / 4096 && q2 == n / 262144;
    assert q0 == 64 * q1 + q0 % 64 && q1 == 64 * q2 + q1 % 64;
  }

  lemma BytesOfWord(b0: byte, b1: byte, b2: byte)
    ensures var n := Word(b0, b1, b2);
      n < 16777216 && n / 65536 == b0 && n / 256 % 256 == b1 && n % 256 == b2
  {
    var n := Word(b0, b1, b2);
    assert n == (b0 * 256 + b1) * 256 + b2;
    assert n / 256 == b0 * 256 + b1;
    assert (b0 * 256 + b1) % 256 == b1;
  }

  /** Four characters that stand for the number n decode to its three bytes. */
  lemma WordChars(b0: byte, b1: byte, b2: byte)
    ensures var n := Word(b0, b1, b2);
      && n < 16777216 && n / 262144 < 64
      && SextetOf(Sextet(n / 262144)) == Some(n / 262144)
      && SextetOf(Sextet(n / 4096 % 64)) == Some(n / 4096 % 64)
      && SextetOf(Sextet(n / 64 % 64)) == Some(n / 64 % 64)
      && SextetOf(Sextet(n % 64)) == Some(n % 64)
      && n / 262144 * 262144 + n / 4096 % 64 * 4096 + n / 64 % 64 * 64 + n % 64 == n
      && n / 65536 == b0 && n / 256 % 256 == b1 && n % 256 == b2
  {
    hide SextetOf, Sextet, Word;
    var n := Word(b0, b1, b2);
    BytesOfWord(b0, b1, b2);
    SextetsOfWord(n);
    SextetRoundTrip(n / 262144);
    SextetRoundTrip(n / 4096 % 64);
    SextetRoundTrip(n / 64 % 64);
    SextetRoundTrip(n % 64);
  }

  /** A four-character group in front of more groups. */
  lemma FullGroup(b0: byte, b1: byte, b2: byte, rest: string)
    ensures var n := Word(b0, b1, b2); n / 262144 < 64
    ensures
      var n := Word(b0, b1, b2);
      DecodeGroups([Sextet(n / 262144), Sextet(n / 4096 % 64), Sextet(n / 64 % 64), Sextet(n % 64)] + rest)
        == match DecodeGroups(rest) case None => None case Some(t) => Some([b0, b1, b2] + t)
  {
    WordChars(b0, b1, b2);
    PaddingIsNoSextet();
    hide SextetOf, Sextet, Word;
    var n := Word(b0, b1, b2);
    var s := [Sextet(n / 262144), Sextet(n / 4096 % 64), Sextet(n / 64 % 64), Sextet(n % 64)] + rest;
    assert s[4..] == rest;
  }

  lemma TwoByteGroup(b0: byte, b1: byte)
    ensures DecodeGroups(Base64Encode([b0, b1])) == Some([b0, b1])
  {
    WordChars(b0, b1, 0);
    LowBitsZero(b0, b1);
    PaddingIsNoSextet();
    hide SextetOf, Sextet, Word;
  }

  lemma OneByteGroup(b0: byte)
    ensures DecodeGroups(Base64Encode([b0])) == Some([b0])
  {
    hide DecodeGroups;
    var n := Word(b0, 0, 0);
    var p, q := n / 262144, n / 4096 % 64;
    assert SextetOf(Sextet(p)) == Some(p) && SextetOf(Sextet(q)) == Some(q) && (p * 262144 + q * 4096) / 65536 == b0 by {
      BytesOfWord(b0, 0, 0);
      WordChars(b0, 0, 0);
      LowBitsZero(b0, 0);
    }
    OnePadded(Sextet(p), Sextet(q), p, q);
  }

  /** A last group with two padding characters gives the top byte of its word. */
  lemma OnePadded(c: char, d: char, p: nat, q: nat)
    requires SextetOf(c) == Some(p) && SextetOf(d) == Some(q)
    ensures DecodeGroups([c, d, '=', '=']) == Some([(p * 262144 + q * 4096) / 65536])
  {
    hide SextetOf;
  }

  lemma {:induction false} GroupsRoundTrip(b: bytes)
    ensures DecodeGroups(Base64Encode(b)) == Some(b)
    decreases |b|
  {
    hide SextetOf, Sextet, Word, DecodeGroups;
    if |b| >= 3 {
      GroupsRoundTrip(b[3..]);
      FullGroup(b[0], b[1], b[2], Base64Encode(b[3..]));
      assert [b[0], b[1], b[2]] + b[3..] == b;
    } else if |b| == 2 {
      TwoByteGroup(b[0], b[1]);
      assert b == [b[0], b[1]];
    } else if |b| == 1 {
      OneByteGroup(b[0]);
      assert b == [b[0]];
    } else {
      EmptyGroups();
    }
  }

  lemma TwoPadded(c: char, d: char, e: char, p: nat, q: nat, r: nat)
    requires SextetOf(c) == Some(p) && SextetOf(d) == Some(q) && SextetOf(e) == Some(r)
    ensures var n := p * 262144 + q * 4096 + r * 64;
      DecodeGroups([c, d, e, '=']) == Some([n / 65536, n / 256 % 256])
  {
    PaddingIsNoSextet();
    hide SextetOf;
  }

  lemma {:induction false} StripAppend(a: string, b: string)
    ensures StripBreaks(a + b) == StripBreaks(a) + StripBreaks(b)
    decreases |a|
  {
    if a == [] {
      assert a + b == b;
    } else {
      assert (a + b)[1..] == a[1..] + b;
      StripAppend(a[1..], b);
    }
  }

  /** A line break anywhere in base64 text makes no difference. */
  lemma BreaksIgnored(a: string, b: string, c: char)
    requires c == '\r' || c == '\n'
    ensures Base64Decode(a + [c] + b) == Base64Decode(a + b)
  {
    hide DecodeGroups;
    StripAppend(a + [c], b);
    StripAppend(a, [c]);
    StripAppend(a, b);
    assert StripBreaks([c]) == [];
    assert StripBreaks(a) + [] == StripBreaks(a);
  }

  /** Whole groups of the alphabet are required, and padding only at the end. */
  lemma {:induction false} DecodedForm(s: string)
    requires DecodeGroups(s).Some?
    ensures |s| % 4 == 0
    ensures forall i | 0 <= i < |s| :: SextetOf(s[i]).Some? || (s[i] == '=' && i >= |s| - 2)
    decreases |s|
  {
    hide SextetOf;
    if |s| > 4 {
      DecodedForm(s[4..]);
      forall i | 0 <= i < |s| ensures SextetOf(s[i]).Some? || (s[i] == '=' && i >= |s| - 2) {
        if i >= 4 {
          assert s[i] == s[4..][i - 4];
        }
      }
    }
  }

  lemma EmptyGroups()
    ensures DecodeGroups([]) == Some([])
  {}

  lemma PaddingIsNoSextet()
    ensures SextetOf('=') == None
  {}

  lemma LowBitsZero(b0: byte, b1: byte)
    ensures var n := Word(b0, b1, 0);
      n % 64 == 0 && (b1 == 0 ==> n / 64 % 64 == 0)
  {
    var n := Word(b0, b1, 0);
    var q := b0 * 1024 + b1 * 4;
    assert n == 64 * q;
    assert n / 64 == q;
    if b1 == 0 {
      assert q == 64 * (16 * b0);
    }
  }

  lemma {:induction false} EncodedChars(b: bytes)
    ensures forall c | c in Base64Encode(b) :: c == '=' || SextetOf(c).Some?
    decreases |b|
  {
    hide SextetOf, Sextet, Word;
    forall d: nat | d < 64 ensures SextetOf(Sextet(d)) == Some(d) {
      SextetRoundTrip(d);
    }
    if b != [] {
      var n := Word(b[0], if |b| > 1 then b[1] else 0, if |b| > 2 then b[2] else 0);
      BytesOfWord(b[0], if |b| > 1 then b[1] else 0, if |b| > 2 then b[2] else 0);
      SextetsOfWord(n);
      if |b| > 2 {
        EncodedChars(b[3..]);
      }
    }
  }

  lemma {:induction false} NothingToStrip(s: string)
    requires forall i | 0 <= i < |s| :: s[i] != '\r' && s[i] != '\n'
    ensures StripBreaks(s) == s
    decreases |s|
  {
    if s != [] {
      NothingToStrip(s[1..]);
      assert [s[0]] + s[1..] == s;
    }
  }

  /** Decoding inverts encoding, and the encoding holds no separator or line break. */
  lemma Base64RoundTrip(b: bytes)
    ensures Base64Decode(Base64Encode(b)) == Some(b)
    ensures ':' !in Base64Encode(b)
  {
    GroupsRoundTrip(b);
    EncodedChars(b);
    var e := Base64Encode(b);
    forall c | c in e ensures c != '\r' && c != '\n' && c != ':' {
      assert c == '=' || SextetOf(c).Some?;
    }
    forall i | 0 <= i < |e| ensures e[i] != '\r' && e[i] != '\n' {
      assert e[i] in e;
    }
    NothingToStrip(e);
  }
}
