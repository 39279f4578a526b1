/** What the decoder makes of input that the encoder need not have written: varints of any
    length and value, keys it refuses, and map entries with records left out or repeated. */
module DecodedValues {
  import opened Wire
  import opened Messages
  import opened Encoding
  import opened Decoding
  import opened RoundTrip

  // ---------------------------------------------------------------- varints

  /** The first byte of `s` without its high bit set is number `n`. */
  ghost predicate EndsAt(s: bytes, n: nat) {
    1 <= n <= |s| && s[n - 1] < 128 && forall i | 0 <= i < n - 1 :: s[i] >= 128
  }

  /** The value of seven-bit groups, low group first. */
  function Groups(b: bytes): nat {
    if b == [] then 0 else b[0] % 128 + 128 * Groups(b[1..])
  }

  lemma {:induction false} RawReads(s: bytes, n: nat, fuel: nat)
    requires EndsAt(s, n) && n <= fuel
    ensures ReadRaw(s, fuel) == Ok((Groups(s[..n]), n))
    decreases n
  {
    assert s[..n][1..] == s[1..n];
    if n == 1 {
      assert Groups(s[1..1]) == 0;
    } else {
      assert EndsAt(s[1..], n - 1) by {
        assert forall i | 0 <= i < n - 1 :: s[1..][i] == s[i + 1];
      }
      RawReads(s[1..], n - 1, fuel - 1);
      assert s[1..][..n - 1] == s[1..n];
    }
  }

  lemma {:induction false} RawFails(s: bytes, fuel: nat)
    requires forall i | 0 <= i < |s| && i < fuel :: s[i] >= 128
    ensures ReadRaw(s, fuel) == Err(if fuel <= |s| then IntOverflow else UnexpectedEOF)
    decreases fuel
  {
    if fuel > 0 && s != [] {
      assert forall i | 0 <= i < |s[1..]| :: s[1..][i] == s[i + 1];
      RawFails(s[1..], fuel - 1);
    }
  }

  /** Reading a varint, minimal or not: up to ten bytes, the groups modulo 2^64; longer ones
      overflow, unfinished ones run into the end. */
  lemma VarintExactly(s: bytes, n: nat)
    ensures EndsAt(s, n) && n <= 10 ==> Varint(s) == Ok((Groups(s[..n]) % 0x1_0000_0000_0000_0000, n))
    ensures |s| >= 10 && (forall i | 0 <= i < 10 :: s[i] >= 128) ==> Varint(s) == Err(IntOverflow)
    ensures |s| < 10 && (forall i | 0 <= i < |s| :: s[i] >= 128) ==> Varint(s) == Err(UnexpectedEOF)
  {
    hide ReadRaw, Groups;
    if EndsAt(s, n) && n <= 10 {
      RawReads(s, n, 10);
    }
    if forall i | 0 <= i < |s| && i < 10 :: s[i] >= 128 {
      RawFails(s, 10);
    }
  }

  /** The varint written is the shortest: its groups make up the value, and the last is not
      zero unless it is the only one. */
  lemma {:induction false} EncVarintExactly(v: nat)
    ensures var e := EncVarint(v);
      EndsAt(e, |e|) && Groups(e) == v && (|e| > 1 ==> e[|e| - 1] > 0)
  {
    if v >= 128 {
      EncVarintExactly(v / 128);
      var e, rest := EncVarint(v), EncVarint(v / 128);
      assert e[1..] == rest;
      assert forall i | 1 <= i < |e| :: e[i] == rest[i - 1];
    }
  }

  // ---------------------------------------------------------------- fields

  /** A field key is refused when it ends a group, has no positive number, or has a known
      number with a wire type that is not that of its field. */
  lemma KeyChecks(sch: Schema, m: Msg, s: bytes, base: nat)
    requires Typed(sch, m)
    ensures Varint(s).Err? ==> Step(sch, m, s, base) == Err(Varint(s).error)
    ensures Varint(s).Ok? ==>
      var wire := Varint(s).value.0;
      var num := ToInt32(wire / 8);
      if wire % 8 == 4 then Step(sch, m, s, base) == Err(EndGroup)
      else if num <= 0 then Step(sch, m, s, base) == Err(IllegalTag)
      else forall k | 0 <= k < |sch.fields| && sch.fields[k].num == num
          && (forall j | 0 <= j < k :: sch.fields[j].num != num) ::
        (wire % 8 == (if sch.fields[k].kind.Int32? || sch.fields[k].kind.Int64? || sch.fields[k].kind.Bool? then 0 else 2))
        || Step(sch, m, s, base) == Err(WrongWireType)
  {
    hide Varint, Skip, ToInt32;
    if Varint(s).Ok? {
      var wire := Varint(s).value.0;
      LookupFirst(sch.fields, FieldNum(wire));
    }
  }

  lemma LookupFirst(fields: seq<Field>, num: int)
    ensures forall k | 0 <= k < |fields| && fields[k].num == num && (forall j | 0 <= j < k :: fields[j].num != num) ::
      Lookup(fields, num, 0) == k
  {
    LookupBefore(fields, num, 0);
  }

  lemma {:induction false} LookupBefore(fields: seq<Field>, num: int, k: nat)
    requires k <= |fields|
    ensures forall j | k <= j < Lookup(fields, num, k) :: fields[j].num != num
    decreases |fields| - k
  {
    if k < |fields| && fields[k].num != num {
      LookupBefore(fields, num, k + 1);
    }
  }

  /** Any uint64 is accepted for an integer or a flag: integers are truncated to their width,
      and a flag is true unless it is zero. */
  lemma VarintFieldDecodes(sch: Schema, m: Msg, k: nat, x: nat, base: nat)
    requires ValidSchema(sch) && Typed(sch, m) && k < |sch.fields| && x < TWO_64
    requires var kind := sch.fields[k].kind; kind.Int32? || kind.Int64? || kind.Bool?
    ensures var kind := sch.fields[k].kind;
      var v := if kind.Int32? then VInt(ToInt32(x)) else if kind.Int64? then VInt(ToInt64(x)) else VBool(x != 0);
      Decode(sch, m, TagOf(sch.fields[k]) + EncVarint(x), base) == Ok(SetVal(m, k, v))
  {
    hide Varint, EncVarint, Decode, TagOf, ToInt32, ToInt64;
    var tag, body := TagOf(sch.fields[k]), EncVarint(x);
    var s := tag + body;
    assert s[|tag|..] == body == body + [];
    VarintRoundTrip(x, []);
    FieldDecodes(sch, m, k, s, body, FromVarint(sch.fields[k].kind, x), base);
  }

  // ---------------------------------------------------------------- map entries

  datatype EntryRecord = Key(text: bytes) | Value(text: bytes)

  function RecordBytes(r: EntryRecord): bytes {
    Delimited(if r.Key? then [0x0a] else [0x12], r.text)
  }

  function EntryBytes(rs: seq<EntryRecord>): bytes {
    if rs == [] then [] else RecordBytes(rs[0]) + EntryBytes(rs[1..])
  }

  /** The last key, or `key` when there is none; likewise for the value. */
  function LastKey(rs: seq<EntryRecord>, key: bytes): bytes {
    if rs == [] then key else LastKey(rs[1..], if rs[0].Key? then rs[0].text else key)
  }

  function LastValue(rs: seq<EntryRecord>, val: bytes): bytes {
    if rs == [] then val else LastValue(rs[1..], if rs[0].Value? then rs[0].text else val)
  }

  lemma RecordAt(s: bytes, i: nat, r: EntryRecord, rest: bytes, base: nat)
    requires i <= |s| && s[i..] == RecordBytes(r) + rest && base + |s| < TWO_63
    ensures i < i + |RecordBytes(r)| <= |s| && s[i + |RecordBytes(r)|..] == rest
    ensures Varint(s[i..]) == Ok((if r.Key? then 10 else 18, 1))
    ensures var e := i + |RecordBytes(r)|; ReadLen(s, i + 1, base) == Ok((e - |r.text|, e)) && s[e - |r.text|..e] == r.text
  {
    hide Varint, ReadLen, Delimited;
    var tag := if r.Key? then KEY_TAG else VALUE_TAG;
    DelimitedAt(s, i, tag, r.text, rest, base);
    DelimitedStart(tag, r.text, rest);
    KeyValueTags(EncVarint(|r.text|) + r.text + rest);
    assert s[i..][|RecordBytes(r)|..] == rest;
  }

  lemma {:induction false} EntryRecordsFrom(s: bytes, i: nat, rs: seq<EntryRecord>, key: bytes, val: bytes, base: nat)
    requires i <= |s| && s[i..] == EntryBytes(rs) && base + |s| < TWO_63
    ensures ParseEntry(s, i, |s|, key, val, base) == Ok((LastKey(rs, key), LastValue(rs, val)))
    decreases |rs|
  {
    hide Varint, ReadLen, RecordBytes, FieldNum;
    if rs != [] {
      var e := i + |RecordBytes(rs[0])|;
      RecordAt(s, i, rs[0], EntryBytes(rs[1..]), base);
      assert FieldNum(10) == 1 && FieldNum(18) == 2 by { KeyValueTags([]); }
      EntryRecordsFrom(s, e, rs[1..], if rs[0].Key? then rs[0].text else key, if rs[0].Value? then rs[0].text else val, base);
    } else {
      assert i == |s|;
    }
  }

  /** Within one map entry the last key and the last value count, and a missing one is empty. */
  lemma EntryRecords(rs: seq<EntryRecord>, base: nat)
    requires base + |EntryBytes(rs)| < TWO_63
    ensures var s := EntryBytes(rs); ParseEntry(s, 0, |s|, [], [], base) == Ok((LastKey(rs, []), LastValue(rs, [])))
  {
    hide ParseEntry;
    var s := EntryBytes(rs);
    assert s[0..] == s;
    EntryRecordsFrom(s, 0, rs, [], [], base);
  }
}
