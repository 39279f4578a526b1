/** Which decoding steps depend only on the bytes they consume. The map-entry loop checks key
    and value lengths against the end of the input instead of the end of the entry, so an
    entry can borrow bytes that are then decoded again as fields. */
module FieldBoundaries {
  import opened Wire
  import opened Messages
  import opened Decoding
  import opened MergeLaws

  /** Where the index stands when the entry loop stops, before it is set back to `post`. */
  ghost function EntryEnd(s: bytes, i: nat, post: nat, base: nat): nat
    requires i <= |s| && post <= |s|
    decreases |s| - i
  {
    if i >= post then i
    else match Varint(s[i..])
      case Err(_) => i
      case Ok((wire, n)) =>
        if FieldNum(wire) == 1 || FieldNum(wire) == 2 then
          match ReadLen(s, i + n, base)
          case Err(_) => i
          case Ok((_, e)) => EntryEnd(s, e, post, base)
        else
          match Skip(s[i..])
          case Err(_) => i
          case Ok(len) => if i + len > post then i else EntryEnd(s, i + len, post, base)
  }

  /** The first field of `s` is a map entry whose key or value ends past the entry. */
  ghost predicate Overruns(sch: Schema, s: bytes, base: nat) {
    && Varint(s).Ok?
    && (var (wire, n) := Varint(s).value;
        var k := Lookup(sch.fields, FieldNum(wire), 0);
        && k < |sch.fields| && sch.fields[k].kind.StrMap?
        && ReadLen(s, n, base).Ok?
        && (var (p, e) := ReadLen(s, n, base).value; EntryEnd(s, p, e, base) > e))
  }

  lemma VarintLocal(s: bytes, n: nat, j: nat)
    requires j <= n <= |s| && Varint(s[j..]).Ok? && j + Varint(s[j..]).value.1 <= n
    ensures Varint(s[..n][j..]) == Varint(s[j..])
  {
    assert s[..n][..n] == s[..n];
    RawLocalAt(s, s[..n], j, n);
  }

  lemma ReadLenLocal(s: bytes, n: nat, j: nat, base: nat)
    requires j <= n <= |s| && ReadLen(s, j, base).Ok? && ReadLen(s, j, base).value.1 <= n
    ensures ReadLen(s[..n], j, base) == ReadLen(s, j, base)
  {
    hide Varint;
    VarintLocal(s, n, j);
  }

  lemma SkipLocalAt(s: bytes, n: nat, i: nat)
    requires i <= n <= |s| && Skip(s[i..]).Ok? && i + Skip(s[i..]).value <= n
    ensures Skip(s[..n][i..]) == Skip(s[i..])
  {
    hide SkipFrom;
    var len := Skip(s[i..]).value;
    assert s[..n][i..][..len] == s[i..][..len];
    SkipLocal(s[i..], s[..n][i..], 0, 0, len);
  }

  /** Cut off at its announced end, an entry is still accepted exactly when the loop stops
      there, and then it gives the same key and value. */
  lemma {:induction false} EntryConfined(s: bytes, i: nat, post: nat, key: bytes, val: bytes, base: nat)
    requires i <= post <= |s| && ParseEntry(s, i, post, key, val, base).Ok?
    ensures EntryEnd(s, i, post, base) >= post
    ensures EntryEnd(s, i, post, base) == post ==>
      ParseEntry(s[..post], i, post, key, val, base) == ParseEntry(s, i, post, key, val, base)
    ensures EntryEnd(s, i, post, base) > post ==> ParseEntry(s[..post], i, post, key, val, base).Err?
    decreases |s| - i
  {
    hide Varint, ReadLen, Skip, FieldNum;
    if i < post {
      var t := s[..post];
      assert s == t + s[post..];
      var (wire, n) := Varint(s[i..]).value;
      var num := FieldNum(wire);
      if num == 1 || num == 2 {
        var (p, e) := ReadLen(s, i + n, base).value;
        if e <= post {
          VarintLocal(s, post, i);
          ReadLenLocal(s, post, i + n, base);
          assert t[p..e] == s[p..e];
          if num == 1 {
            EntryConfined(s, e, post, s[p..e], val, base);
          } else {
            EntryConfined(s, e, post, key, s[p..e], base);
          }
        } else {
          CutShort(s, i, post, key, val, base);
        }
      } else {
        var len := Skip(s[i..]).value;
        VarintInSkip(s[i..]);
        VarintLocal(s, post, i);
        SkipLocalAt(s, post, i);
        EntryConfined(s, i + len, post, key, val, base);
      }
    }
  }

  lemma VarintInSkip(s: bytes)
    requires Varint(s).Ok? && Skip(s).Ok?
    ensures Varint(s).value.1 <= Skip(s).value
  {
    hide ReadRaw, PayloadEnd;
    assert s[0..] == s;
  }

  /** A string that ends past `post` makes the truncated entry fail. */
  lemma CutShort(s: bytes, i: nat, post: nat, key: bytes, val: bytes, base: nat)
    requires i < post <= |s| && Varint(s[i..]).Ok?
    requires var (wire, n) := Varint(s[i..]).value;
      && (FieldNum(wire) == 1 || FieldNum(wire) == 2)
      && ReadLen(s, i + n, base).Ok? && ReadLen(s, i + n, base).value.1 > post
    ensures ParseEntry(s[..post], i, post, key, val, base).Err?
    ensures EntryEnd(s, i, post, base) > post
  {
    hide Varint, FieldNum, ReadLen;
    var t := s[..post];
    assert s == t + s[post..];
    if Varint(t[i..]).Ok? {
      VarintExtends(t, s[post..], i);
      var n := Varint(t[i..]).value.1;
      if ReadLen(t, i + n, base).Ok? {
        ReadLenExtends(t, s[post..], i + n, base);
      }
    }
  }

  lemma FieldSelfContained(f: Field, v: Val, s: bytes, j: nat, wt: nat, base: nat)
    requires TypedVal(f.kind, v) && j <= |s| && DecodeField(f, v, s, j, wt, base).Ok?
    ensures var (v', n) := DecodeField(f, v, s, j, wt, base).value;
      if f.kind.StrMap? && EntryEnd(s, ReadLen(s, j, base).value.0, n, base) > n then
        DecodeField(f, v, s[..n], j, wt, base).Err?
      else DecodeField(f, v, s[..n], j, wt, base) == Ok((v', n))
  {
    hide Varint, ReadLen, EntryEnd, ParseEntry, Decode;
    var n := DecodeField(f, v, s, j, wt, base).value.1;
    if wt == 0 {
      VarintLocal(s, n, j);
    } else {
      ReadLenLocal(s, n, j, base);
      var (p, e) := ReadLen(s, j, base).value;
      assert s[..n][p..e] == s[p..e];
      if f.kind.StrMap? {
        EntryConfined(s, p, e, [], [], base);
      }
    }
  }

  /** An accepted step, cut off right after the bytes it consumes, is still accepted with the
      same result exactly when it is not a map entry that runs over its end. */
  lemma StepSelfContained(sch: Schema, m: Msg, s: bytes, base: nat)
    requires Typed(sch, m) && Step(sch, m, s, base).Ok?
    ensures var n := Step(sch, m, s, base).value.1;
      Step(sch, m, s[..n], base) == Step(sch, m, s, base) <==> !Overruns(sch, s, base)
  {
    hide Varint, Skip, EntryEnd, ReadLen;
    var (m', n) := Step(sch, m, s, base).value;
    var (wire, j) := Varint(s).value;
    assert s[0..] == s && s[..n][0..] == s[..n];
    var k := Lookup(sch.fields, FieldNum(wire), 0);
    if k == |sch.fields| {
      VarintInSkip(s);
      VarintLocal(s, n, 0);
      SkipLocalAt(s, n, 0);
      assert s[..n][..n] == s[..n];
    } else {
      VarintLocal(s, n, 0);
      FieldSelfContained(sch.fields[k], m.vals[k], s, j, WireType(wire), base);
    }
  }
}
