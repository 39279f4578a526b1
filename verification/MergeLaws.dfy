/** Decoding a concatenation is decoding its parts one on top of the other. */
module MergeLaws {
  import opened Wire
  import opened Messages
  import opened Decoding

  /** Same success with the same value; failures may carry different errors. */
  ghost predicate SameOutcome<T>(x: Result<T>, y: Result<T>) {
    x.Ok? == y.Ok? && (x.Ok? ==> x.value == y.value)
  }

  // ------------------------------------------------ more input after what is read

  lemma VarintExtends(a: bytes, b: bytes, j: nat)
    requires j <= |a| && Varint(a[j..]).Ok?
    ensures Varint((a + b)[j..]) == Varint(a[j..])
  {
    var n := Varint(a[j..]).value.1;
    assert (a + b)[j..] == a[j..] + b;
    assert (a[j..] + b)[..n] == a[j..][..n];
    ReadRawLocal(a[j..], a[j..] + b, MAX_VARINT_LEN);
  }

  lemma ReadLenExtends(a: bytes, b: bytes, j: nat, base: nat)
    requires j <= |a| && ReadLen(a, j, base).Ok?
    ensures ReadLen(a + b, j, base) == ReadLen(a, j, base)
  {
    VarintExtends(a, b, j);
  }

  lemma SkipExtends(a: bytes, b: bytes, i: nat)
    requires i <= |a| && Skip(a[i..]).Ok? && i + Skip(a[i..]).value <= |a|
    ensures Skip((a + b)[i..]) == Skip(a[i..])
  {
    var n := Skip(a[i..]).value;
    assert (a + b)[i..] == a[i..] + b;
    assert (a[i..] + b)[..n] == a[i..][..n];
    SkipLocal(a[i..], a[i..] + b, 0, 0, n);
  }

  lemma {:induction false} ParseEntryExtends(
    a: bytes, b: bytes, i: nat, post: nat, key: bytes, val: bytes, base: nat)
    requires i <= |a| && post <= |a| && ParseEntry(a, i, post, key, val, base).Ok?
    ensures ParseEntry(a + b, i, post, key, val, base) == ParseEntry(a, i, post, key, val, base)
    decreases |a| - i
  {
    hide Varint, ReadLen, Skip, FieldNum;
    if i < post {
      VarintExtends(a, b, i);
      var (wire, n) := Varint(a[i..]).value;
      var num := FieldNum(wire);
      if num == 1 || num == 2 {
        ReadLenExtends(a, b, i + n, base);
        var (p, e) := ReadLen(a, i + n, base).value;
        assert (a + b)[p..e] == a[p..e];
        if num == 1 {
          ParseEntryExtends(a, b, e, post, a[p..e], val, base);
        } else {
          ParseEntryExtends(a, b, e, post, key, a[p..e], base);
        }
      } else {
        SkipExtends(a, b, i);
        ParseEntryExtends(a, b, i + Skip(a[i..]).value, post, key, val, base);
      }
    }
  }

  lemma DecodeFieldExtends(f: Field, v: Val, a: bytes, b: bytes, j: nat, wt: nat, base: nat)
    requires TypedVal(f.kind, v) && j <= |a|
    requires DecodeField(f, v, a, j, wt, base).Ok?
    ensures DecodeField(f, v, a + b, j, wt, base) == DecodeField(f, v, a, j, wt, base)
  {
    if wt == 0 {
      VarintExtends(a, b, j);
    } else {
      ReadLenExtends(a, b, j, base);
      var (p, e) := ReadLen(a, j, base).value;
      assert (a + b)[p..e] == a[p..e];
      if f.kind.StrMap? {
        ParseEntryExtends(a, b, p, e, [], [], base);
      }
    }
  }

  lemma StepExtends(sch: Schema, m: Msg, a: bytes, b: bytes, base: nat)
    requires Typed(sch, m) && Step(sch, m, a, base).Ok?
    ensures Step(sch, m, a + b, base) == Step(sch, m, a, base)
  {
    assert a[0..] == a && (a + b)[0..] == a + b;
    VarintExtends(a, b, 0);
    var (wire, n) := Varint(a).value;
    var k := Lookup(sch.fields, FieldNum(wire), 0);
    if k == |sch.fields| {
      SkipExtends(a, b, 0);
      var len := Skip(a).value;
      assert (a + b)[..len] == a[..len];
    } else {
      DecodeFieldExtends(sch.fields[k], m.vals[k], a, b, n, WireType(wire), base);
    }
  }

  /** If `a` is accepted, decoding `a + b` continues with `b` where `a` left off. */
  lemma {:induction false} DecodeAppend(sch: Schema, m: Msg, a: bytes, b: bytes, base: nat, ma: Msg)
    requires Typed(sch, m) && Decode(sch, m, a, base) == Ok(ma)
    ensures Decode(sch, m, a + b, base) == Decode(sch, ma, b, base + |a|)
    decreases |a|
  {
    hide Step;
    if a == [] {
      assert a + b == b;
    } else {
      StepExtends(sch, m, a, b, base);
      var (m', n) := Step(sch, m, a, base).value;
      Unfold(sch, m, a, base);
      Unfold(sch, m, a + b, base);
      assert (a + b)[n..] == a[n..] + b;
      DecodeAppend(sch, m', a[n..], b, base + n, ma);
    }
  }

  // ------------------------------------------------ the absolute index is immaterial

  lemma ReadLenAnyBase(s: bytes, j: nat, b1: nat, b2: nat)
    requires j <= |s| && b1 + |s| < TWO_63 && b2 + |s| < TWO_63
    ensures SameOutcome(ReadLen(s, j, b1), ReadLen(s, j, b2))
  {}

  lemma {:induction false} ParseEntryAnyBase(
    s: bytes, i: nat, post: nat, key: bytes, val: bytes, b1: nat, b2: nat)
    requires i <= |s| && post <= |s| && b1 + |s| < TWO_63 && b2 + |s| < TWO_63
    ensures SameOutcome(ParseEntry(s, i, post, key, val, b1), ParseEntry(s, i, post, key, val, b2))
    decreases |s| - i
  {
    hide Varint, ReadLen, FieldNum;
    if i < post && Varint(s[i..]).Ok? {
      var (wire, n) := Varint(s[i..]).value;
      var num := FieldNum(wire);
      if num == 1 || num == 2 {
        ReadLenAnyBase(s, i + n, b1, b2);
        if ReadLen(s, i + n, b1).Ok? {
          var (p, e) := ReadLen(s, i + n, b1).value;
          if num == 1 {
            ParseEntryAnyBase(s, e, post, s[p..e], val, b1, b2);
          } else {
            ParseEntryAnyBase(s, e, post, key, s[p..e], b1, b2);
          }
        }
      } else if Skip(s[i..]).Ok? && i + Skip(s[i..]).value <= post {
        ParseEntryAnyBase(s, i + Skip(s[i..]).value, post, key, val, b1, b2);
      }
    }
  }

  lemma DecodeFieldAnyBase(f: Field, v: Val, s: bytes, j: nat, wt: nat, b1: nat, b2: nat)
    requires TypedVal(f.kind, v) && j <= |s| && b1 + |s| < TWO_63 && b2 + |s| < TWO_63
    ensures SameOutcome(DecodeField(f, v, s, j, wt, b1), DecodeField(f, v, s, j, wt, b2))
  {
    ReadLenAnyBase(s, j, b1, b2);
    if f.kind.StrMap? && ReadLen(s, j, b1).Ok? {
      var (p, e) := ReadLen(s, j, b1).value;
      ParseEntryAnyBase(s, p, e, [], [], b1, b2);
    }
  }

  lemma StepAnyBase(sch: Schema, m: Msg, s: bytes, b1: nat, b2: nat)
    requires Typed(sch, m) && b1 + |s| < TWO_63 && b2 + |s| < TWO_63
    ensures SameOutcome(Step(sch, m, s, b1), Step(sch, m, s, b2))
  {
    if Varint(s).Ok? {
      var (wire, n) := Varint(s).value;
      var k := Lookup(sch.fields, FieldNum(wire), 0);
      if k < |sch.fields| {
        DecodeFieldAnyBase(sch.fields[k], m.vals[k], s, n, WireType(wire), b1, b2);
      }
    }
  }

  lemma {:induction false} DecodeAnyBase(sch: Schema, m: Msg, s: bytes, b1: nat, b2: nat)
    requires Typed(sch, m) && b1 + |s| < TWO_63 && b2 + |s| < TWO_63
    ensures SameOutcome(Decode(sch, m, s, b1), Decode(sch, m, s, b2))
    decreases |s|
  {
    if s != [] {
      StepAnyBase(sch, m, s, b1, b2);
      if Step(sch, m, s, b1).Ok? {
        var (m', n) := Step(sch, m, s, b1).value;
        DecodeAnyBase(sch, m', s[n..], b1 + n, b2 + n);
      }
    }
  }

  /** Concatenation is merge: once `a` is accepted on top of `m`, the whole of `a + b` is
      accepted exactly when `b` alone is accepted on top of the result, and both give the
      same message. */
  lemma ConcatenationIsMerge(sch: Schema, m: Msg, a: bytes, b: bytes, ma: Msg)
    requires Typed(sch, m) && |a| + |b| < TWO_63 && Decode(sch, m, a, 0) == Ok(ma)
    ensures SameOutcome(Decode(sch, m, a + b, 0), Decode(sch, ma, b, 0))
  {
    hide Decode;
    DecodeAppend(sch, m, a, b, 0, ma);
    DecodeAnyBase(sch, ma, b, |a|, 0);
  }
}
