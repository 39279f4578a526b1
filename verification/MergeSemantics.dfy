/** What decoding on top of a message does, for every input: the last scalar wins, maps are
    updated, submessages merge, repeated and unknown fields are appended; and whether the input
    is accepted does not depend on the message it is decoded into. */
module MergeSemantics {
  import opened Wire
  import opened Messages
  import opened Decoding
  import opened MergeLaws

  /** `m` is `m0` overlaid with `e`, where `e` is what the input alone gives. */
  ghost predicate Merged(sch: Schema, m0: Msg, e: Msg, m: Msg)
    requires Typed(sch, m0) && Typed(sch, e) && Typed(sch, m)
    decreases sch
  {
    && m.unknown == m0.unknown + e.unknown
    && forall k | 0 <= k < |sch.fields| :: MergedVal(sch.fields[k].kind, m0.vals[k], e.vals[k], m.vals[k])
  }

  ghost predicate MergedVal(kind: Kind, v0: Val, e: Val, v: Val)
    requires TypedVal(kind, v0) && TypedVal(kind, e) && TypedVal(kind, v)
    decreases kind
  {
    match kind
    case StrMap => v.m == v0.m + e.m
    case Repeated(_) => v.msgs == v0.msgs + e.msgs
    case Message(sub) =>
      if e.msg.None? then v == v0
      else v.msg.Some? && Merged(sub, Present(sub, v0), e.msg.value, v.msg.value)
    case _ => v == e || (v == v0 && e == Default(kind))
  }

  /** The submessage that a record is merged into: the present one or a fresh one. */
  function Present(sub: Schema, v: Val): (m: Msg)
    requires TypedVal(Message(sub), v)
    ensures Typed(sub, m)
  {
    if v.msg.Some? then v.msg.value else Empty(sub)
  }

  /** Nothing laid over a message is that message. */
  lemma MergeNothing(sch: Schema, m: Msg)
    requires Typed(sch, m)
    ensures Merged(sch, m, Empty(sch), m)
  {
    assert m.unknown + [] == m.unknown;
    forall k | 0 <= k < |sch.fields|
      ensures MergedVal(sch.fields[k].kind, m.vals[k], Empty(sch).vals[k], m.vals[k])
    {
      var v := m.vals[k];
      if sch.fields[k].kind.StrMap? {
        assert v.m + map[] == v.m;
      } else if sch.fields[k].kind.Repeated? {
        assert v.msgs + [] == v.msgs;
      }
    }
  }

  /** One field decoded in step on two messages that are merges of each other. */
  lemma {:induction false} MergeField(f: Field, v0: Val, e: Val, v: Val, s: bytes, j: nat, wt: nat, base: nat)
    requires TypedVal(f.kind, v0) && TypedVal(f.kind, e) && TypedVal(f.kind, v) && j <= |s|
    requires MergedVal(f.kind, v0, e, v)
    ensures var x, y := DecodeField(f, e, s, j, wt, base), DecodeField(f, v, s, j, wt, base);
      && x.Ok? == y.Ok?
      && (x.Ok? ==> x.value.1 == y.value.1 && MergedVal(f.kind, v0, x.value.0, y.value.0))
    decreases f
  {
    hide Varint, ReadLen, ParseEntry, Decode, Typed;
    if wt == 2 && wt == WireTypeOf(f.kind) && ReadLen(s, j, base).Ok? {
      var (p, end) := ReadLen(s, j, base).value;
      if f.kind.StrMap? {
        if ParseEntry(s, p, end, [], [], base).Ok? {
          var (key, val) := ParseEntry(s, p, end, [], [], base).value;
          assert (v0.m + e.m)[key := val] == v0.m + e.m[key := val];
        }
      } else if f.kind.Message? {
        MergeSub(f, v0, e, v, s[p..end]);
      } else if f.kind.Repeated? {
        var sub := f.kind.schema;
        if Decode(sub, Empty(sub), s[p..end], 0).Ok? {
          var x := Decode(sub, Empty(sub), s[p..end], 0).value;
          assert v0.msgs + e.msgs + [x] == v0.msgs + (e.msgs + [x]);
        }
      }
    }
  }

  lemma {:induction false} MergeSub(f: Field, v0: Val, e: Val, v: Val, data: bytes)
    requires f.kind.Message?
    requires TypedVal(f.kind, v0) && TypedVal(f.kind, e) && TypedVal(f.kind, v) && MergedVal(f.kind, v0, e, v)
    ensures var sub := f.kind.schema;
      var x, y := Decode(sub, Present(sub, e), data, 0), Decode(sub, Present(sub, v), data, 0);
      && x.Ok? == y.Ok?
      && (x.Ok? ==> Merged(sub, Present(sub, v0), x.value, y.value))
    decreases f, 0
  {
    hide Decode;
    var sub := f.kind.schema;
    if e.msg.None? {
      MergeNothing(sub, Present(sub, v0));
    }
    MergeDecode(sub, Present(sub, v0), Present(sub, e), Present(sub, v), data, 0);
  }

  lemma {:induction false} MergeStep(sch: Schema, m0: Msg, e: Msg, m: Msg, s: bytes, base: nat)
    requires Typed(sch, m0) && Typed(sch, e) && Typed(sch, m) && Merged(sch, m0, e, m)
    ensures var x, y := Step(sch, e, s, base), Step(sch, m, s, base);
      && x.Ok? == y.Ok?
      && (x.Ok? ==> x.value.1 == y.value.1 && Merged(sch, m0, x.value.0, y.value.0))
    decreases sch, |s|, 0
  {
    hide Varint, Skip, DecodeField, MergedVal;
    if Varint(s).Ok? {
      var (wire, n) := Varint(s).value;
      var k := Lookup(sch.fields, FieldNum(wire), 0);
      if k < |sch.fields| {
        MergeField(sch.fields[k], m0.vals[k], e.vals[k], m.vals[k], s, n, WireType(wire), base);
      } else if Skip(s).Ok? && Skip(s).value <= |s| {
        var c := s[..Skip(s).value];
        assert m0.unknown + e.unknown + c == m0.unknown + (e.unknown + c);
      }
    }
  }

  lemma {:induction false} MergeDecode(sch: Schema, m0: Msg, e: Msg, m: Msg, s: bytes, base: nat)
    requires Typed(sch, m0) && Typed(sch, e) && Typed(sch, m) && Merged(sch, m0, e, m)
    ensures var x, y := Decode(sch, e, s, base), Decode(sch, m, s, base);
      && x.Ok? == y.Ok?
      && (x.Ok? ==> Merged(sch, m0, x.value, y.value))
    decreases sch, |s|, 1
  {
    hide Step, Merged, Typed;
    if s != [] {
      MergeStep(sch, m0, e, m, s, base);
      if Step(sch, e, s, base).Ok? {
        var ((e', n), (m', _)) := (Step(sch, e, s, base).value, Step(sch, m, s, base).value);
        MergeDecode(sch, m0, e', m', s[n..], base + n);
      }
    }
  }

  // ------------------------------------------------ main results

  /** Decoding any input on top of any message: accepted exactly when the input alone is, and
      then the result is the message overlaid with what the input alone gives. */
  lemma DecodeMerges(sch: Schema, m0: Msg, s: bytes)
    requires Typed(sch, m0)
    ensures var x, y := Decode(sch, Empty(sch), s, 0), Decode(sch, m0, s, 0);
      && x.Ok? == y.Ok?
      && (x.Ok? ==> Merged(sch, m0, x.value, y.value))
  {
    hide Decode, Merged;
    MergeNothing(sch, m0);
    MergeDecode(sch, m0, Empty(sch), m0, s, 0);
  }

  /** Concatenation is merge: after an accepted `a`, the whole of `a + b` is accepted exactly
      when `b` alone is, and gives the message of `a` overlaid with the message of `b`. */
  lemma ConcatenationMerges(sch: Schema, a: bytes, b: bytes, ma: Msg)
    requires |a| + |b| < TWO_63 && Decode(sch, Empty(sch), a, 0) == Ok(ma)
    ensures var x, y := Decode(sch, Empty(sch), b, 0), Decode(sch, Empty(sch), a + b, 0);
      && x.Ok? == y.Ok?
      && (x.Ok? ==> Merged(sch, ma, x.value, y.value))
  {
    hide Decode, Merged;
    ConcatenationIsMerge(sch, Empty(sch), a, b, ma);
    DecodeMerges(sch, ma, b);
  }

  // ------------------------------------------------ which scalars an input sets

  /** The fields that some record of `s` belongs to, as far as `s` is accepted. */
  ghost function Touched(sch: Schema, m: Msg, s: bytes, base: nat): set<nat>
    requires Typed(sch, m)
    decreases |s|
  {
    if s == [] || Step(sch, m, s, base).Err? then {}
    else
      var (m', n) := Step(sch, m, s, base).value;
      {Lookup(sch.fields, FieldNum(Varint(s).value.0), 0)} + Touched(sch, m', s[n..], base + n)
  }

  predicate IsScalar(kind: Kind) { kind.Int32? || kind.Int64? || kind.Bool? || kind.Str? }

  /** A record of a scalar field overwrites the field whatever it held, zero included; a step
      on another field leaves it alone. */
  lemma ScalarStep(sch: Schema, e: Msg, m: Msg, s: bytes, base: nat, k: nat)
    requires Typed(sch, e) && Typed(sch, m) && k < |sch.fields| && IsScalar(sch.fields[k].kind)
    requires Step(sch, e, s, base).Ok? && Step(sch, m, s, base).Ok?
    ensures var x, y := Step(sch, e, s, base).value.0, Step(sch, m, s, base).value.0;
      if Lookup(sch.fields, FieldNum(Varint(s).value.0), 0) == k then x.vals[k] == y.vals[k]
      else x.vals[k] == e.vals[k] && y.vals[k] == m.vals[k]
  {
    hide Varint, DecodeField, FieldNum, Skip, TypedVal;
    var (wire, n) := Varint(s).value;
    if Lookup(sch.fields, FieldNum(wire), 0) == k {
      ScalarField(sch.fields[k], e.vals[k], m.vals[k], s, n, WireType(wire), base);
    }
  }

  /** What a scalar field decodes to does not depend on what it held. */
  lemma ScalarField(f: Field, v: Val, w: Val, s: bytes, j: nat, wt: nat, base: nat)
    requires TypedVal(f.kind, v) && TypedVal(f.kind, w) && j <= |s| && IsScalar(f.kind)
    ensures DecodeField(f, v, s, j, wt, base) == DecodeField(f, w, s, j, wt, base)
  {
    hide Varint, ReadLen;
  }

  lemma {:induction false} ScalarsAlong(sch: Schema, m0: Msg, e: Msg, m: Msg, s: bytes, base: nat, k: nat)
    requires Typed(sch, m0) && Typed(sch, e) && Typed(sch, m) && Merged(sch, m0, e, m)
    requires k < |sch.fields| && IsScalar(sch.fields[k].kind) && Decode(sch, e, s, base).Ok?
    ensures Decode(sch, m, s, base).Ok?
    ensures var x, y := Decode(sch, e, s, base).value, Decode(sch, m, s, base).value;
      if k in Touched(sch, e, s, base) then x.vals[k] == y.vals[k]
      else x.vals[k] == e.vals[k] && y.vals[k] == m.vals[k]
    decreases |s|
  {
    hide Step, Merged, Varint, FieldNum;
    if s != [] {
      MergeStep(sch, m0, e, m, s, base);
      ScalarStep(sch, e, m, s, base, k);
      var (e', n) := Step(sch, e, s, base).value;
      var m' := Step(sch, m, s, base).value.0;
      Unfold(sch, e, s, base);
      Unfold(sch, m, s, base);
      ScalarsAlong(sch, m0, e', m', s[n..], base + n, k);
    }
  }

  /** The last scalar wins: a scalar field that the input mentions ends as the input alone
      leaves it, even at zero; one it does not mention keeps its value. */
  lemma LastScalarWins(sch: Schema, m0: Msg, s: bytes, k: nat)
    requires Typed(sch, m0) && k < |sch.fields| && IsScalar(sch.fields[k].kind)
    requires Decode(sch, Empty(sch), s, 0).Ok?
    ensures Decode(sch, m0, s, 0).Ok?
    ensures Decode(sch, m0, s, 0).value.vals[k]
      == if k in Touched(sch, Empty(sch), s, 0) then Decode(sch, Empty(sch), s, 0).value.vals[k] else m0.vals[k]
  {
    hide Decode, Merged, Touched;
    MergeNothing(sch, m0);
    ScalarsAlong(sch, m0, Empty(sch), m0, s, 0, k);
  }
}
