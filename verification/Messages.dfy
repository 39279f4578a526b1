/** Messages as the generated codec sees them: a schema lists the fields in number order,
    a message holds one value per field plus the bytes of the fields it did not recognise. */
module Messages {
  import opened Wire

  datatype Kind =
    | Int32 | Int64 | Bool | Str | StrMap
    | Message(schema: Schema) | Repeated(schema: Schema)

  datatype Field = Field(num: nat, kind: Kind)

  datatype Schema = Schema(fields: seq<Field>)

  datatype Val =
    | VInt(i: int) | VBool(b: bool) | VStr(s: bytes) | VMap(m: map<bytes, bytes>)
    | VMsg(msg: Option<Msg>) | VRep(msgs: seq<Msg>)

  datatype Msg = Msg(vals: seq<Val>, unknown: bytes)

  /** Field numbers are positive, below 2^29 and distinct, at every level. */
  predicate ValidSchema(sch: Schema)
    decreases sch
  {
    && (forall k | 0 <= k < |sch.fields| :: ValidField(sch.fields[k]))
    && (forall j, k | 0 <= j < k < |sch.fields| :: sch.fields[j].num != sch.fields[k].num)
  }

  predicate ValidField(f: Field)
    decreases f
  {
    1 <= f.num < 0x2000_0000 &&
    match f.kind
    case Message(sub) => ValidSchema(sub)
    case Repeated(sub) => ValidSchema(sub)
    case _ => true
  }

  /** The message has the shape of its schema and its integers fit their Go types. */
  predicate Typed(sch: Schema, m: Msg)
    decreases sch
  {
    && |m.vals| == |sch.fields|
    && forall k | 0 <= k < |sch.fields| :: TypedVal(sch.fields[k].kind, m.vals[k])
  }

  predicate TypedVal(kind: Kind, v: Val)
    decreases kind
  {
    match kind
    case Int32 => v.VInt? && -TWO_31 <= v.i < TWO_31
    case Int64 => v.VInt? && -TWO_63 <= v.i < TWO_63
    case Bool => v.VBool?
    case Str => v.VStr?
    case StrMap => v.VMap?
    case Message(sub) => v.VMsg? && (v.msg.Some? ==> Typed(sub, v.msg.value))
    case Repeated(sub) => v.VRep? && forall k | 0 <= k < |v.msgs| :: Typed(sub, v.msgs[k])
  }

  /** The zero value of a field in a fresh message. */
  function Default(kind: Kind): (v: Val)
    ensures TypedVal(kind, v)
  {
    match kind
    case Int32 => VInt(0)
    case Int64 => VInt(0)
    case Bool => VBool(false)
    case Str => VStr([])
    case StrMap => VMap(map[])
    case Message(_) => VMsg(None)
    case Repeated(_) => VRep([])
  }

  /** A fresh message: every field zero, nothing unknown. */
  function Empty(sch: Schema): (m: Msg)
    ensures Typed(sch, m)
  {
    Msg(seq(|sch.fields|, k requires 0 <= k < |sch.fields| => Default(sch.fields[k].kind)), [])
  }

  function WireTypeOf(kind: Kind): (t: nat)
    ensures t < 8
  {
    if kind.Int32? || kind.Int64? || kind.Bool? then 0 else 2
  }

  function TagOf(f: Field): (s: bytes)
    ensures |s| >= 1
  {
    Tag(f.num, WireTypeOf(f.kind))
  }

  /** Position of the field numbered `num` at or after `k`, or |fields| when there is none:
      the decoder's switch. */
  function Lookup(fields: seq<Field>, num: int, k: nat): (r: nat)
    requires k <= |fields|
    ensures k <= r <= |fields|
    ensures r < |fields| ==> fields[r].num == num
    ensures r == |fields| ==> forall j | k <= j < |fields| :: fields[j].num != num
    decreases |fields| - k
  {
    if k == |fields| then k
    else if fields[k].num == num then k
    else Lookup(fields, num, k + 1)
  }

  /** Message `m` with value `v` in field `k`. */
  function SetVal(m: Msg, k: nat, v: Val): Msg
    requires k < |m.vals|
  {
    m.(vals := m.vals[k := v])
  }
}
