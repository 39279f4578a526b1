/** The registered codec end to end: a message marshalled into a buffer on one side and
    unmarshalled into a fresh message object on the other. */
module Codec {
  import opened Wire
  import opened Messages
  import opened Encoding
  import opened Decoding
  import opened RoundTrip
  import opened Canonical
  import opened Marshal
  import opened Unmarshal

  /** The receiver ends up with the sender's message exactly when its unknown bytes are whole
      unknown fields; whatever the receiver accepts can be passed on without loss. */
  method Transfer(sch: Schema, m: Msg) returns (copy: MessageObject, err: Option<DecodeError>)
    requires ValidSchema(sch) && Typed(sch, m) && Size(sch, m) < TWO_63
    ensures fresh(copy) && copy.schema == sch && copy.Valid()
    ensures err == None && copy.Value() == m <==> UnknownsOk(sch, m)
    ensures err == None ==> UnknownsOk(sch, copy.Value())
  {
    hide Decode, UnknownsOk, IsEncoding, Size;
    var buffer := MarshalVT(sch, m);
    var data := buffer[..];
    RoundTripExactly(sch, m, data);
    EmptyUnknowns(sch);
    if Decode(sch, Empty(sch), data, 0).Ok? {
      DecodeKeepsUnknowns(sch, Empty(sch), data, 0);
    }
    copy := new MessageObject(sch, Empty(sch));
    err := copy.UnmarshalVT(data);
  }
}
