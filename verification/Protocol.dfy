/** server/rendezvous/protocol.cpp: the rendezvous frame codec, [u8 type][u8 id_len][id][u16 body_len][body]. */
module Protocol {
  import opened Common

  datatype MessageType =
    | Unknown
    | Register
    | RegisterOk
    | Lookup
    | LookupOk
    | LookupFail
    | BrokerCandidates
    | Keepalive

  type RedeskId = seq<Byte>

  const StaticPubKeyLen := 32

  datatype Frame = Frame(kind: MessageType, id: RedeskId, body: seq<Byte>)

  const MaxType := 7
  const MaxId := 255
  const MaxBody := 0xFFFF

  const EmptyFrame := Frame(Unknown, [], [])

  function Tag(t: MessageType): Byte {
    match t
    case Unknown => 0
    case Register => 1
    case RegisterOk => 2
    case Lookup => 3
    case LookupOk => 4
    case LookupFail => 5
    case BrokerCandidates => 6
    case Keepalive => 7
  }

  function FromTag(b: Byte): MessageType {
    if b == 1 then Register
    else if b == 2 then RegisterOk
    else if b == 3 then Lookup
    else if b == 4 then LookupOk
    else if b == 5 then LookupFail
    else if b == 6 then BrokerCandidates
    else if b == 7 then Keepalive
    else Unknown
  }

  /** What survives of a frame on the wire. */
  function Wire(f: Frame): Frame {
    Frame(f.kind, Cut(f.id, MaxId), Cut(f.body, MaxBody))
  }

  function Encode(f: Frame): seq<Byte> {
    var id := Cut(f.id, MaxId);
    var body := Cut(f.body, MaxBody);
    [Tag(f.kind), |id|] + id + [|body| / 256, |body| % 256] + body
  }

  function Decode(data: seq<Byte>): Result<Frame> {
    if |data| < 1 then Fail(InvalidArgument)
    else if data[0] == 0 || data[0] > MaxType then Ok(EmptyFrame)
    else if |data| < 2 then Fail(InvalidArgument)
    else
      var idEnd: int := 2 + data[1] as int;
      if |data| < idEnd then Fail(InvalidArgument)
      else if |data| < idEnd + 2 then Fail(InvalidArgument)
      else
        var bodyEnd: int := idEnd + 2 + data[idEnd] as int * 256 + data[idEnd + 1] as int;
        if |data| < bodyEnd then Fail(InvalidArgument)
        else Ok(Frame(FromTag(data[0]), data[2..idEnd], data[idEnd + 2..bodyEnd]))
  }

  /** A frame on the wire, byte by byte: type, ID length, at most 255 bytes of ID, the body's length with the high
      byte first, at most 65535 bytes of body. */
  lemma EncodedBytes(f: Frame)
    ensures var e, i, b := Encode(f), Min(|f.id|, 255), Min(|f.body|, 65535);
      && |e| == 4 + i + b
      && e[0] == (match f.kind
                  case Unknown => 0
                  case Register => 1
                  case RegisterOk => 2
                  case Lookup => 3
                  case LookupOk => 4
                  case LookupFail => 5
                  case BrokerCandidates => 6
                  case Keepalive => 7)
      && e[1] == i && e[2..2 + i] == f.id[..i]
      && 256 * e[2 + i] as int + e[3 + i] as int == b && e[4 + i..] == f.body[..b]
  {
    var id, body := Cut(f.id, MaxId), Cut(f.body, MaxBody);
    assert id == f.id[..Min(|f.id|, 255)] && body == f.body[..Min(|f.body|, 65535)];
  }

  /** encode_frame: bytes are pushed onto a growing vector. */
  method EncodeFrame(f: Frame) returns (out: seq<Byte>)
    ensures out == Encode(f)
  {
    out := [];
    out := out + [Tag(f.kind)];
    var idLen: Byte := if |f.id| > 255 then 255 else |f.id|;
    out := out + [idLen];
    out := out + f.id[..idLen];
    var bodyLen := if |f.body| > 0xFFFF then 0xFFFF else |f.body|;
    out := out + [bodyLen / 256];
    out := out + [bodyLen % 256];
    out := out + f.body[..bodyLen];
    assert f.id[..idLen] == Cut(f.id, MaxId) && f.body[..bodyLen] == Cut(f.body, MaxBody);
  }

  /** decode_frame: a cursor advances over the received bytes; every read is checked first. */
  method DecodeFrame(data: seq<Byte>) returns (r: Result<Frame>)
    ensures r == Decode(data)
  {
    var off := 0;
    if off + 1 > |data| { return Fail(InvalidArgument); }
    var t := data[off];
    off := off + 1;
    if t == 0 || t > MaxType { return Ok(EmptyFrame); }
    if off + 1 > |data| { return Fail(InvalidArgument); }
    var idLen := data[off];
    off := off + 1;
    if off + idLen > |data| { return Fail(InvalidArgument); }
    var id := data[off..off + idLen];
    off := off + idLen;
    if off + 2 > |data| { return Fail(InvalidArgument); }
    var bodyLen: int := data[off] as int * 256 + data[off + 1] as int;
    off := off + 2;
    if off + bodyLen > |data| { return Fail(InvalidArgument); }
    return Ok(Frame(FromTag(t), id, data[off..off + bodyLen]));
  }

  /** Decoding an encoded frame, with anything at all behind it, gives the frame back, cut to the wire's limits. */
  lemma DecodeEncode(f: Frame, junk: seq<Byte>)
    requires f.kind != Unknown
    ensures Decode(Encode(f) + junk) == Ok(Wire(f))
  {
    var id, body := Cut(f.id, MaxId), Cut(f.body, MaxBody);
    var data := Encode(f) + junk;
    var idEnd: int := 2 + |id|;
    assert data[0] == Tag(f.kind) && data[1] == |id|;
    assert data[2..idEnd] == id;
    assert data[idEnd] == |body| / 256 && data[idEnd + 1] == |body| % 256;
    assert data[idEnd + 2..idEnd + 2 + |body|] == body;
  }

  lemma DecodeMail(f: Frame)
    requires f.kind != Unknown
    ensures Decode(Encode(f)) == Ok(Wire(f))
  {
    DecodeEncode(f, []);
    assert Encode(f) + [] == Encode(f);
  }

  lemma TagsMatch(b: Byte)
    ensures FromTag(b) != Unknown ==> Tag(FromTag(b)) == b
  {
  }

  /** Whatever decodes to a known type starts with the encoding of the result. */
  lemma DecodedIsPrefix(data: seq<Byte>)
    requires Decode(data).Ok? && Decode(data).value.kind != Unknown
    ensures Encode(Decode(data).value) <= data
    ensures Wire(Decode(data).value) == Decode(data).value
  {
    hide Tag, FromTag;
    TagsMatch(data[0]);
    var f := Decode(data).value;
    var idEnd: int := 2 + data[1] as int;
    var bodyEnd: int := idEnd + 2 + |f.body|;
    assert data[..bodyEnd] == data[..2] + data[2..idEnd] + data[idEnd..idEnd + 2] + data[idEnd + 2..bodyEnd];
    assert Encode(f) == data[..bodyEnd];
  }

  /** Decoding succeeds with a known type exactly on the inputs that begin with some known frame's encoding,
      fails exactly on the other inputs that claim a known type (or are empty), and otherwise yields the
      empty frame. */
  lemma DecodeCharacterised(data: seq<Byte>)
    ensures (exists f: Frame :: f.kind != Unknown && Encode(f) <= data)
       <==> (Decode(data).Ok? && Decode(data).value.kind != Unknown)
    ensures Decode(data).Ok? && Decode(data).value.kind == Unknown
       <==> |data| > 0 && (data[0] == 0 || data[0] > 7)
    ensures Decode(data).Ok? && Decode(data).value.kind == Unknown ==> Decode(data).value == Frame(Unknown, [], [])
    ensures !Decode(data).Ok? ==> Decode(data) == Fail(InvalidArgument)
  {
    if f: Frame :| f.kind != Unknown && Encode(f) <= data {
      DecodeEncode(f, data[|Encode(f)|..]);
      assert Encode(f) + data[|Encode(f)|..] == data;
    }
    if Decode(data).Ok? && Decode(data).value.kind != Unknown {
      DecodedIsPrefix(data);
    }
  }

  /** The tag plays no part in the rest of the layout. */
  lemma Retagged(f: Frame, kind: MessageType)
    ensures Encode(f.(kind := kind)) == [Tag(kind)] + Encode(f)[1..]
    ensures Encode(f) != [] && Encode(f)[0] == Tag(f.kind)
  {
  }

  lemma KnownPrefixFree(f: Frame, g: Frame)
    requires f.kind == g.kind != Unknown && Encode(f) <= Encode(g)
    ensures Wire(f) == Wire(g)
  {
    hide *;
    var rest := Encode(g)[|Encode(f)|..];
    assert Encode(f) + rest == Encode(g) == Encode(g) + [];
    DecodeEncode(f, rest);
    DecodeEncode(g, []);
  }

  /** A frame is encoded as what the wire keeps of it. */
  lemma EncodesWire(f: Frame)
    ensures Encode(Wire(f)) == Encode(f)
  {
  }

  /** No encoding is a proper prefix of another: frames are self-delimiting. */
  lemma PrefixFree(f: Frame, g: Frame)
    requires Encode(f) <= Encode(g)
    ensures Encode(f) == Encode(g) && Wire(f) == Wire(g)
  {
    hide Encode, Decode;
    // Give both frames a known tag and decode.
    Retagged(f, Register);
    Retagged(g, Register);
    KnownPrefixFree(f.(kind := Register), g.(kind := Register));
    EncodesWire(f);
    EncodesWire(g);
  }
}
