/** core/codec/codec_stub.cpp: the pass-through video codec: a 32-byte header in front of the raw pixels, and the
    keyframe request state of the encoder. */
module StubCodec {
  import opened Common
  import opened LittleEndian

  const StubMagic: uint32 := 0x52454442
  const HeaderLen := 32

  /** The parts of a frame the codec looks at; the pixel format is its enumerator's number. */
  datatype VideoFrame = VideoFrame(
    width: uint32,
    height: uint32,
    format: uint32,
    timestampUs: uint64,
    gpuResident: bool,
    cpuPixels: seq<Byte>)

  datatype EncodedPacket = EncodedPacket(data: seq<Byte>, timestampUs: uint64, keyframe: bool)

  // ----- the packet -----

  /** The header as memory holds it: six 32-bit fields and one 64-bit field, without padding. */
  function Header(f: VideoFrame, keyframe: bool): (h: seq<Byte>)
    ensures |h| == HeaderLen
  {
    ToLE(StubMagic, 4) + ToLE(f.width, 4) + ToLE(f.height, 4) + ToLE(f.format, 4)
    + ToLE(f.timestampUs, 8) + ToLE(if keyframe then 1 else 0, 4) + ToLE(|f.cpuPixels| % TwoTo32, 4)
  }

  function PacketData(f: VideoFrame, keyframe: bool): seq<Byte> {
    Header(f, keyframe) + f.cpuPixels
  }

  /** A little-endian field of the header. */
  function Field(data: seq<Byte>, at: nat, width: nat): nat
    requires at + width <= |data|
  {
    FromLE(data[at..at + width])
  }

  function Decoded(data: seq<Byte>): Result<VideoFrame> {
    if |data| < HeaderLen then Fail(InvalidArgument)
    else if Field(data, 0, 4) != StubMagic then Fail(InvalidArgument)
    else
      var expected := HeaderLen + Field(data, 28, 4);
      if |data| < expected then Fail(InvalidArgument)
      else
        FieldBounds(data);
        Ok(VideoFrame(Field(data, 4, 4), Field(data, 8, 4), Field(data, 12, 4), Field(data, 16, 8),
                      false, data[HeaderLen..expected]))
  }

  lemma FieldBound(data: seq<Byte>, at: nat, width: nat)
    requires at + width <= |data|
    ensures Field(data, at, width) < Pow256(width)
  {
    FromLEBound(data[at..at + width]);
  }

  lemma FieldBounds(data: seq<Byte>)
    requires |data| >= HeaderLen
    ensures Field(data, 4, 4) < TwoTo32 && Field(data, 8, 4) < TwoTo32 && Field(data, 12, 4) < TwoTo32
    ensures Field(data, 16, 8) < TwoTo64
  {
    FieldBound(data, 4, 4);
    FieldBound(data, 8, 4);
    FieldBound(data, 12, 4);
    FieldBound(data, 16, 8);
    Pow256Values();
  }

  /** A field written between two pieces of data reads back, and can be counted to either of them. */
  lemma FieldReadsBack(before: seq<Byte>, n: nat, width: nat, after: seq<Byte>, data: seq<Byte>)
    requires data == (before + ToLE(n, width)) + after && n < Pow256(width)
    ensures |before| + width <= |data| && Field(data, |before|, width) == n
    ensures data == before + (ToLE(n, width) + after)
  {
    hide Pow256;
    assert data[|before|..|before| + width] == ToLE(n, width);
    FromToLE(n, width);
  }

  /** What is left of a frame after a packet: only pixels cut to their length modulo 2^32, and no GPU handle. */
  function Survivor(f: VideoFrame): VideoFrame {
    f.(gpuResident := false, cpuPixels := f.cpuPixels[..|f.cpuPixels| % TwoTo32])
  }

  lemma FieldOnBytes(data: seq<Byte>, at: nat)
    ensures at + 4 <= |data| ==> Field(data, at, 4) == U32(data, at)
    ensures at + 8 <= |data| ==> Field(data, at, 8) == U64(data, at)
  {
    hide FromLE, U32, U64;
    if at + 4 <= |data| { FourBytes(data, at); }
    if at + 8 <= |data| { EightBytes(data, at); }
  }

  /** A packet, byte for byte: "BDER" as a little-endian 32-bit number, then width, height, format, time stamp, keyframe
      flag and pixel count modulo 2^32 at their offsets, then all pixels. */
  lemma PacketBytes(f: VideoFrame, keyframe: bool)
    ensures var d := PacketData(f, keyframe);
      && |d| == 32 + |f.cpuPixels| && d[32..] == f.cpuPixels
      && d[0] == 0x42 && d[1] == 0x44 && d[2] == 0x45 && d[3] == 0x52
      && U32(d, 4) == f.width && U32(d, 8) == f.height && U32(d, 12) == f.format
      && U64(d, 16) == f.timestampUs
      && U32(d, 24) == (if keyframe then 1 else 0)
      && U32(d, 28) == |f.cpuPixels| % 0x1_0000_0000
  {
    hide Field, U64, ToLE;
    var d := PacketData(f, keyframe);
    HeaderReadsBack(f, keyframe);
    FieldOnBytes(d, 0);
    FieldOnBytes(d, 4);
    FieldOnBytes(d, 8);
    FieldOnBytes(d, 12);
    FieldOnBytes(d, 16);
    FieldOnBytes(d, 24);
    FieldOnBytes(d, 28);
  }

  /** What the decoder makes of any bytes: refused when shorter than a header, without the magic number, or shorter
      than the pixel count says; otherwise the fields at their offsets and that many pixels. */
  lemma DecodeOnBytes(d: seq<Byte>)
    ensures if |d| < 32 || U32(d, 0) != 0x5245_4442 || |d| < 32 + U32(d, 28) then Decoded(d) == Fail(InvalidArgument)
      else
        && Decoded(d).Ok?
        && var f := Decoded(d).value;
        && f.width == U32(d, 4) && f.height == U32(d, 8) && f.format == U32(d, 12) && f.timestampUs == U64(d, 16)
        && !f.gpuResident && f.cpuPixels == d[32..32 + U32(d, 28)]
  {
    hide Field, U32, U64;
    if |d| >= 32 {
      FieldOnBytes(d, 0);
      FieldOnBytes(d, 4);
      FieldOnBytes(d, 8);
      FieldOnBytes(d, 12);
      FieldOnBytes(d, 16);
      FieldOnBytes(d, 28);
    }
  }

  /** The seven fields of a packet read back, whatever pixels follow. */
  lemma HeaderReadsBack(f: VideoFrame, keyframe: bool)
    ensures var d := PacketData(f, keyframe);
      && Field(d, 0, 4) == StubMagic && Field(d, 4, 4) == f.width && Field(d, 8, 4) == f.height
      && Field(d, 12, 4) == f.format && Field(d, 16, 8) == f.timestampUs
      && Field(d, 24, 4) == (if keyframe then 1 else 0) && Field(d, 28, 4) == |f.cpuPixels| % TwoTo32
  {
    hide ToLE, Field, Pow256;
    Pow256Values();
    var d := PacketData(f, keyframe);
    var flag, size := if keyframe then 1 else 0, |f.cpuPixels| % TwoTo32;
    // The header before each field, and the packet after it.
    var h1 := ToLE(StubMagic, 4);
    var h2 := h1 + ToLE(f.width, 4);
    var h3 := h2 + ToLE(f.height, 4);
    var h4 := h3 + ToLE(f.format, 4);
    var h5 := h4 + ToLE(f.timestampUs, 8);
    var h6 := h5 + ToLE(flag, 4);
    var t6 := ToLE(size, 4) + f.cpuPixels;
    var t5 := ToLE(flag, 4) + t6;
    var t4 := ToLE(f.timestampUs, 8) + t5;
    var t3 := ToLE(f.format, 4) + t4;
    var t2 := ToLE(f.height, 4) + t3;
    FieldReadsBack(h6, size, 4, f.cpuPixels, d);
    FieldReadsBack(h5, flag, 4, t6, d);
    FieldReadsBack(h4, f.timestampUs, 8, t5, d);
    FieldReadsBack(h3, f.format, 4, t4, d);
    FieldReadsBack(h2, f.height, 4, t3, d);
    FieldReadsBack(h1, f.width, 4, t2, d);
    assert [] + h1 == h1;
    FieldReadsBack([], StubMagic, 4, ToLE(f.width, 4) + t2, d);
  }

  /** Decoding an encoded frame gives its size, format, timestamp and pixels back, the pixels cut to their length
      modulo 2^32. */
  lemma DecodeEncoded(f: VideoFrame, keyframe: bool)
    ensures Decoded(PacketData(f, keyframe)) == Ok(Survivor(f))
  {
    hide Field, ToLE;
    HeaderReadsBack(f, keyframe);
    var d, n := PacketData(f, keyframe), |f.cpuPixels| % TwoTo32;
    assert d[HeaderLen..HeaderLen + n] == f.cpuPixels[..n];
  }

  /** The pixels survive exactly when there are fewer than 2^32 bytes of them. */
  lemma PixelsSurviveIff(f: VideoFrame, keyframe: bool)
    ensures Decoded(PacketData(f, keyframe)).Ok?
    ensures Decoded(PacketData(f, keyframe)) == Ok(f.(gpuResident := false)) <==> |f.cpuPixels| < TwoTo32
  {
    hide Decoded, PacketData;
    DecodeEncoded(f, keyframe);
    if |f.cpuPixels| < TwoTo32 {
      assert f.cpuPixels[..|f.cpuPixels|] == f.cpuPixels;
    } else {
      assert |Survivor(f).cpuPixels| < TwoTo32;
    }
  }

  // ----- the encoder over a run -----

  datatype Encoder = Encoder(hasCallback: bool, forceKeyframe: bool, firstFrame: bool)

  const NewEncoder := Encoder(false, false, true)

  datatype Op =
    | SetPacketCallback(present: bool)
    | RequestKeyframe
    | ForceIntraRefresh
    | Encode(frame: VideoFrame)

  function EncodeResult(e: Encoder, f: VideoFrame): Result<EncodedPacket> {
    if !e.hasCallback then Fail(InvalidArgument)
    else if f.cpuPixels == [] && f.gpuResident then Fail(Unsupported)
    else
      var keyframe := e.forceKeyframe || e.firstFrame;
      Ok(EncodedPacket(PacketData(f, keyframe), f.timestampUs, keyframe))
  }

  function Step(e: Encoder, op: Op): Encoder {
    match op
    case SetPacketCallback(present) => e.(hasCallback := present)
    case RequestKeyframe => e.(forceKeyframe := true)
    case ForceIntraRefresh => e.(forceKeyframe := true)
    case Encode(f) => if EncodeResult(e, f).Ok? then e.(forceKeyframe := false, firstFrame := false) else e
  }

  /** The encoder after the first n operations. */
  function Run(ops: seq<Op>, n: nat): Encoder
    requires n <= |ops|
  {
    if n == 0 then NewEncoder else Step(Run(ops, n - 1), ops[n - 1])
  }

  /** A callback is installed: the last call to install one installed one. */
  predicate CallbackAt(ops: seq<Op>, n: nat)
    requires n <= |ops|
  {
    n > 0 && if ops[n - 1].SetPacketCallback? then ops[n - 1].present else CallbackAt(ops, n - 1)
  }

  /** Operation i emits a packet: a frame with CPU pixels, or with no pixels anywhere, while a callback is installed. */
  predicate EmitsAt(ops: seq<Op>, i: nat)
    requires i < |ops|
  {
    ops[i].Encode? && CallbackAt(ops, i) && (ops[i].frame.cpuPixels != [] || !ops[i].frame.gpuResident)
  }

  predicate RequestsAt(ops: seq<Op>, i: nat)
    requires i < |ops|
  {
    ops[i].RequestKeyframe? || ops[i].ForceIntraRefresh?
  }

  /** Some packet was emitted between operations i and n. */
  predicate EmittedBetween(ops: seq<Op>, i: nat, n: nat)
    requires n <= |ops|
  {
    exists j :: i <= j < n && EmitsAt(ops, j)
  }

  /** A request was made that no packet has answered yet. */
  predicate RequestOpen(ops: seq<Op>, n: nat)
    requires n <= |ops|
  {
    exists r :: 0 <= r < n && RequestsAt(ops, r) && !EmittedBetween(ops, r, n)
  }

  lemma RequestOpenStep(ops: seq<Op>, n: nat)
    requires n < |ops|
    ensures RequestOpen(ops, n + 1) <==> !EmitsAt(ops, n) && (RequestOpen(ops, n) || RequestsAt(ops, n))
    ensures EmittedBetween(ops, 0, n + 1) <==> EmittedBetween(ops, 0, n) || EmitsAt(ops, n)
  {
    forall r | 0 <= r <= n ensures EmittedBetween(ops, r, n + 1) <==> EmittedBetween(ops, r, n) || EmitsAt(ops, n) {
    }
    if !EmitsAt(ops, n) && RequestsAt(ops, n) {
      assert !EmittedBetween(ops, n, n + 1);
    }
  }

  /** The encoder's flags, from the operations alone. */
  lemma {:induction false} FlagsAgree(ops: seq<Op>, n: nat)
    requires n <= |ops|
    ensures Run(ops, n) == Encoder(CallbackAt(ops, n), RequestOpen(ops, n), !EmittedBetween(ops, 0, n))
  {
    if n > 0 {
      FlagsAgree(ops, n - 1);
      RequestOpenStep(ops, n - 1);
    }
  }

  /** Keyframes over a run: an encode emits exactly when a callback is installed and the frame is not GPU-only;
      the packet is a keyframe exactly when it is the first one or a keyframe or intra-refresh request came since
      the previous one (failed encodes in between consume nothing); and it decodes back to the frame. */
  lemma KeyframesAnswerRequests(ops: seq<Op>, i: nat)
    requires i < |ops| && ops[i].Encode?
    ensures var f, r := ops[i].frame, EncodeResult(Run(ops, i), ops[i].frame);
      && (r.Ok? <==> EmitsAt(ops, i))
      && (!r.Ok? ==> r == Fail(if CallbackAt(ops, i) then Unsupported else InvalidArgument))
      && (r.Ok? ==>
            && (r.value.keyframe <==> !EmittedBetween(ops, 0, i) || RequestOpen(ops, i))
            && r.value.timestampUs == f.timestampUs
            && Decoded(r.value.data) == Ok(Survivor(f))
            && Field(r.value.data, 24, 4) == if r.value.keyframe then 1 else 0)
  {
    FlagsAgree(ops, i);
    var e := Run(ops, i);
    DecodeEncoded(ops[i].frame, e.forceKeyframe || e.firstFrame);
    HeaderReadsBack(ops[i].frame, e.forceKeyframe || e.firstFrame);
  }

  /** The packets handed to the callback during the first n operations, in order. */
  function Emitted(ops: seq<Op>, n: nat): seq<EncodedPacket>
    requires n <= |ops|
  {
    if n == 0 then []
    else
      var e, op := Run(ops, n - 1), ops[n - 1];
      Emitted(ops, n - 1)
      + if op.Encode? && EncodeResult(e, op.frame).Ok? then [EncodeResult(e, op.frame).value] else []
  }

  /** The same packets from the operations alone: one for each emitting encode, a keyframe when it is the first or
      a request is open. */
  function Packets(ops: seq<Op>, n: nat): seq<EncodedPacket>
    requires n <= |ops|
  {
    if n == 0 then []
    else if !EmitsAt(ops, n - 1) then Packets(ops, n - 1)
    else
      var f, keyframe := ops[n - 1].frame, !EmittedBetween(ops, 0, n - 1) || RequestOpen(ops, n - 1);
      Packets(ops, n - 1) + [EncodedPacket(PacketData(f, keyframe), f.timestampUs, keyframe)]
  }

  /** The packet stream of every run is decided by the operations. */
  lemma {:induction false} PacketsFollowOps(ops: seq<Op>, n: nat)
    requires n <= |ops|
    ensures Emitted(ops, n) == Packets(ops, n)
  {
    hide Run, PacketData, RequestOpen, EmittedBetween, CallbackAt;
    if n > 0 {
      PacketsFollowOps(ops, n - 1);
      FlagsAgree(ops, n - 1);
    }
  }

  class StubEncoder {
    var hasCallback: bool
    var forceKeyframe: bool
    var firstFrame: bool

    function Abs(): Encoder
      reads this
    {
      Encoder(hasCallback, forceKeyframe, firstFrame)
    }

    constructor ()
      ensures Abs() == NewEncoder
    {
      hasCallback, forceKeyframe, firstFrame := false, false, true;
    }

    method InstallCallback(present: bool)
      modifies this
      ensures Abs() == Step(old(Abs()), SetPacketCallback(present))
    {
      hasCallback := present;
    }

    method AskForKeyframe()
      modifies this
      ensures Abs() == Step(old(Abs()), RequestKeyframe)
    {
      forceKeyframe := true;
    }

    /** There is no intra-refresh; a keyframe is asked for instead. */
    method AskForIntraRefresh()
      modifies this
      ensures Abs() == Step(old(Abs()), ForceIntraRefresh)
    {
      forceKeyframe := true;
    }

    method EncodeFrame(f: VideoFrame) returns (r: Result<EncodedPacket>)
      modifies this
      ensures Abs() == Step(old(Abs()), Encode(f))
      ensures r == EncodeResult(old(Abs()), f)
    {
      if !hasCallback { return Fail(InvalidArgument); }
      if f.cpuPixels == [] && f.gpuResident { return Fail(Unsupported); }
      var keyframe := forceKeyframe || firstFrame;
      var data := [];
      data := data + Header(f, keyframe);
      data := data + f.cpuPixels;
      assert data == PacketData(f, keyframe);
      forceKeyframe := false;
      firstFrame := false;
      return Ok(EncodedPacket(data, f.timestampUs, keyframe));
    }

    /** An encoder driven through any finite sequence of operations ends in the state the runs above speak of and
        emits their packets. */
    method Serve(ops: seq<Op>) returns (packets: seq<EncodedPacket>)
      requires Abs() == NewEncoder
      modifies this
      ensures Abs() == Run(ops, |ops|)
      ensures packets == Emitted(ops, |ops|)
    {
      hide Step, EncodeResult;
      packets := [];
      for i := 0 to |ops|
        invariant Abs() == Run(ops, i)
        invariant packets == Emitted(ops, i)
      {
        match ops[i] {
          case SetPacketCallback(present) => InstallCallback(present);
          case RequestKeyframe => AskForKeyframe();
          case ForceIntraRefresh => AskForIntraRefresh();
          case Encode(f) =>
            var r := EncodeFrame(f);
            if r.Ok? { packets := packets + [r.value]; }
        }
      }
    }
  }

  class StubDecoder {
    var hasCallback: bool

    constructor ()
      ensures !hasCallback
    {
      hasCallback := false;
    }

    /** Decodes a packet into the frame handed to the callback. */
    method Decode(packet: EncodedPacket) returns (r: Result<VideoFrame>)
      ensures r == if !hasCallback then Fail(InvalidArgument) else Decoded(packet.data)
    {
      if !hasCallback { return Fail(InvalidArgument); }
      var data := packet.data;
      if |data| < HeaderLen { return Fail(InvalidArgument); }
      if Field(data, 0, 4) != StubMagic { return Fail(InvalidArgument); }
      var expected := HeaderLen + Field(data, 28, 4);
      if |data| < expected { return Fail(InvalidArgument); }
      FieldBounds(data);
      return Ok(VideoFrame(Field(data, 4, 4), Field(data, 8, 4), Field(data, 12, 4), Field(data, 16, 8),
                           false, data[HeaderLen..expected]));
    }
  }
}
