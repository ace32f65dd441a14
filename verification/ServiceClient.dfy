/** ui/src/ServiceClient.cpp: incremental reassembly of [u32 length][u16 opcode][payload] frames, big-endian,
    from whatever chunks the socket delivers. */
module ServiceClient {
  import opened Common

  const MaxFrameBytes := 0x10_0000
  const LenBytes := 4
  const OpBytes := 2

  type Opcode = x: int | 0 <= x < 0x1_0000

  datatype Message = Message(opcode: Opcode, payload: seq<Byte>)

  /** What a byte stream amounts to: the frames completed, the bytes left over, and whether an out-of-bounds
      length was met, which discards the rest. */
  datatype Parsed = Parsed(messages: seq<Message>, residue: seq<Byte>, malformed: bool)

  datatype ClientState = Disconnected | Connecting | Authenticating | Ready | Faulted

  function ReadBE16(s: seq<Byte>): Opcode
    requires |s| >= 2
  {
    s[0] as int * 256 + s[1] as int
  }

  function ReadBE32(s: seq<Byte>): uint32
    requires |s| >= 4
  {
    ((s[0] as int * 256 + s[1] as int) * 256 + s[2] as int) * 256 + s[3] as int
  }

  function BE16(n: Opcode): seq<Byte> {
    [n as int / 256, n as int % 256]
  }

  function BE32(n: uint32): seq<Byte> {
    [n as int / 256 / 256 / 256, n as int / 256 / 256 % 256, n as int / 256 % 256, n as int % 256]
  }

  /** The stream's next length prefix is complete and out of bounds. */
  predicate BadLength(s: seq<Byte>) {
    |s| >= LenBytes && (ReadBE32(s) < OpBytes || ReadBE32(s) > MaxFrameBytes)
  }

  /** What the front of a stream holds: too little to tell, a bad length, or a complete frame of the given size. */
  datatype Front = Short | Bad | Whole(message: Message, size: nat)

  function FrontOf(s: seq<Byte>): (r: Front)
    ensures r.Whole? ==> LenBytes + OpBytes <= r.size <= |s|
  {
    if |s| < LenBytes then Short
    else if BadLength(s) then Bad
    else
      var total := LenBytes + ReadBE32(s) as int;
      if |s| < total then Short
      else Whole(Message(ReadBE16(s[LenBytes..]), s[LenBytes + OpBytes..total]), total)
  }

  /** The one-shot parse of a whole stream. */
  function Parse(s: seq<Byte>): Parsed
    decreases |s|
  {
    match FrontOf(s)
    case Short => Parsed([], s, false)
    case Bad => Parsed([], [], true)
    case Whole(m, size) =>
      var rest := Parse(s[size..]);
      Parsed([m] + rest.messages, rest.residue, rest.malformed)
  }

  /** The documented layout of a frame. */
  function Layout(m: Message): seq<Byte>
    requires |m.payload| + OpBytes <= MaxFrameBytes
  {
    BE32(OpBytes + |m.payload|) + BE16(m.opcode) + m.payload
  }

  predicate Fits(ms: seq<Message>) {
    forall i :: 0 <= i < |ms| ==> |ms[i].payload| + OpBytes <= MaxFrameBytes
  }

  function Layouts(ms: seq<Message>): seq<Byte>
    requires Fits(ms)
  {
    if ms == [] then [] else Layout(ms[0]) + Layouts(ms[1..])
  }

  function Concat(chunks: seq<seq<Byte>>): seq<Byte> {
    if chunks == [] then [] else chunks[0] + Concat(chunks[1..])
  }

  // ----- the parse on bytes -----

  /** The number the first four bytes hold, the high byte first. */
  function FrameLength(s: seq<Byte>): nat
    requires |s| >= 4
  {
    0x100_0000 * s[0] as int + 0x1_0000 * s[1] as int + 0x100 * s[2] as int + s[3] as int
  }

  lemma FrontOnBytes(s: seq<Byte>)
    ensures |s| < 4 ==> FrontOf(s) == Short
    ensures |s| >= 4 ==>
      FrontOf(s) == if FrameLength(s) < 2 || FrameLength(s) > 1048576 then Bad
                    else if |s| < 4 + FrameLength(s) then Short
                    else Whole(Message(0x100 * s[4] as int + s[5] as int, s[6..4 + FrameLength(s)]), 4 + FrameLength(s))
  {
    if |s| >= 4 {
      assert ReadBE32(s) == FrameLength(s);
      assert |s| >= 6 ==> s[4..][0] == s[4] && s[4..][1] == s[5];
    }
  }

  /** The parse, byte by byte. The length comes first, its high byte first; below 2 or above 2^20 it stops everything;
      a frame still incomplete is left over; a complete one gives its two-byte opcode and its payload, and parsing
      goes on behind it. */
  lemma ParseOnBytes(s: seq<Byte>)
    ensures |s| < 4 ==> Parse(s) == Parsed([], s, false)
    ensures |s| >= 4 ==>
      var len := FrameLength(s);
      if len < 2 || len > 1048576 then Parse(s) == Parsed([], [], true)
      else if |s| < 4 + len then Parse(s) == Parsed([], s, false)
      else
        var rest := Parse(s[4 + len..]);
        Parse(s) == Parsed([Message(0x100 * s[4] as int + s[5] as int, s[6..4 + len])] + rest.messages,
                           rest.residue, rest.malformed)
  {
    hide FrontOf, FrameLength;
    FrontOnBytes(s);
  }

  // ----- the parse does not depend on where the stream is cut -----

  /** What the front of a stream holds is settled as soon as it can be told. */
  lemma FrontIsStable(a: seq<Byte>, b: seq<Byte>)
    requires !FrontOf(a).Short?
    ensures FrontOf(a + b) == FrontOf(a)
  {
    assert forall i :: 0 <= i < LenBytes ==> (a + b)[i] == a[i];
    if FrontOf(a).Whole? {
      var size := FrontOf(a).size;
      assert (a + b)[LenBytes + OpBytes..size] == a[LenBytes + OpBytes..size];
      assert (a + b)[LenBytes..][0] == a[LenBytes..][0] && (a + b)[LenBytes..][1] == a[LenBytes..][1];
    }
  }

  /** A frame read off the front is laid out as documented, and its layout reads back as that frame. */
  lemma FrontIsLayout(s: seq<Byte>)
    requires FrontOf(s).Whole?
    ensures var f := FrontOf(s);
      |f.message.payload| + OpBytes <= MaxFrameBytes && Layout(f.message) == s[..f.size]
  {
    var size := FrontOf(s).size;
    HeaderBytes(s);
    assert s[..size] == s[..LenBytes] + s[LenBytes..LenBytes + OpBytes] + s[LenBytes + OpBytes..size];
  }

  lemma LayoutIsFront(m: Message, rest: seq<Byte>)
    requires |m.payload| + OpBytes <= MaxFrameBytes
    ensures FrontOf(Layout(m) + rest) == Whole(m, |Layout(m)|)
  {
    var s, n := Layout(m) + rest, OpBytes + |m.payload|;
    HeaderRoundTrip(n, m.opcode);
    assert forall i :: 0 <= i < LenBytes ==> s[i] == BE32(n)[i];
    assert s[LenBytes..][0] == BE16(m.opcode)[0] && s[LenBytes..][1] == BE16(m.opcode)[1];
    assert s[LenBytes + OpBytes..LenBytes + n] == m.payload;
  }

  lemma HeaderRoundTrip(n: uint32, op: Opcode)
    ensures ReadBE32(BE32(n)) == n && ReadBE16(BE16(op)) == op
  {
  }

  lemma HeaderBytes(s: seq<Byte>)
    requires |s| >= LenBytes + OpBytes
    ensures BE32(ReadBE32(s)) == s[..LenBytes] && BE16(ReadBE16(s[LenBytes..])) == s[LenBytes..LenBytes + OpBytes]
  {
    var a := s[0] as int * 256 + s[1] as int;
    var b := a * 256 + s[2] as int;
    Digits(s[0], s[1]);
    Digits(a, s[2]);
    Digits(b, s[3]);
    Digits(s[4], s[5]);
  }

  lemma Digits(high: nat, low: Byte)
    ensures (high * 256 + low as int) / 256 == high && (high * 256 + low as int) % 256 == low
  {
  }

  /** Parsing a longer stream resumes from the leftover bytes, unless parsing had already stopped. */
  lemma {:induction false} ParseResumes(a: seq<Byte>, b: seq<Byte>)
    ensures var first := Parse(a);
      if first.malformed then Parse(a + b) == first
      else
        var second := Parse(first.residue + b);
        Parse(a + b) == Parsed(first.messages + second.messages, second.residue, second.malformed)
    decreases |a|
  {
    hide FrontOf;
    match FrontOf(a)
    case Short =>
      assert [] + Parse(a + b).messages == Parse(a + b).messages;
    case Bad =>
      FrontIsStable(a, b);
    case Whole(m, size) =>
      FrontIsStable(a, b);
      ParseResumes(a[size..], b);
      assert (a + b)[size..] == a[size..] + b;
      var first := Parse(a[size..]);
      var second := Parse(first.residue + b);
      assert [m] + (first.messages + second.messages) == ([m] + first.messages) + second.messages;
  }

  /** Nothing is lost or invented: the frames delivered and the bytes left over are the stream. When parsing
      stopped, what follows the delivered frames is an out-of-bounds length. Each frame took at least six bytes. */
  predicate AccountsFor(p: Parsed, s: seq<Byte>) {
    && Fits(p.messages)
    && Layouts(p.messages) <= s
    && (p.malformed ==> BadLength(s[|Layouts(p.messages)|..]) && p.residue == [])
    && (!p.malformed ==> s == Layouts(p.messages) + p.residue && |p.residue| < LenBytes + MaxFrameBytes)
    && |Layouts(p.messages)| >= (LenBytes + OpBytes) * |p.messages|
  }

  lemma LayoutsCons(m: Message, ms: seq<Message>)
    requires |m.payload| + OpBytes <= MaxFrameBytes && Fits(ms)
    ensures Fits([m] + ms) && Layouts([m] + ms) == Layout(m) + Layouts(ms)
    ensures |Layout(m)| >= LenBytes + OpBytes
  {
    assert ([m] + ms)[1..] == ms;
  }

  lemma AccountingStep(m: Message, rest: Parsed, tail: seq<Byte>)
    requires |m.payload| + OpBytes <= MaxFrameBytes && AccountsFor(rest, tail)
    ensures AccountsFor(Parsed([m] + rest.messages, rest.residue, rest.malformed), Layout(m) + tail)
  {
    hide Layout, Layouts, Fits, BadLength;
    LayoutsCons(m, rest.messages);
    var head, done := Layout(m), Layouts(rest.messages);
    var s := head + tail;
    assert head + done <= s;
    assert s[|head + done|..] == tail[|done|..];
    if !rest.malformed {
      assert head + (done + rest.residue) == (head + done) + rest.residue;
    }
  }

  lemma NothingToAccountFor(s: seq<Byte>)
    ensures FrontOf(s).Short? ==> AccountsFor(Parsed([], s, false), s)
    ensures FrontOf(s).Bad? ==> AccountsFor(Parsed([], [], true), s)
  {
    assert s[0..] == s;
  }

  lemma {:induction false} ParseAccountsForStream(s: seq<Byte>)
    ensures AccountsFor(Parse(s), s)
    decreases |s|
  {
    hide AccountsFor, Layout, FrontOf;
    match FrontOf(s)
    case Short =>
      NothingToAccountFor(s);
    case Bad =>
      NothingToAccountFor(s);
    case Whole(m, size) =>
      ParseAccountsForStream(s[size..]);
      FrontIsLayout(s);
      AccountingStep(m, Parse(s[size..]), s[size..]);
      assert s == s[..size] + s[size..];
  }

  /** Any list of frames in the documented layout is parsed back exactly. */
  lemma {:induction false} ParseOfLayouts(ms: seq<Message>)
    requires Fits(ms)
    ensures Parse(Layouts(ms)) == Parsed(ms, [], false)
  {
    if ms != [] {
      hide Layout, FrontOf;
      LayoutIsFront(ms[0], Layouts(ms[1..]));
      assert Layouts(ms)[|Layout(ms[0])|..] == Layouts(ms[1..]);
      ParseOfLayouts(ms[1..]);
      assert [ms[0]] + ms[1..] == ms;
    }
  }

  /** What feeding a stream chunk by chunk gives, starting from the bytes already buffered; an out-of-bounds
      length ends the connection, so no later chunk is read. */
  function Feed(buffer: seq<Byte>, chunks: seq<seq<Byte>>): Parsed
    decreases |chunks|
  {
    if chunks == [] then Parsed([], buffer, false)
    else
      var now := Parse(buffer + chunks[0]);
      if now.malformed then now
      else
        var later := Feed(now.residue, chunks[1..]);
        Parsed(now.messages + later.messages, later.residue, later.malformed)
  }

  /** A buffer holding no complete frame and no bad length: what a drain leaves behind. */
  predicate Drained(buffer: seq<Byte>) {
    Parse(buffer) == Parsed([], buffer, false)
  }

  lemma {:induction false} ResidueIsDrained(s: seq<Byte>)
    ensures Drained(Parse(s).residue)
    decreases |s|
  {
    if FrontOf(s).Whole? {
      ResidueIsDrained(s[FrontOf(s).size..]);
    }
  }

  /** Chunking independence: however a stream is cut, feeding the pieces gives the one-shot parse of the whole. */
  lemma {:induction false} ChunkingIndependence(buffer: seq<Byte>, chunks: seq<seq<Byte>>)
    requires Drained(buffer)
    ensures Feed(buffer, chunks) == Parse(buffer + Concat(chunks))
    decreases |chunks|
  {
    if chunks == [] {
      assert buffer + Concat(chunks) == buffer;
    } else {
      var s := buffer + chunks[0];
      assert buffer + Concat(chunks) == s + Concat(chunks[1..]);
      ParseResumes(s, Concat(chunks[1..]));
      ResidueIsDrained(s);
      if !Parse(s).malformed {
        ChunkingIndependence(Parse(s).residue, chunks[1..]);
      }
    }
  }

  /** Frames in the documented layout, cut anywhere, are recovered exactly. */
  lemma FramesSurviveChunking(ms: seq<Message>, chunks: seq<seq<Byte>>)
    requires Fits(ms) && Concat(chunks) == Layouts(ms)
    ensures Feed([], chunks) == Parsed(ms, [], false)
  {
    ChunkingIndependence([], chunks);
    assert [] + Concat(chunks) == Concat(chunks);
    ParseOfLayouts(ms);
  }

  predicate StreamParsesTo(s: seq<Byte>, ms: seq<Message>, residue: seq<Byte>, malformed: bool) {
    Parse(s) == Parsed(ms, residue, malformed)
  }

  /** Parsing start comes to the frames done so far followed by whatever the buffer still parses to. */
  predicate Pending(start: seq<Byte>, done: seq<Message>, buffer: seq<Byte>) {
    var rest := Parse(buffer);
    Parse(start) == Parsed(done + rest.messages, rest.residue, rest.malformed)
  }

  lemma PendingStep(start: seq<Byte>, done: seq<Message>, buffer: seq<Byte>, m: Message, size: nat)
    requires Pending(start, done, buffer) && FrontOf(buffer) == Whole(m, size)
    ensures Pending(start, done + [m], buffer[size..])
  {
    var rest := Parse(buffer[size..]);
    assert (done + [m]) + rest.messages == done + ([m] + rest.messages);
  }

  lemma PendingEnds(start: seq<Byte>, done: seq<Message>, buffer: seq<Byte>)
    requires Pending(start, done, buffer)
    ensures FrontOf(buffer).Short? ==> Parse(start) == Parsed(done, buffer, false)
    ensures FrontOf(buffer).Bad? ==> Parse(start) == Parsed(done, [], true)
  {
    assert done + [] == done;
  }

  lemma PendingBegins(start: seq<Byte>)
    ensures Pending(start, [], start)
  {
    assert [] + Parse(start).messages == Parse(start).messages;
  }

  /** Feeding all chunks comes to what was emitted after the first i of them followed by feeding the rest. */
  ghost predicate FedSoFar(start: seq<Byte>, chunks: seq<seq<Byte>>, i: nat, before: seq<Message>,
                           emitted: seq<Message>, buffer: seq<Byte>)
    requires i <= |chunks|
  {
    var all, rest := Feed(start, chunks), Feed(buffer, chunks[i..]);
    before + all.messages == emitted + rest.messages && all.residue == rest.residue && all.malformed == rest.malformed
  }

  lemma FeedStep(start: seq<Byte>, chunks: seq<seq<Byte>>, i: nat, before: seq<Message>,
                 emitted: seq<Message>, buffer: seq<Byte>)
    requires i < |chunks| && FedSoFar(start, chunks, i, before, emitted, buffer)
    ensures var now := Parse(buffer + chunks[i]);
      if now.malformed then
        var all := Feed(start, chunks);
        all.malformed && all.residue == now.residue && before + all.messages == emitted + now.messages
      else FedSoFar(start, chunks, i + 1, before, emitted + now.messages, now.residue)
  {
    hide Parse;
    assert chunks[i..][0] == chunks[i] && chunks[i..][1..] == chunks[i + 1..];
    var now := Parse(buffer + chunks[i]);
    var later := Feed(now.residue, chunks[i + 1..]);
    assert emitted + (now.messages + later.messages) == (emitted + now.messages) + later.messages;
  }

  class ServiceClient {
    var rxBuffer: seq<Byte>
    var authToken: seq<Byte>
    var state: ClientState

    /** The messageReceived and errorOccurred signals emitted so far. */
    ghost var emitted: seq<Message>
    ghost var errors: nat

    /** The bytes read since the connection was opened (or a malformed frame dropped it), and the messages
        emitted for them. */
    ghost var stream: seq<Byte>
    ghost var delivered: seq<Message>

    /** The client has emitted exactly the frames its stream completes and buffers exactly the rest. */
    ghost predicate Valid()
      reads this
    {
      StreamParsesTo(stream, delivered, rxBuffer, false)
    }

    constructor ()
      ensures Valid() && state == Disconnected && rxBuffer == [] && emitted == [] && errors == 0
    {
      rxBuffer, authToken, state := [], [], Disconnected;
      emitted, errors, stream, delivered := [], 0, [], [];
    }

    method ConnectToService(token: seq<Byte>)
      requires Valid()
      modifies this
      ensures Valid() && emitted == old(emitted) && errors == old(errors)
      ensures if old(state) in {Connecting, Authenticating, Ready}
              then state == old(state) && authToken == old(authToken) && rxBuffer == old(rxBuffer)
              else state == Connecting && authToken == token && rxBuffer == [] && stream == []
    {
      if state == Connecting || state == Authenticating || state == Ready { return; }
      authToken := token;
      rxBuffer := [];
      state := Connecting;
      stream, delivered := [], [];
    }

    method DisconnectFromService()
      modifies this`state
      ensures state == Disconnected
    {
      state := Disconnected;
    }

    /** Without a token the client stays in Authenticating. */
    method OnConnected()
      modifies this`state
      ensures state == if authToken == [] then Authenticating else Ready
    {
      state := Authenticating;
      if authToken == [] { return; }
      state := Ready;
    }

    method OnSocketError()
      modifies this`state, this`errors
      ensures state == Faulted && errors == old(errors) + 1
    {
      errors := errors + 1;
      state := Faulted;
    }

    /** Whether the socket took all of a command; taken is the number of bytes it would accept, or -1. */
    method SendCommand(command: seq<Byte>, taken: int) returns (written: bool)
      ensures written <==> state == Ready && |command| % 0x1_0000_0000 <= 1048576 && taken == |command|
    {
      if state != Ready { return false; }
      if |command| % TwoTo32 > MaxFrameBytes { return false; }
      return taken == |command|;
    }

    /** Takes complete frames off the front of the buffer until it runs short or meets a bad length, which
        drops the connection. */
    method DrainFrames() returns (dropped: bool)
      modifies this`rxBuffer, this`state, this`emitted, this`errors
      ensures emitted == old(emitted) + Parse(old(rxBuffer)).messages
      ensures rxBuffer == Parse(old(rxBuffer)).residue
      ensures state == if Parse(old(rxBuffer)).malformed then Disconnected else old(state)
      ensures errors == if Parse(old(rxBuffer)).malformed then old(errors) + 1 else old(errors)
      ensures dropped == Parse(old(rxBuffer)).malformed
    {
      hide Parse, Pending;
      ghost var done: seq<Message> := [];
      PendingBegins(rxBuffer);
      while true
        invariant emitted == old(emitted) + done
        invariant state == old(state) && errors == old(errors)
        invariant Pending(old(rxBuffer), done, rxBuffer)
        decreases |rxBuffer|
      {
        PendingEnds(old(rxBuffer), done, rxBuffer);
        if |rxBuffer| < LenBytes { return false; }
        var frameLen := ReadBE32(rxBuffer);
        if frameLen < OpBytes || frameLen > MaxFrameBytes {
          errors := errors + 1;
          DisconnectFromService();
          rxBuffer := [];
          return true;
        }
        var total := LenBytes + frameLen as int;
        if |rxBuffer| < total { return false; }
        var opcode := ReadBE16(rxBuffer[LenBytes..]);
        var payload := rxBuffer[LenBytes + OpBytes..total];
        PendingStep(old(rxBuffer), done, rxBuffer, Message(opcode, payload), total);
        rxBuffer := rxBuffer[total..];
        emitted := emitted + [Message(opcode, payload)];
        done := done + [Message(opcode, payload)];
      }
    }

    /** The state is not consulted: frames are emitted whether or not the client is authenticated. */
    method OnReadyRead(chunk: seq<Byte>) returns (dropped: bool)
      requires Valid()
      modifies this
      ensures Valid()
      ensures var p := Parse(old(rxBuffer) + chunk);
        && dropped == p.malformed
        && emitted == old(emitted) + p.messages
        && rxBuffer == p.residue
        && StreamParsesTo(old(stream) + chunk, old(delivered) + p.messages, p.residue, p.malformed)
      ensures !dropped ==> stream == old(stream) + chunk && state == old(state) && errors == old(errors)
      ensures dropped ==> stream == [] && state == Disconnected && errors == old(errors) + 1
      ensures |rxBuffer| < 4 + 1048576
    {
      ParseResumes(stream, chunk);
      ParseAccountsForStream(rxBuffer + chunk);
      ResidueIsDrained(rxBuffer + chunk);
      ghost var p := Parse(rxBuffer + chunk);
      rxBuffer := rxBuffer + chunk;
      dropped := DrainFrames();
      if p.malformed {
        stream, delivered := [], [];
      } else {
        stream, delivered := stream + chunk, delivered + p.messages;
      }
    }

    /** Reads a stream chunk by chunk until it is all read or a malformed frame drops the connection. */
    method ReadAll(chunks: seq<seq<Byte>>) returns (dropped: bool)
      requires Valid()
      modifies this
      ensures Valid()
      ensures var p := Feed(old(rxBuffer), chunks);
        && dropped == p.malformed
        && emitted == old(emitted) + p.messages
        && rxBuffer == p.residue
    {
      ghost var start, before := rxBuffer, emitted;
      dropped := false;
      assert emitted == before + [];
      for i := 0 to |chunks|
        invariant Valid() && !dropped
        invariant FedSoFar(start, chunks, i, before, emitted, rxBuffer)
      {
        FeedStep(start, chunks, i, before, emitted, rxBuffer);
        dropped := OnReadyRead(chunks[i]);
        if dropped { return; }
      }
      assert chunks[|chunks|..] == [];
      assert emitted + [] == emitted;
    }
  }
}
