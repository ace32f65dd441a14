/** core/crypto/crypto_stub.cpp: the stub Noise session: handshake flags, nonces, and the repeating-key stream.
    It offers no secrecy; what is modelled is its state machine and its byte arithmetic. */
module NoiseSession {
  import opened Common
  import opened LittleEndian

  const KeyLen := 32
  const NonceLen := 8
  const MaxMessage := 65535
  const MaxNonce: uint64 := TwoTo64 - 1

  type Bytes = seq<Byte>

  type PublicKey = k: Bytes | |k| == KeyLen witness seq(KeyLen, _ => 0)

  datatype Pattern = XK | KK

  datatype Session = Session(
    localKey: PublicKey,
    remoteKey: PublicKey,
    remoteKnown: bool,
    done: bool,
    written: nat,
    read: nat,
    sendNonce: uint64,
    recvNonce: uint64)

  /** KK starts out knowing the remote key; XK learns it. */
  function Start(pattern: Pattern, localKey: PublicKey, remoteKey: PublicKey): Session {
    Session(localKey, remoteKey, pattern == KK, false, 0, 0, 0, 0)
  }

  // ----- exclusive or -----

  /** Exclusive or of the lowest bits. */
  function XorLow(a: nat, b: nat): (r: nat)
    ensures r < 2
  {
    if a % 2 == b % 2 then 0 else 1
  }

  /** Exclusive or of the low w bits. */
  function XorBits(a: nat, b: nat, w: nat): nat {
    if w == 0 then 0 else XorLow(a, b) + 2 * XorBits(a / 2, b / 2, w - 1)
  }

  function Pow2(w: nat): nat {
    if w == 0 then 1 else 2 * Pow2(w - 1)
  }

  lemma {:induction false} XorBound(a: nat, b: nat, w: nat)
    ensures XorBits(a, b, w) < Pow2(w)
  {
    if w > 0 {
      XorBound(a / 2, b / 2, w - 1);
    }
  }

  function Xor(a: Byte, b: Byte): Byte {
    XorBound(a, b, 8);
    assert Pow2(8) == 4 * Pow2(6) == 16 * Pow2(4);
    XorBits(a, b, 8)
  }

  lemma LowAndRest(low: nat, rest: nat)
    requires low < 2
    ensures (low + 2 * rest) % 2 == low && (low + 2 * rest) / 2 == rest
  {
  }

  /** The low bit of the result, and the rest of it. */
  lemma XorSplit(a: nat, b: nat, w: nat)
    requires w > 0
    ensures XorBits(a, b, w) % 2 == XorLow(a, b) && XorBits(a, b, w) / 2 == XorBits(a / 2, b / 2, w - 1)
  {
    hide XorLow;
    LowAndRest(XorLow(a, b), XorBits(a / 2, b / 2, w - 1));
  }

  /** Combining twice with the same bits cancels. */
  lemma {:induction false} XorCancels(p: nat, n: nat, w: nat)
    requires p < Pow2(w)
    ensures XorBits(XorBits(p, n, w), n, w) == p
  {
    if w > 0 {
      XorSplit(p, n, w);
      XorCancels(p / 2, n / 2, w - 1);
      assert XorLow(XorBits(p, n, w), n) == p % 2;
    }
  }

  /** Combining with two sets of bits that share a part leaves their difference. */
  lemma {:induction false} XorSharedPartCancels(p: nat, a: nat, b: nat, n: nat, w: nat)
    ensures XorBits(XorBits(p, XorBits(a, n, w), w), XorBits(b, n, w), w) == XorBits(p, XorBits(a, b, w), w)
  {
    if w > 0 {
      var an, bn, ab := XorBits(a, n, w), XorBits(b, n, w), XorBits(a, b, w);
      XorSplit(a, n, w);
      XorSplit(b, n, w);
      XorSplit(a, b, w);
      XorSplit(p, an, w);
      XorSharedPartCancels(p / 2, a / 2, b / 2, n / 2, w - 1);
      assert XorLow(XorBits(p, an, w), bn) == XorLow(p, ab);
    }
  }

  /** Only equal bits have no difference. */
  lemma {:induction false} XorFixedIffEqual(p: nat, a: nat, b: nat, w: nat)
    requires p < Pow2(w) && a < Pow2(w) && b < Pow2(w)
    ensures XorBits(p, XorBits(a, b, w), w) == p <==> a == b
  {
    if w > 0 {
      XorSplit(a, b, w);
      XorFixedIffEqual(p / 2, a / 2, b / 2, w - 1);
      assert XorLow(p, XorBits(a, b, w)) == p % 2 <==> a % 2 == b % 2;
    }
  }

  /** Bit k of a number. */
  function BitOf(n: nat, k: nat): nat {
    if k == 0 then n % 2 else BitOf(n / 2, k - 1)
  }

  lemma {:induction false} XorBit(a: nat, b: nat, w: nat, k: nat)
    requires k < w
    ensures BitOf(XorBits(a, b, w), k) == if BitOf(a, k) == BitOf(b, k) then 0 else 1
  {
    XorSplit(a, b, w);
    if k > 0 {
      XorBit(a / 2, b / 2, w - 1, k - 1);
    }
  }

  /** A byte's bits differ exactly where the two bytes' bits do. */
  lemma XorIsBitwise(a: Byte, b: Byte, k: nat)
    requires k < 8
    ensures BitOf(Xor(a, b), k) == if BitOf(a, k) == BitOf(b, k) then 0 else 1
  {
    XorBit(a, b, 8, k);
  }

  lemma XorLaws(p: Byte, a: Byte, b: Byte, n: Byte)
    ensures Xor(Xor(p, n), n) == p
    ensures Xor(Xor(p, Xor(a, n)), Xor(b, n)) == Xor(p, Xor(a, b))
    ensures Xor(p, Xor(a, b)) == p <==> a == b
  {
    assert Pow2(8) == 4 * Pow2(6) == 16 * Pow2(4);
    XorCancels(p, n, 8);
    XorSharedPartCancels(p, a, b, n, 8);
    XorFixedIffEqual(p, a, b, 8);
  }

  // ----- the nonce -----

  /** The nonce in front of a ciphertext. */
  function NonceBytes(nonce: uint64): Bytes {
    ToLE(nonce, NonceLen)
  }

  /** Writing the low byte out leaves the rest to be written. */
  lemma MoveLowByte(out: Bytes, rest: nat, w: nat)
    requires w > 0
    ensures out + ToLE(rest, w) == (out + [rest % 256]) + ToLE(rest / 256, w - 1)
  {
    LowByteFirst(rest, w);
    assert (out + [rest % 256]) + ToLE(rest / 256, w - 1) == out + ([rest % 256] + ToLE(rest / 256, w - 1));
  }

  function NonceOf(ciphertext: Bytes): nat
    requires |ciphertext| >= NonceLen
  {
    FromLE(ciphertext[..NonceLen])
  }

  lemma NonceInRange(ciphertext: Bytes)
    requires |ciphertext| >= NonceLen
    ensures NonceOf(ciphertext) < TwoTo64
  {
    FromLEBound(ciphertext[..NonceLen]);
    Pow256Values();
  }

  /** The eight-byte nonce encoding round-trips. */
  lemma NonceRoundTrip(nonce: uint64, body: Bytes)
    ensures NonceOf(NonceBytes(nonce) + body) == nonce
  {
    assert (NonceBytes(nonce) + body)[..NonceLen] == NonceBytes(nonce);
    Pow256Values();
    FromToLE(nonce, NonceLen);
  }

  // ----- the key stream -----

  function KeyByte(local: PublicKey, remote: PublicKey, nonce: nat, i: nat): Byte {
    Xor((local + remote)[i % (KeyLen + KeyLen)], (nonce + i) % 256)
  }

  function Stream(local: PublicKey, remote: PublicKey, nonce: nat, text: Bytes): (out: Bytes)
    ensures |out| == |text|
    ensures forall i :: 0 <= i < |text| ==> out[i] == Xor(text[i], KeyByte(local, remote, nonce, i))
  {
    seq(|text|, i requires 0 <= i < |text| => Xor(text[i], KeyByte(local, remote, nonce, i)))
  }

  /** The nonce, then the combined text. */
  function Ciphertext(local: PublicKey, remote: PublicKey, nonce: uint64, text: Bytes): Bytes {
    NonceBytes(nonce) + Stream(local, remote, nonce, text)
  }

  /** Under one session's own key the stream undoes itself. */
  lemma StreamIsInvolution(local: PublicKey, remote: PublicKey, nonce: nat, text: Bytes)
    ensures Stream(local, remote, nonce, Stream(local, remote, nonce, text)) == text
  {
    var once := Stream(local, remote, nonce, text);
    forall i | 0 <= i < |text| ensures Stream(local, remote, nonce, once)[i] == text[i] {
      XorLaws(text[i], 0, 0, KeyByte(local, remote, nonce, i));
    }
  }

  // ----- one operation -----

  datatype Op =
    | Write(payload: Bytes)
    | Read(message: Bytes)
    | Encrypt(plaintext: Bytes)
    | Decrypt(ciphertext: Bytes)

  function Complete(s: Session): Session {
    if s.remoteKnown && s.written >= 1 && s.read >= 1 then s.(done := true) else s
  }

  /** The error an operation runs into, if any. */
  function Refusal(s: Session, op: Op): Option<ErrorCode> {
    match op
    case Write(_) => if s.done then Some(InvalidArgument) else None
    case Read(message) => if s.done || |message| < KeyLen then Some(InvalidArgument) else None
    case Encrypt(plaintext) => if !s.done || |plaintext| > MaxMessage then Some(InvalidArgument) else None
    case Decrypt(ciphertext) =>
      if !s.done || |ciphertext| < NonceLen then Some(InvalidArgument)
      else if NonceOf(ciphertext) < s.recvNonce then Some(PermissionDenied)
      else None
  }

  /** What an operation returns. */
  function Outcome(s: Session, op: Op): Result<Bytes> {
    if Refusal(s, op).Some? then Fail(Refusal(s, op).value)
    else match op
      case Write(payload) => Ok(s.localKey + payload)
      case Read(message) => Ok(message[KeyLen..])
      case Encrypt(plaintext) =>
        Ok(Ciphertext(s.localKey, s.remoteKey, s.sendNonce, plaintext))
      case Decrypt(ciphertext) =>
        Ok(Stream(s.localKey, s.remoteKey, NonceOf(ciphertext), ciphertext[NonceLen..]))
  }

  function Step(s: Session, op: Op): Session {
    if Refusal(s, op).Some? then s
    else match op
      case Write(_) => Complete(s.(written := s.written + 1))
      case Read(message) => Complete(s.(remoteKey := message[..KeyLen], remoteKnown := true, read := s.read + 1))
      case Encrypt(_) => s.(sendNonce := (s.sendNonce as int + 1) % TwoTo64)
      case Decrypt(ciphertext) => s.(recvNonce := (NonceOf(ciphertext) + 1) % TwoTo64)
  }

  /** The session after the first n operations. */
  function Run(s: Session, ops: seq<Op>, n: nat): Session
    requires n <= |ops|
  {
    if n == 0 then s else Step(Run(s, ops, n - 1), ops[n - 1])
  }

  /** What the first n operations return, in order. */
  function Outcomes(s: Session, ops: seq<Op>, n: nat): seq<Result<Bytes>>
    requires n <= |ops|
  {
    if n == 0 then [] else Outcomes(s, ops, n - 1) + [Outcome(Run(s, ops, n - 1), ops[n - 1])]
  }

  class StubNoiseSession {
    const localKey: PublicKey
    var remoteKey: PublicKey
    var remoteKnown: bool
    var handshakeDone: bool
    var messagesWritten: nat
    var messagesRead: nat
    var sendNonce: uint64
    var recvNonce: uint64

    function Abs(): Session
      reads this
    {
      Session(localKey, remoteKey, remoteKnown, handshakeDone, messagesWritten, messagesRead, sendNonce, recvNonce)
    }

    constructor (pattern: Pattern, local: PublicKey, remote: PublicKey)
      ensures Abs() == Start(pattern, local, remote)
    {
      localKey, remoteKey := local, remote;
      remoteKnown := pattern == KK;
      handshakeDone := false;
      messagesWritten, messagesRead := 0, 0;
      sendNonce, recvNonce := 0, 0;
    }

    method MaybeComplete()
      modifies this`handshakeDone
      ensures Abs() == Complete(old(Abs()))
    {
      if remoteKnown && messagesWritten >= 1 && messagesRead >= 1 {
        if !handshakeDone { handshakeDone := true; }
      }
    }

    method WriteMessage(payload: Bytes) returns (r: Result<Bytes>)
      modifies this
      ensures Abs() == Step(old(Abs()), Write(payload)) && r == Outcome(old(Abs()), Write(payload))
    {
      if handshakeDone { return Fail(InvalidArgument); }
      var out := [];
      out := out + localKey;
      out := out + payload;
      assert out == localKey + payload;
      messagesWritten := messagesWritten + 1;
      MaybeComplete();
      return Ok(out);
    }

    /** The peer's key is learned byte by byte from the front of the message. */
    method ReadMessage(message: Bytes) returns (r: Result<Bytes>)
      modifies this
      ensures Abs() == Step(old(Abs()), Read(message)) && r == Outcome(old(Abs()), Read(message))
    {
      if handshakeDone || |message| < KeyLen { return Fail(InvalidArgument); }
      for i := 0 to KeyLen
        invariant forall j :: 0 <= j < i ==> remoteKey[j] == message[j]
        invariant Abs() == old(Abs()).(remoteKey := remoteKey)
      {
        remoteKey := remoteKey[i := message[i]];
      }
      assert remoteKey == message[..KeyLen];
      remoteKnown := true;
      messagesRead := messagesRead + 1;
      MaybeComplete();
      return Ok(message[KeyLen..]);
    }

    method XorStream(text: Bytes, nonce: nat, prefix: Bytes) returns (out: Bytes)
      ensures out == prefix + Stream(localKey, remoteKey, nonce, text)
    {
      var key := localKey + remoteKey;
      out := prefix;
      for i := 0 to |text|
        invariant out == prefix + Stream(localKey, remoteKey, nonce, text)[..i]
      {
        var k := Xor(key[i % |key|], (nonce + i) % 256);
        out := out + [Xor(text[i], k)];
      }
    }

    /** Pushes the nonce, low byte first. */
    method PushNonce(nonce: uint64) returns (out: Bytes)
      ensures out == NonceBytes(nonce)
    {
      out := [];
      var rest: nat := nonce;
      for i := 0 to NonceLen
        invariant |out| == i
        invariant NonceBytes(nonce) == out + ToLE(rest, NonceLen - i)
      {
        MoveLowByte(out, rest, NonceLen - i);
        out := out + [rest % 256];
        rest := rest / 256;
      }
    }

    method TakeNonce(ciphertext: Bytes) returns (nonce: nat)
      requires |ciphertext| >= NonceLen
      ensures nonce == NonceOf(ciphertext)
    {
      nonce := 0;
      var scale := 1;
      for i := 0 to NonceLen
        invariant nonce == FromLE(ciphertext[..i])
        invariant scale == Pow256(i)
      {
        assert ciphertext[..i + 1] == ciphertext[..i] + [ciphertext[i]];
        FromLESnoc(ciphertext[..i], ciphertext[i]);
        nonce := nonce + ciphertext[i] as int * scale;
        scale := 256 * scale;
      }
    }

    method EncryptMessage(plaintext: Bytes) returns (r: Result<Bytes>)
      modifies this`sendNonce
      ensures Abs() == Step(old(Abs()), Encrypt(plaintext)) && r == Outcome(old(Abs()), Encrypt(plaintext))
    {
      if !handshakeDone { return Fail(InvalidArgument); }
      if |plaintext| > MaxMessage { return Fail(InvalidArgument); }
      var nonce := sendNonce;
      sendNonce := (sendNonce as int + 1) % TwoTo64;
      var ciphertext := PushNonce(nonce);
      ciphertext := XorStream(plaintext, nonce, ciphertext);
      return Ok(ciphertext);
    }

    method DecryptMessage(ciphertext: Bytes) returns (r: Result<Bytes>)
      modifies this`recvNonce
      ensures Abs() == Step(old(Abs()), Decrypt(ciphertext)) && r == Outcome(old(Abs()), Decrypt(ciphertext))
    {
      if !handshakeDone { return Fail(InvalidArgument); }
      if |ciphertext| < NonceLen { return Fail(InvalidArgument); }
      var nonce := TakeNonce(ciphertext);
      if nonce < recvNonce { return Fail(PermissionDenied); }
      recvNonce := (nonce + 1) % TwoTo64;
      var plaintext := XorStream(ciphertext[NonceLen..], nonce, []);
      assert [] + Stream(localKey, remoteKey, nonce, ciphertext[NonceLen..])
          == Stream(localKey, remoteKey, nonce, ciphertext[NonceLen..]);
      return Ok(plaintext);
    }

    /** Performs one operation of any kind. */
    method Perform(op: Op) returns (r: Result<Bytes>)
      modifies this
      ensures Abs() == Step(old(Abs()), op) && r == Outcome(old(Abs()), op)
    {
      match op {
        case Write(payload) => r := WriteMessage(payload);
        case Read(message) => r := ReadMessage(message);
        case Encrypt(plaintext) => r := EncryptMessage(plaintext);
        case Decrypt(ciphertext) => r := DecryptMessage(ciphertext);
      }
    }

    /** A session driven through any finite sequence of operations ends in Run, each operation returning its
        outcome at that point of the run. */
    method Serve(ops: seq<Op>) returns (results: seq<Result<Bytes>>)
      modifies this
      ensures Abs() == Run(old(Abs()), ops, |ops|)
      ensures results == Outcomes(old(Abs()), ops, |ops|)
    {
      ghost var start := Abs();
      results := [];
      for n := 0 to |ops|
        invariant Abs() == Run(start, ops, n)
        invariant results == Outcomes(start, ops, n)
      {
        var r := Perform(ops[n]);
        results := results + [r];
      }
    }
  }
}
