/** server/rendezvous/main.cpp: the message handlers, the sweeps and the loop of the rendezvous server. */
module Rendezvous {
  import opened Common
  import opened Net
  import opened Protocol
  import opened RegistryStore
  import opened ServerLoop

  const RegistryTtl := 60
  const ExpirySweep := 15

  datatype BrokerSession = BrokerSession(
    caller: RedeskId,
    callee: RedeskId,
    callerEp: Endpoint,
    calleeEp: Endpoint,
    created: int)

  type Sessions = map<string, BrokerSession>

  /** A default-constructed session, as operator[] inserts it. */
  const BlankSession := BrokerSession([], [], Endpoint("", 0, false), Endpoint("", 0, false), 0)

  /** The signer: a total, deterministic function of ID and key, and the published verify key. */
  datatype Signer = Signer(sign: (RedeskId, seq<Byte>) -> seq<Byte>, verifyKey: seq<Byte>)

  datatype State = State(registry: Registry, sessions: Sessions, lastSweep: int)

  // ----- the attestation body -----

  function LengthPrefixed(v: seq<Byte>): seq<Byte> {
    [|Cut(v, 255)|] + Cut(v, 255)
  }

  function Attestation(pk: seq<Byte>, sig: seq<Byte>, vk: seq<Byte>): seq<Byte> {
    LengthPrefixed(pk) + LengthPrefixed(sig) + LengthPrefixed(vk)
  }

  /** encode_attestation: each field is pushed with a one-byte length, cut at 255 bytes. */
  method EncodeAttestation(pk: seq<Byte>, sig: seq<Byte>, vk: seq<Byte>) returns (b: seq<Byte>)
    ensures b == Attestation(pk, sig, vk)
  {
    b := [];
    var fields := [pk, sig, vk];
    for i := 0 to 3
      invariant i == 0 ==> b == []
      invariant i == 1 ==> b == LengthPrefixed(pk)
      invariant i == 2 ==> b == LengthPrefixed(pk) + LengthPrefixed(sig)
      invariant i == 3 ==> b == Attestation(pk, sig, vk)
    {
      var v := fields[i];
      var len: Byte := if |v| > 255 then 255 else |v|;
      assert v[..len] == Cut(v, 255);
      b := b + [len] + v[..len];
    }
  }

  /** The client's symmetric parse of one field: the field and what follows it. */
  function TakeField(b: seq<Byte>): Option<(seq<Byte>, seq<Byte>)> {
    if b == [] || |b| < 1 + b[0] as int then None
    else Some((b[1..1 + b[0] as int], b[1 + b[0] as int..]))
  }

  lemma TakeLengthPrefixed(v: seq<Byte>, rest: seq<Byte>)
    ensures TakeField(LengthPrefixed(v) + rest) == Some((Cut(v, 255), rest))
  {
    var b := LengthPrefixed(v) + rest;
    assert b[0] == |Cut(v, 255)|;
    assert b[1..1 + b[0] as int] == Cut(v, 255) && b[1 + b[0] as int..] == rest;
  }

  /** The attestation body determines its three fields, whatever follows them. */
  lemma AttestationInjective(pk: seq<Byte>, sig: seq<Byte>, vk: seq<Byte>, rest: seq<Byte>,
                             pk': seq<Byte>, sig': seq<Byte>, vk': seq<Byte>, rest': seq<Byte>)
    requires Attestation(pk, sig, vk) + rest == Attestation(pk', sig', vk') + rest'
    ensures Cut(pk, 255) == Cut(pk', 255) && Cut(sig, 255) == Cut(sig', 255) && Cut(vk, 255) == Cut(vk', 255)
    ensures rest == rest'
  {
    var t2, t2' := LengthPrefixed(vk) + rest, LengthPrefixed(vk') + rest';
    var t1, t1' := LengthPrefixed(sig) + t2, LengthPrefixed(sig') + t2';
    assert Attestation(pk, sig, vk) + rest == LengthPrefixed(pk) + t1;
    assert Attestation(pk', sig', vk') + rest' == LengthPrefixed(pk') + t1';
    TakeLengthPrefixed(pk, t1);
    TakeLengthPrefixed(pk', t1');
    TakeLengthPrefixed(sig, t2);
    TakeLengthPrefixed(sig', t2');
    TakeLengthPrefixed(vk, rest);
    TakeLengthPrefixed(vk', rest');
  }

  // ----- one message -----

  /** The frame a pass has to handle, if it received one of a known type. */
  function Request(tick: Tick): Option<Frame> {
    if tick.arrival.None? then None
    else
      var r := Decode(tick.arrival.value.data);
      if r.Ok? && r.value.kind != Unknown then Some(r.value) else None
  }

  predicate Asks(tick: Tick, kind: MessageType) {
    Request(tick).Some? && Request(tick).value.kind == kind
  }

  function Source(tick: Tick): Endpoint
    requires Request(tick).Some?
  {
    tick.arrival.value.from
  }

  function RegisterRecord(from: Endpoint, f: Frame, t: int): PeerRecord
    requires |f.body| >= StaticPubKeyLen
  {
    PeerRecord(f.id, from, f.body[..StaticPubKeyLen], 0, t)
  }

  predicate RegisterAccepted(reg: Registry, from: Endpoint, f: Frame, t: int) {
    |f.body| >= StaticPubKeyLen && UpsertStatus(reg, RegisterRecord(from, f, t)).Success?
  }

  function AfterRegister(reg: Registry, from: Endpoint, f: Frame, t: int): Registry {
    if |f.body| < StaticPubKeyLen then reg else Upserted(reg, RegisterRecord(from, f, t))
  }

  function AfterKeepalive(reg: Registry, from: Endpoint, f: Frame, t: int): Registry {
    if f.id in reg then Upserted(reg, reg[f.id].(endpoint := from, lastSeen := t)) else reg
  }

  function LookupTarget(f: Frame): RedeskId {
    if f.id != [] then f.id else f.body
  }

  /** The sessions once the one under token has been found or made; a blank one takes the given particulars. */
  function WithSession(sessions: Sessions, token: string, caller: Endpoint, callee: RedeskId, calleeEp: Endpoint,
                       t: int): Sessions
  {
    var sess := if token in sessions then sessions[token] else BlankSession;
    sessions[token := if sess.created == 0
                      then sess.(callerEp := caller, callee := callee, calleeEp := calleeEp, created := t)
                      else sess]
  }

  function AfterBroker(reg: Registry, sessions: Sessions, from: Endpoint, f: Frame, t: int): Sessions {
    if f.id !in reg then sessions
    else WithSession(sessions, PairKey(from, reg[f.id].endpoint), from, f.id, reg[f.id].endpoint, t)
  }

  function Mail(to: Endpoint, kind: MessageType, id: RedeskId, body: seq<Byte>): Sent {
    Sent(to, Encode(Frame(kind, id, body)))
  }

  function RegisterReply(reg: Registry, from: Endpoint, f: Frame, t: int, signer: Signer): seq<Sent> {
    if !RegisterAccepted(reg, from, f, t) then []
    else
      var key := f.body[..StaticPubKeyLen];
      [Mail(from, RegisterOk, f.id, Attestation(key, signer.sign(f.id, key), signer.verifyKey))]
  }

  function LookupReply(reg: Registry, from: Endpoint, f: Frame, signer: Signer): seq<Sent> {
    var target := LookupTarget(f);
    if target !in reg then [Mail(from, LookupFail, target, [])]
    else
      var rec := reg[target];
      [Mail(from, LookupOk, target,
            Attestation(rec.staticPubKey, signer.sign(rec.id, rec.staticPubKey), signer.verifyKey))]
  }

  function BrokerReply(reg: Registry, from: Endpoint, f: Frame): seq<Sent> {
    if f.id !in reg then [Mail(from, LookupFail, f.id, [])]
    else [Mail(reg[f.id].endpoint, BrokerCandidates, f.id, f.body)]
  }

  // ----- one pass of the loop -----

  function Handled(s: State, tick: Tick): State {
    match Request(tick)
    case None => s
    case Some(f) =>
      var from, t := Source(tick), tick.handleTime;
      match f.kind
      case Register => s.(registry := AfterRegister(s.registry, from, f, t))
      case Keepalive => s.(registry := AfterKeepalive(s.registry, from, f, t))
      case BrokerCandidates => s.(sessions := AfterBroker(s.registry, s.sessions, from, f, t))
      case _ => s
  }

  function Replies(s: State, tick: Tick, signer: Signer): seq<Sent> {
    match Request(tick)
    case None => []
    case Some(f) =>
      var from, t := Source(tick), tick.handleTime;
      match f.kind
      case Register => RegisterReply(s.registry, from, f, t, signer)
      case Lookup => LookupReply(s.registry, from, f, signer)
      case BrokerCandidates => BrokerReply(s.registry, from, f)
      case _ => []
  }

  function LiveSessions(sessions: Sessions, now: int): Sessions {
    map token | token in sessions && !(now - sessions[token].created > RegistryTtl) :: sessions[token]
  }

  function Swept(s: State, now: int): State {
    if now - s.lastSweep >= ExpirySweep
    then State(Expired(s.registry, now, RegistryTtl), LiveSessions(s.sessions, now), now)
    else s
  }

  function Step(s: State, tick: Tick): State {
    Swept(Handled(s, tick), tick.sweepTime)
  }

  /** The state at start-up. */
  function Boot(boot: int): State {
    State(map[], map[], boot)
  }

  /** The state after the first n passes. */
  function Run(boot: int, ticks: seq<Tick>, n: nat): State
    requires n <= |ticks|
  {
    if n == 0 then Boot(boot) else Step(Run(boot, ticks, n - 1), ticks[n - 1])
  }

  /** Everything sent during the first n passes, in order. */
  function Transcript(boot: int, ticks: seq<Tick>, n: nat, signer: Signer): seq<Sent>
    requires n <= |ticks|
  {
    if n == 0 then []
    else Transcript(boot, ticks, n - 1, signer) + Replies(Run(boot, ticks, n - 1), ticks[n - 1], signer)
  }

  class RendezvousServer {
    const registry: InMemoryRegistry
    const signer: Signer
    var sessions: Sessions
    var lastSweep: int

    ghost function Abs(): State
      reads this, registry
    {
      State(registry.records, sessions, lastSweep)
    }

    constructor (signer: Signer, now: int)
      ensures Abs() == Boot(now) && fresh(registry) && this.signer == signer
    {
      registry := new InMemoryRegistry();
      this.signer := signer;
      sessions := map[];
      lastSweep := now;
    }

    method HandleRegister(from: Endpoint, f: Frame, now: int) returns (out: seq<Sent>)
      modifies registry
      ensures registry.records == AfterRegister(old(registry.records), from, f, now)
      ensures out == RegisterReply(old(registry.records), from, f, now, signer)
    {
      if |f.body| < StaticPubKeyLen { return []; }
      var rec := PeerRecord(f.id, from, f.body[..StaticPubKeyLen], 0, now);
      var s := registry.Upsert(rec);
      if s.Error? { return []; }
      var sig := signer.sign(rec.id, rec.staticPubKey);
      var body := EncodeAttestation(rec.staticPubKey, sig, signer.verifyKey);
      var bytes := EncodeFrame(Frame(RegisterOk, f.id, body));
      return [Sent(from, bytes)];
    }

    method HandleKeepalive(from: Endpoint, f: Frame, now: int)
      modifies registry
      ensures registry.records == AfterKeepalive(old(registry.records), from, f, now)
    {
      var rec := registry.Lookup(f.id);
      if rec.Some? {
        var _ := registry.Upsert(rec.value.(endpoint := from, lastSeen := now));
      }
    }

    method HandleLookup(from: Endpoint, f: Frame) returns (out: seq<Sent>)
      ensures out == LookupReply(registry.records, from, f, signer)
    {
      var target := if f.id != [] then f.id else f.body;
      var rec := registry.Lookup(target);
      var bytes;
      if rec.None? {
        bytes := EncodeFrame(Frame(LookupFail, target, []));
      } else {
        var sig := signer.sign(rec.value.id, rec.value.staticPubKey);
        var body := EncodeAttestation(rec.value.staticPubKey, sig, signer.verifyKey);
        bytes := EncodeFrame(Frame(LookupOk, target, body));
      }
      return [Sent(from, bytes)];
    }

    /** Finds or makes the session stored under token; a new one is filled in field by field. */
    method Introduce(token: string, caller: Endpoint, callee: RedeskId, calleeEp: Endpoint, now: int)
      modifies this`sessions
      ensures sessions == WithSession(old(sessions), token, caller, callee, calleeEp, now)
    {
      if token !in sessions { sessions := sessions[token := BlankSession]; }
      var sess := sessions[token];
      if sess.created == 0 {
        sess := sess.(callerEp := caller);
        sess := sess.(callee := callee);
        sess := sess.(calleeEp := calleeEp);
        sess := sess.(created := now);
        sessions := sessions[token := sess];
      }
    }

    method HandleBroker(from: Endpoint, f: Frame, now: int) returns (out: seq<Sent>)
      modifies this`sessions
      ensures sessions == AfterBroker(registry.records, old(sessions), from, f, now)
      ensures out == BrokerReply(registry.records, from, f)
    {
      var target := registry.Lookup(f.id);
      if target.None? {
        var fail := EncodeFrame(Frame(LookupFail, f.id, []));
        return [Sent(from, fail)];
      }
      Introduce(PairKey(from, target.value.endpoint), from, f.id, target.value.endpoint, now);
      var bytes := EncodeFrame(Frame(BrokerCandidates, f.id, f.body));
      return [Sent(target.value.endpoint, bytes)];
    }

    /** The broker half of the sweep: an erasing loop over the sessions. */
    method DropOldSessions(now: int)
      modifies this`sessions
      ensures sessions == LiveSessions(old(sessions), now)
    {
      var pending := sessions.Keys;
      while pending != {}
        invariant pending <= sessions.Keys <= old(sessions).Keys
        invariant forall k :: k in sessions ==> sessions[k] == old(sessions)[k]
        invariant forall k :: k in old(sessions) && k !in pending ==>
          (k in sessions <==> !(now - old(sessions)[k].created > RegistryTtl))
      {
        var k :| k in pending;
        pending := pending - {k};
        if now - sessions[k].created > RegistryTtl {
          sessions := sessions - {k};
        }
      }
    }

    /** One pass of the loop: dispatch what arrived, then sweep when the period is over. */
    method Pass(tick: Tick) returns (out: seq<Sent>)
      modifies this, registry
      ensures Abs() == Step(old(Abs()), tick)
      ensures out == Replies(old(Abs()), tick, signer)
    {
      out := [];
      if tick.arrival.Some? {
        var r := DecodeFrame(tick.arrival.value.data);
        if r.Ok? && r.value.kind != Unknown {
          var f, from := r.value, tick.arrival.value.from;
          match f.kind {
            case Register => out := HandleRegister(from, f, tick.handleTime);
            case Keepalive => HandleKeepalive(from, f, tick.handleTime);
            case Lookup => out := HandleLookup(from, f);
            case BrokerCandidates => out := HandleBroker(from, f, tick.handleTime);
            case _ =>
          }
        }
      }
      assert Abs() == Handled(old(Abs()), tick);
      var now := tick.sweepTime;
      if now - lastSweep >= ExpirySweep {
        var _ := registry.Expire(now, RegistryTtl);
        DropOldSessions(now);
        lastSweep := now;
      }
    }

    /** The server loop, for any finite number of passes from start-up. */
    method Serve(ghost boot: int, ticks: seq<Tick>) returns (out: seq<Sent>)
      requires Abs() == Boot(boot)
      modifies this, registry
      ensures Abs() == Run(boot, ticks, |ticks|)
      ensures out == Transcript(boot, ticks, |ticks|, signer)
    {
      out := [];
      for i := 0 to |ticks|
        invariant Abs() == Run(boot, ticks, i)
        invariant out == Transcript(boot, ticks, i, signer)
      {
        var sent := Pass(ticks[i]);
        out := out + sent;
      }
    }
  }
}
