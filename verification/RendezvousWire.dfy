/** The rendezvous server end to end: the bytes a pass receives, the bytes it sends, the records it stores. */
module RendezvousWire {
  import opened Common
  import opened Net
  import opened Protocol
  import opened RegistryStore
  import opened ServerLoop
  import opened Rendezvous
  import opened RendezvousRuns

  /** The pass receives a frame of the given type, ID and body, with anything behind it. */
  predicate Receives(tick: Tick, from: Endpoint, kind: MessageType, id: seq<Byte>, body: seq<Byte>, junk: seq<Byte>) {
    tick.arrival == Some(Datagram(from, Encode(Frame(kind, id, body)) + junk))
  }

  /** The pass sends exactly one datagram, to the given endpoint, and it reads as the given frame. */
  predicate SendsOne(out: seq<Sent>, to: Endpoint, f: Frame) {
    |out| == 1 && out[0].to == to && Decode(out[0].data) == Ok(f)
  }

  /** What the wire keeps of an ID, and of a body. */
  function WireId(id: seq<Byte>): seq<Byte> {
    if |id| > 255 then id[..255] else id
  }

  function WireBody(body: seq<Byte>): seq<Byte> {
    if |body| > 65535 then body[..65535] else body
  }

  /** The body attests a 32-byte key: one byte of length and the key, then the same for the signature and for the
      verify key, each cut to 255 bytes. */
  predicate Attests(body: seq<Byte>, key: seq<Byte>, sig: seq<Byte>, vk: seq<Byte>) {
    var s, v := WireId(sig), WireId(vk);
    && |key| == 32 && |body| == 35 + |s| + |v|
    && body[0] == 32 && body[1..33] == key
    && body[33] == |s| && body[34..34 + |s|] == s
    && body[34 + |s|] == |v| && body[35 + |s|..] == v
  }

  // ----- which bytes are which message -----

  /** The server acts on a datagram exactly when it starts with the encoding of a frame within the wire limits, and
      then on that frame. */
  lemma RequestIff(tick: Tick, f: Frame)
    ensures Request(tick) == Some(f) <==>
      && tick.arrival.Some? && f.kind != Unknown && |f.id| <= 255 && |f.body| <= 65535
      && Encode(f) <= tick.arrival.value.data
  {
    if tick.arrival.Some? {
      var data := tick.arrival.value.data;
      if Request(tick) == Some(f) {
        DecodedIsPrefix(data);
      }
      if f.kind != Unknown && |f.id| <= 255 && |f.body| <= 65535 && Encode(f) <= data {
        hide Decode, Encode;
        DecodeEncode(f, data[|Encode(f)|..]);
        assert Encode(f) + data[|Encode(f)|..] == data;
      }
    }
  }

  lemma RequestOnWire(tick: Tick, from: Endpoint, kind: MessageType, id: seq<Byte>, body: seq<Byte>, junk: seq<Byte>)
    requires Receives(tick, from, kind, id, body, junk) && kind != Unknown
    ensures Request(tick) == Some(Frame(kind, WireId(id), WireBody(body))) && Source(tick) == from
  {
    hide Decode, Encode;
    DecodeEncode(Frame(kind, id, body), junk);
  }

  /** Datagrams that do not start with a known frame, and frames of the types only a server sends, change nothing
      and are not answered. */
  lemma OthersAreIgnored(s: State, tick: Tick, signer: Signer)
    requires Request(tick).None? || Request(tick).value.kind in {RegisterOk, LookupOk, LookupFail}
    ensures Handled(s, tick) == s && Replies(s, tick, signer) == []
  {
  }

  // ----- what goes out -----

  lemma MailReads(to: Endpoint, kind: MessageType, id: RedeskId, body: seq<Byte>)
    requires kind != Unknown
    ensures SendsOne([Mail(to, kind, id, body)], to, Frame(kind, WireId(id), WireBody(body)))
  {
    hide Decode, Encode;
    DecodeMail(Frame(kind, id, body));
  }

  lemma AttestationAttests(key: seq<Byte>, sig: seq<Byte>, vk: seq<Byte>)
    requires |key| == 32
    ensures Attests(Attestation(key, sig, vk), key, sig, vk)
    ensures WireBody(Attestation(key, sig, vk)) == Attestation(key, sig, vk)
  {
    var s, v := WireId(sig), WireId(vk);
    assert Cut(key, 255) == key && Cut(sig, 255) == s && Cut(vk, 255) == v;
    var a := Attestation(key, sig, vk);
    assert a == ([32] + key) + ([|s|] + s) + ([|v|] + v);
    assert a[1..33] == key && a[34..34 + |s|] == s && a[35 + |s|..] == v;
  }

  // ----- the four requests -----

  /** LOOKUP: one datagram back to the asker, about the ID in the id field or, when that is empty, in the body:
      LOOKUP_OK attesting the key of its last accepted REGISTER when it is bound, else LOOKUP_FAIL. Nothing changes. */
  lemma LookupOnWire(boot: int, ticks: seq<Tick>, n: nat, signer: Signer,
                     from: Endpoint, id: seq<Byte>, body: seq<Byte>, junk: seq<Byte>)
    requires n < |ticks| && Receives(ticks[n], from, Lookup, id, body, junk)
    ensures var target := if WireId(id) != [] then WireId(id) else WireBody(body);
      var out, reg := Replies(Run(boot, ticks, n), ticks[n], signer), LastRegister(boot, ticks, n, target);
      if Bound(boot, ticks, n, target) then
        && reg.Some?
        && var key := KeyIn(ticks[reg.value]);
        var attestation := Attestation(key, signer.sign(target, key), signer.verifyKey);
        && Attests(attestation, key, signer.sign(target, key), signer.verifyKey)
        && SendsOne(out, from, Frame(LookupOk, WireId(target), attestation))
      else SendsOne(out, from, Frame(LookupFail, WireId(target), []))
    ensures Handled(Run(boot, ticks, n), ticks[n]) == Run(boot, ticks, n)
  {
    hide Run, Bound, Decode, Encode, Attestation, Attests, Mail, SendsOne, KeyIn, LastRegister;
    RequestOnWire(ticks[n], from, Lookup, id, body, junk);
    var target := if WireId(id) != [] then WireId(id) else WireBody(body);
    RegistryAgreesWithRun(boot, ticks, n, target);
    if Bound(boot, ticks, n, target) {
      var key := KeyIn(ticks[LastRegister(boot, ticks, n, target).value]);
      AttestationAttests(key, signer.sign(target, key), signer.verifyKey);
      MailReads(from, LookupOk, target, Attestation(key, signer.sign(target, key), signer.verifyKey));
    } else {
      MailReads(from, LookupFail, target, []);
    }
  }

  /** The key in a REGISTER is the first 32 bytes of its body. */
  lemma KeyOnWire(tick: Tick, from: Endpoint, id: seq<Byte>, body: seq<Byte>, junk: seq<Byte>)
    requires Receives(tick, from, Register, id, body, junk) && |body| >= 32
    ensures Request(tick).Some? && |Request(tick).value.body| >= 32 && KeyIn(tick) == body[..32]
  {
    hide Encode, Decode;
    RequestOnWire(tick, from, Register, id, body, junk);
    assert WireBody(body)[..32] == body[..32];
  }

  /** The history lets id take the key at the given time: id is unbound, or last registered that key, or was last
      touched at least 90 seconds before. */
  predicate MayTake(boot: int, ticks: seq<Tick>, n: nat, id: RedeskId, key: seq<Byte>)
    requires n < |ticks|
  {
    Bound(boot, ticks, n, id) ==>
      var reg, touch := LastRegister(boot, ticks, n, id), LastTouch(boot, ticks, n, id);
      && reg.Some? && touch.Some?
      && (key == KeyIn(ticks[reg.value]) || ticks[n].handleTime - ticks[touch.value].handleTime >= 90)
  }

  /** REGISTER: with an ID, 32 bytes of key and the history's leave the ID is stored with that key, the source and
      the time, and REGISTER_OK attesting the key goes back; otherwise nothing is stored and nothing is sent. */
  lemma RegisterOnWire(boot: int, ticks: seq<Tick>, n: nat, signer: Signer,
                       from: Endpoint, id: seq<Byte>, body: seq<Byte>, junk: seq<Byte>)
    requires n < |ticks| && Receives(ticks[n], from, Register, id, body, junk)
    ensures var s, who := Run(boot, ticks, n), WireId(id);
      var out, after := Replies(s, ticks[n], signer), Handled(s, ticks[n]);
      if |body| >= 32 && who != [] && MayTake(boot, ticks, n, who, body[..32]) then
        var key := body[..32];
        var attestation := Attestation(key, signer.sign(who, key), signer.verifyKey);
        && Attests(attestation, key, signer.sign(who, key), signer.verifyKey)
        && SendsOne(out, from, Frame(RegisterOk, who, attestation))
        && after == s.(registry := s.registry[who := PeerRecord(who, from, key, 0, ticks[n].handleTime)])
      else out == [] && after == s
  {
    hide Run, Bound, Decode, Encode, Attestation, Attests, Mail, SendsOne, LastRegister, LastTouch;
    RequestOnWire(ticks[n], from, Register, id, body, junk);
    var s, who := Run(boot, ticks, n), WireId(id);
    RegisterAcceptedIff(boot, ticks, n, who);
    if |body| >= 32 {
      KeyOnWire(ticks[n], from, id, body, junk);
      var key := body[..32];
      assert WireBody(body)[..32] == key;
      AttestationAttests(key, signer.sign(who, key), signer.verifyKey);
      MailReads(from, RegisterOk, who, Attestation(key, signer.sign(who, key), signer.verifyKey));
    }
  }

  /** KEEPALIVE: a bound ID keeps its key and takes the source and the time; an unbound one changes nothing. It is
      never answered. */
  lemma KeepaliveOnWire(boot: int, ticks: seq<Tick>, n: nat, signer: Signer,
                        from: Endpoint, id: seq<Byte>, body: seq<Byte>, junk: seq<Byte>)
    requires n < |ticks| && Receives(ticks[n], from, Keepalive, id, body, junk)
    ensures var s, who := Run(boot, ticks, n), WireId(id);
      var reg := LastRegister(boot, ticks, n, who);
      && Replies(s, ticks[n], signer) == []
      && (Bound(boot, ticks, n, who) ==> reg.Some?)
      && Handled(s, ticks[n]) ==
           if Bound(boot, ticks, n, who)
           then s.(registry :=
                     s.registry[who := PeerRecord(who, from, KeyIn(ticks[reg.value]), 0, ticks[n].handleTime)])
           else s
  {
    hide Run, Bound, Decode, Encode, LastRegister, LastTouch;
    RequestOnWire(ticks[n], from, Keepalive, id, body, junk);
    RegistryAgreesWithRun(boot, ticks, n, WireId(id));
  }

  /** BROKER_CANDIDATES: for a bound ID the blob goes, with the ID, to the source of the ID's last touch, and a
      session under "caller|callee" is found or made for the two endpoints; else LOOKUP_FAIL goes back. */
  lemma BrokerOnWire(boot: int, ticks: seq<Tick>, n: nat, signer: Signer,
                     from: Endpoint, id: seq<Byte>, body: seq<Byte>, junk: seq<Byte>)
    requires n < |ticks| && Chronological(boot, ticks)
    requires Receives(ticks[n], from, BrokerCandidates, id, body, junk)
    ensures var s, who := Run(boot, ticks, n), WireId(id);
      var out, after := Replies(s, ticks[n], signer), Handled(s, ticks[n]);
      var touch := LastTouch(boot, ticks, n, who);
      if Bound(boot, ticks, n, who) then
        && touch.Some?
        && var callee := Source(ticks[touch.value]);
        var key := from.Display() + "|" + callee.Display();
        && SendsOne(out, callee, Frame(BrokerCandidates, who, WireBody(body)))
        && after == (if key in s.sessions then s
                     else s.(sessions := s.sessions[key := BrokerSession([], who, from, callee, ticks[n].handleTime)]))
      else SendsOne(out, from, Frame(LookupFail, who, [])) && after == s
  {
    RequestOnWire(ticks[n], from, BrokerCandidates, id, body, junk);
    var s, who := Run(boot, ticks, n), WireId(id);
    RegistryAgreesWithRun(boot, ticks, n, who);
    RunsStayFresh(boot, ticks, n);
    hide Run, Bound, Decode, Encode, Mail, SendsOne, LastRegister, LastTouch;
    MailReads(from, LookupFail, who, []);
    if Bound(boot, ticks, n, who) {
      var callee := Source(ticks[LastTouch(boot, ticks, n, who).value]);
      MailReads(callee, BrokerCandidates, who, body);
      assert WireBody(WireBody(body)) == WireBody(body) && WireId(who) == who;
      BrokerOpensOne(s, from, who, callee, ticks[n].handleTime);
    }
  }

  lemma BrokerOpensOne(s: State, from: Endpoint, who: RedeskId, callee: Endpoint, t: int)
    requires forall k :: k in s.sessions ==> s.sessions[k].created != 0
    ensures var key := from.Display() + "|" + callee.Display();
      WithSession(s.sessions, PairKey(from, callee), from, who, callee, t)
        == if key in s.sessions then s.sessions else s.sessions[key := BrokerSession([], who, from, callee, t)]
  {
    PrintedForm(from, callee);
    var key := from.Display() + "|" + callee.Display();
    if key in s.sessions {
      assert s.sessions[key := s.sessions[key]] == s.sessions;
    }
  }

  // ----- the clock -----

  /** The sweep: at least 15 seconds after the last one, exactly the records last seen and the sessions created at
      most 60 seconds ago survive, unchanged; before that nothing happens. */
  lemma SweepOnClock(s: State, tick: Tick, id: RedeskId, k: string)
    ensures var h, after, now := Handled(s, tick), Step(s, tick), tick.sweepTime;
      var sweeps := now - h.lastSweep >= 15;
      && after.lastSweep == (if sweeps then now else h.lastSweep)
      && (id in after.registry <==> id in h.registry && (sweeps ==> now - h.registry[id].lastSeen <= 60))
      && (id in after.registry ==> after.registry[id] == h.registry[id])
      && (k in after.sessions <==> k in h.sessions && (sweeps ==> now - h.sessions[k].created <= 60))
      && (k in after.sessions ==> after.sessions[k] == h.sessions[k])
  {
    hide Handled;
  }
}
