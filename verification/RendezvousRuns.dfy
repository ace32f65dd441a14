/** What holds of the rendezvous server over whole runs, stated on its message history. */
module RendezvousRuns {
  import opened Common
  import opened Net
  import opened Protocol
  import opened RegistryStore
  import opened ServerLoop
  import opened Rendezvous

  // ----- reading the history -----

  /** The 32-byte key a REGISTER frame carries. */
  function KeyIn(tick: Tick): seq<Byte>
    requires Request(tick).Some? && |Request(tick).value.body| >= 32
  {
    Request(tick).value.body[..32]
  }

  /** A well-formed REGISTER for id. */
  predicate AsksToRegister(tick: Tick, id: RedeskId) {
    Asks(tick, Register) && Request(tick).value.id == id != [] && |Request(tick).value.body| >= 32
  }

  /** Pass i carries a REGISTER for id that deserves acceptance: it is well formed, and either id is unbound, or it
      repeats the registered key, or the binding was last touched at least 90 seconds ago. */
  predicate RegisterAt(boot: int, ticks: seq<Tick>, i: nat, id: RedeskId)
    requires i < |ticks|
    decreases i, 3
  {
    && AsksToRegister(ticks[i], id)
    && (Bound(boot, ticks, i, id) ==>
          var reg, touch := LastRegister(boot, ticks, i, id), LastTouch(boot, ticks, i, id);
          && reg.Some? && touch.Some?
          && (KeyIn(ticks[i]) == KeyIn(ticks[reg.value])
              || ticks[i].handleTime - ticks[touch.value].handleTime >= 90))
  }

  /** Pass i carries a KEEPALIVE for an ID bound at that moment. */
  predicate KeepaliveAt(boot: int, ticks: seq<Tick>, i: nat, id: RedeskId)
    requires i < |ticks|
    decreases i, 3
  {
    Asks(ticks[i], Keepalive) && Request(ticks[i]).value.id == id && Bound(boot, ticks, i, id)
  }

  predicate TouchAt(boot: int, ticks: seq<Tick>, i: nat, id: RedeskId)
    requires i < |ticks|
    decreases i, 4
  {
    RegisterAt(boot, ticks, i, id) || KeepaliveAt(boot, ticks, i, id)
  }

  /** The most recent accepted REGISTER for id among the first n passes. */
  function LastRegister(boot: int, ticks: seq<Tick>, n: nat, id: RedeskId): (r: Option<nat>)
    requires n <= |ticks|
    ensures r.Some? ==> r.value < n && RegisterAt(boot, ticks, r.value, id) && AsksToRegister(ticks[r.value], id)
    ensures forall i :: 0 <= i < n && RegisterAt(boot, ticks, i, id) ==> r.Some? && i <= r.value
    decreases n, 0
  {
    if n == 0 then None
    else if RegisterAt(boot, ticks, n - 1, id) then Some(n - 1)
    else LastRegister(boot, ticks, n - 1, id)
  }

  /** The most recent accepted REGISTER or KEEPALIVE for id among the first n passes. */
  function LastTouch(boot: int, ticks: seq<Tick>, n: nat, id: RedeskId): (r: Option<nat>)
    requires n <= |ticks|
    ensures r.Some? ==> r.value < n && TouchAt(boot, ticks, r.value, id) && Request(ticks[r.value]).Some?
    ensures forall i :: 0 <= i < n && TouchAt(boot, ticks, i, id) ==> r.Some? && i <= r.value
    decreases n, 0
  {
    if n == 0 then None
    else if TouchAt(boot, ticks, n - 1, id) then Some(n - 1)
    else LastTouch(boot, ticks, n - 1, id)
  }

  /** The sweep ending pass j, if there is one, finds id touched at most 60 seconds before. */
  predicate SparedAt(boot: int, ticks: seq<Tick>, j: nat, id: RedeskId)
    requires j < |ticks|
    decreases j + 1, 1
  {
    SweepsAt(boot, ticks, j, 15) ==>
      var k := LastTouch(boot, ticks, j + 1, id);
      k.Some? && ticks[j].sweepTime - ticks[k.value].handleTime <= 60
  }

  /** id was registered, and every sweep since then spared it (BoundMeaning). None of these notions looks at the
      server's state: they read the messages and the clock alone. */
  predicate Bound(boot: int, ticks: seq<Tick>, n: nat, id: RedeskId)
    requires n <= |ticks|
    decreases n, 2
  {
    && n > 0
    && (RegisterAt(boot, ticks, n - 1, id) || Bound(boot, ticks, n - 1, id))
    && SparedAt(boot, ticks, n - 1, id)
  }

  /** Pass i registered id, and every sweep ending a pass from i to n spared it. */
  predicate RegisteredAndSpared(boot: int, ticks: seq<Tick>, i: nat, n: nat, id: RedeskId)
    requires i < n <= |ticks|
  {
    RegisterAt(boot, ticks, i, id) && forall j :: i <= j < n ==> SparedAt(boot, ticks, j, id)
  }

  lemma {:induction false} BoundMeaning(boot: int, ticks: seq<Tick>, n: nat, id: RedeskId)
    requires n <= |ticks|
    ensures Bound(boot, ticks, n, id) <==>
      exists i :: 0 <= i < n && RegisteredAndSpared(boot, ticks, i, n, id)
  {
    hide RegisterAt, SparedAt;
    if n > 0 {
      BoundMeaning(boot, ticks, n - 1, id);
      if Bound(boot, ticks, n, id) {
        if RegisterAt(boot, ticks, n - 1, id) {
          assert RegisteredAndSpared(boot, ticks, n - 1, n, id);
        } else {
          var i :| 0 <= i < n - 1 && RegisteredAndSpared(boot, ticks, i, n - 1, id);
          assert RegisteredAndSpared(boot, ticks, i, n, id);
        }
      }
      if i :| 0 <= i < n && RegisteredAndSpared(boot, ticks, i, n, id) {
        assert SparedAt(boot, ticks, n - 1, id);
        assert i < n - 1 ==> RegisteredAndSpared(boot, ticks, i, n - 1, id);
      }
    }
  }

  // ----- the registry is a function of the history -----

  lemma {:induction false} LastSweepMatches(boot: int, ticks: seq<Tick>, n: nat)
    requires n <= |ticks|
    ensures Run(boot, ticks, n).lastSweep == LastSweep(boot, ticks, n, 15)
  {
    if n > 0 {
      LastSweepMatches(boot, ticks, n - 1);
    }
  }

  /** The server, holding the given registry, accepts the pass's message as a REGISTER for id. */
  predicate Registers(reg: Registry, tick: Tick, id: RedeskId) {
    && Asks(tick, Register)
    && Request(tick).value.id == id
    && RegisterAccepted(reg, Source(tick), Request(tick).value, tick.handleTime)
  }

  predicate Refreshes(reg: Registry, tick: Tick, id: RedeskId) {
    Asks(tick, Keepalive) && Request(tick).value.id == id && id in reg
  }

  /** What handling one message does to the record of one ID. */
  lemma HandledRecord(s: State, tick: Tick, id: RedeskId)
    requires WellFormed(s.registry)
    ensures var before, after := s.registry, Handled(s, tick).registry;
      && WellFormed(after)
      && (id in after <==> id in before || Registers(before, tick, id))
      && (Registers(before, tick, id) ==>
            after[id] == PeerRecord(id, Source(tick), KeyIn(tick), 0, tick.handleTime))
      && (Refreshes(before, tick, id) ==>
            after[id] == before[id].(endpoint := Source(tick), lastSeen := tick.handleTime))
      && (!Registers(before, tick, id) && !Refreshes(before, tick, id) && id in before ==> after[id] == before[id])
  {
  }

  /** The record of id, if there is one, carries the key of the last accepted REGISTER, and the source and time of
      the last accepted REGISTER or KEEPALIVE. */
  predicate RecordAsRun(boot: int, ticks: seq<Tick>, n: nat, id: RedeskId, registry: Registry)
    requires n <= |ticks|
  {
    id in registry ==>
      var reg, touch := LastRegister(boot, ticks, n, id), LastTouch(boot, ticks, n, id);
      && reg.Some? && touch.Some? && reg.value <= touch.value
      && registry[id]
           == PeerRecord(id, Source(ticks[touch.value]), KeyIn(ticks[reg.value]), 0, ticks[touch.value].handleTime)
  }

  /** The registry, as far as id goes, is what the history says. */
  ghost predicate RegistryAsRun(boot: int, ticks: seq<Tick>, n: nat, id: RedeskId, registry: Registry)
    requires n <= |ticks|
  {
    && WellFormed(registry)
    && (id in registry <==> Bound(boot, ticks, n, id))
    && RecordAsRun(boot, ticks, n, id, registry)
  }

  /** A server whose registry agrees with the history accepts exactly what the history says it does. */
  lemma TouchesAgree(boot: int, ticks: seq<Tick>, n: nat, id: RedeskId, registry: Registry)
    requires n < |ticks| && RegistryAsRun(boot, ticks, n, id, registry)
    ensures RegisterAt(boot, ticks, n, id) <==> Registers(registry, ticks[n], id)
    ensures KeepaliveAt(boot, ticks, n, id) <==> Refreshes(registry, ticks[n], id)
  {
  }

  lemma RecordHandled(boot: int, ticks: seq<Tick>, n: nat, id: RedeskId, s: State)
    requires n < |ticks| && RegistryAsRun(boot, ticks, n, id, s.registry)
    ensures var after := Handled(s, ticks[n]);
      && WellFormed(after.registry)
      && (id in after.registry <==> id in s.registry || RegisterAt(boot, ticks, n, id))
      && RecordAsRun(boot, ticks, n + 1, id, after.registry)
      && after.lastSweep == s.lastSweep
  {
    TouchesAgree(boot, ticks, n, id, s.registry);
    HandledRecord(s, ticks[n], id);
  }

  lemma SweptRecord(s: State, now: int, id: RedeskId)
    requires WellFormed(s.registry)
    ensures var swept := Swept(s, now).registry;
      && WellFormed(swept)
      && (id in swept <==>
            id in s.registry && (now - s.lastSweep >= 15 ==> now - s.registry[id].lastSeen <= 60))
      && (id in swept ==> swept[id] == s.registry[id])
  {
  }

  /** The sweep removes exactly the records the history does not spare, and changes no other. */
  lemma SweepFollowsHistory(boot: int, ticks: seq<Tick>, n: nat, id: RedeskId, s: State)
    requires n < |ticks| && s.lastSweep == LastSweep(boot, ticks, n, 15)
    requires WellFormed(s.registry) && RecordAsRun(boot, ticks, n + 1, id, s.registry)
    ensures var swept := Swept(s, ticks[n].sweepTime).registry;
      && WellFormed(swept)
      && (id in swept <==> id in s.registry && SparedAt(boot, ticks, n, id))
      && RecordAsRun(boot, ticks, n + 1, id, swept)
  {
    SweptRecord(s, ticks[n].sweepTime, id);
  }

  lemma RegistryStep(boot: int, ticks: seq<Tick>, n: nat, id: RedeskId,
                     before: Registry, handled: Registry, after: Registry)
    requires n < |ticks|
    requires id in before <==> Bound(boot, ticks, n, id)
    requires id in handled <==> id in before || RegisterAt(boot, ticks, n, id)
    requires id in after <==> id in handled && SparedAt(boot, ticks, n, id)
    requires WellFormed(after) && RecordAsRun(boot, ticks, n + 1, id, after)
    ensures RegistryAsRun(boot, ticks, n + 1, id, after)
  {
  }

  lemma RegistryBegins(boot: int, ticks: seq<Tick>, id: RedeskId)
    ensures RegistryAsRun(boot, ticks, 0, id, Boot(boot).registry)
  {
  }

  /** The registry after any run, from the history alone: an ID is in it exactly when it is bound, and then with
      the key, endpoint and time its messages say. */
  lemma {:induction false} RegistryAgreesWithRun(boot: int, ticks: seq<Tick>, n: nat, id: RedeskId)
    requires n <= |ticks|
    ensures RegistryAsRun(boot, ticks, n, id, Run(boot, ticks, n).registry)
  {
    hide Handled, Swept, RecordAsRun, Bound, RegisterAt, SparedAt;
    if n == 0 {
      RegistryBegins(boot, ticks, id);
    } else {
      hide WellFormed;
      var s := Run(boot, ticks, n - 1);
      var h := Handled(s, ticks[n - 1]);
      RegistryAgreesWithRun(boot, ticks, n - 1, id);
      RecordHandled(boot, ticks, n - 1, id, s);
      LastSweepMatches(boot, ticks, n - 1);
      SweepFollowsHistory(boot, ticks, n - 1, id, h);
      RegistryStep(boot, ticks, n - 1, id, s.registry, h.registry, Swept(h, ticks[n - 1].sweepTime).registry);
    }
  }

  // ----- acceptance, key stability -----

  /** The server accepts a REGISTER exactly when the history says so. */
  lemma RegisterAcceptedIff(boot: int, ticks: seq<Tick>, n: nat, id: RedeskId)
    requires n < |ticks|
    requires Asks(ticks[n], Register) && Request(ticks[n]).value.id == id
    ensures RegisterAccepted(Run(boot, ticks, n).registry, Source(ticks[n]), Request(ticks[n]).value,
                             ticks[n].handleTime)
       <==> RegisterAt(boot, ticks, n, id)
  {
    RegistryAgreesWithRun(boot, ticks, n, id);
    TouchesAgree(boot, ticks, n, id, Run(boot, ticks, n).registry);
  }

  /** A KEEPALIVE for a bound ID is never refused: the squat guard sees the same key, and the record takes the new
      endpoint and time. For an unbound ID nothing changes. */
  lemma KeepaliveNeverRejected(boot: int, ticks: seq<Tick>, n: nat)
    requires n < |ticks| && Asks(ticks[n], Keepalive)
    ensures var id, reg := Request(ticks[n]).value.id, Run(boot, ticks, n).registry;
      && (KeepaliveAt(boot, ticks, n, id) <==> id in reg)
      && Handled(Run(boot, ticks, n), ticks[n]).registry ==
           if KeepaliveAt(boot, ticks, n, id)
           then reg[id := reg[id].(endpoint := Source(ticks[n]), lastSeen := ticks[n].handleTime)]
           else reg
  {
    RegistryAgreesWithRun(boot, ticks, n, Request(ticks[n]).value.id);
  }

  /** A record is either as it was before a pass or carries that pass's source and time. */
  lemma StepRecord(s: State, tick: Tick, id: RedeskId)
    requires id in Step(s, tick).registry
    ensures var rec := Step(s, tick).registry[id];
      || (id in s.registry && rec == s.registry[id])
      || (Request(tick).Some? && rec.endpoint == Source(tick) && rec.lastSeen == tick.handleTime)
  {
  }

  /** A session is either as it was before a message, or was filled in by it from its own key's endpoints. */
  lemma HandledSession(s: State, tick: Tick, k: string)
    requires k in Handled(s, tick).sessions
    ensures var sess := Handled(s, tick).sessions[k];
      || (k in s.sessions && sess == s.sessions[k])
      || (&& Request(tick).Some? && Request(tick).value.id in s.registry
          && sess.callerEp == Source(tick)
          && sess.calleeEp == s.registry[Request(tick).value.id].endpoint
          && sess.callee == Request(tick).value.id
          && sess.created == tick.handleTime
          && k == PairKey(sess.callerEp, sess.calleeEp))
  {
  }

  /** The invariant behind key stability. An ID in the registry was last seen no earlier than the given stamp;
      an ID outside it was stamped more than 60 seconds ago. */
  predicate SeenSince(reg: Registry, id: RedeskId, stamp: int, now: int) {
    if id in reg then stamp <= reg[id].lastSeen <= now else now - stamp > 60
  }

  lemma HandlingKeepsSeenSince(s: State, tick: Tick, id: RedeskId, stamp: int, now: int)
    requires SeenSince(s.registry, id, stamp, now) && now <= tick.handleTime
    ensures SeenSince(Handled(s, tick).registry, id, stamp, tick.handleTime)
  {
  }

  lemma SweepKeepsSeenSince(s: State, id: RedeskId, stamp: int, t: int, now: int)
    requires SeenSince(s.registry, id, stamp, t) && t <= now
    ensures SeenSince(Swept(s, now).registry, id, stamp, now)
  {
  }

  lemma TouchIsSeen(boot: int, ticks: seq<Tick>, n: nat, id: RedeskId, s: State)
    requires n < |ticks| && RegistryAsRun(boot, ticks, n, id, s.registry) && TouchAt(boot, ticks, n, id)
    ensures SeenSince(Handled(s, ticks[n]).registry, id, ticks[n].handleTime, ticks[n].handleTime)
  {
    TouchesAgree(boot, ticks, n, id, s.registry);
    HandledRecord(s, ticks[n], id);
  }

  lemma {:induction false} TouchedOrForgotten(boot: int, ticks: seq<Tick>, n: nat, i: nat, id: RedeskId)
    requires i < n <= |ticks| && Chronological(boot, ticks)
    requires TouchAt(boot, ticks, i, id)
    ensures SeenSince(Run(boot, ticks, n).registry, id, ticks[i].handleTime, ClockAt(boot, ticks, n))
  {
    hide Handled, Swept, SeenSince, TouchAt;
    var s, tick, stamp := Run(boot, ticks, n - 1), ticks[n - 1], ticks[i].handleTime;
    assert ClockAt(boot, ticks, n - 1) <= tick.handleTime <= tick.sweepTime;
    if i < n - 1 {
      TouchedOrForgotten(boot, ticks, n - 1, i, id);
      HandlingKeepsSeenSince(s, tick, id, stamp, ClockAt(boot, ticks, n - 1));
    } else {
      RegistryAgreesWithRun(boot, ticks, n - 1, id);
      TouchIsSeen(boot, ticks, n - 1, id, s);
    }
    SweepKeepsSeenSince(Handled(s, tick), id, stamp, tick.handleTime, tick.sweepTime);
  }

  /** Key stability: when an accepted REGISTER changes the key last registered for its ID, more than 60 seconds
      have passed since every earlier accepted REGISTER or KEEPALIVE for that ID. It makes no difference whether
      the change passed the 90-second guard or followed an expiry. */
  lemma KeyStability(boot: int, ticks: seq<Tick>, n: nat, i: nat, id: RedeskId)
    requires i < n < |ticks| && Chronological(boot, ticks)
    requires RegisterAt(boot, ticks, n, id) && LastRegister(boot, ticks, n, id).Some?
    requires KeyIn(ticks[LastRegister(boot, ticks, n, id).value]) != KeyIn(ticks[n])
    requires TouchAt(boot, ticks, i, id)
    ensures ticks[n].handleTime - ticks[i].handleTime > 60
  {
    RegistryAgreesWithRun(boot, ticks, n, id);
    TouchedOrForgotten(boot, ticks, n, i, id);
  }

  // ----- what clients are told -----

  /** A REGISTER is answered, to its source, exactly when it is accepted, with the registered key attested. */
  lemma RegisterAnswer(boot: int, ticks: seq<Tick>, n: nat, signer: Signer)
    requires n < |ticks| && Asks(ticks[n], Register)
    ensures var f := Request(ticks[n]).value;
      Replies(Run(boot, ticks, n), ticks[n], signer) ==
        if !RegisterAt(boot, ticks, n, f.id) then []
        else [Mail(Source(ticks[n]), RegisterOk, f.id,
                   Attestation(KeyIn(ticks[n]), signer.sign(f.id, KeyIn(ticks[n])), signer.verifyKey))]
  {
    RegisterAcceptedIff(boot, ticks, n, Request(ticks[n]).value.id);
  }

  /** A LOOKUP is answered to its source: LOOKUP_OK with the key of the most recent accepted REGISTER while the
      target is bound, LOOKUP_FAIL otherwise. */
  lemma LookupAnswer(boot: int, ticks: seq<Tick>, n: nat, signer: Signer)
    requires n < |ticks| && Asks(ticks[n], Lookup)
    ensures var target := LookupTarget(Request(ticks[n]).value);
      var reg := LastRegister(boot, ticks, n, target);
      && (Bound(boot, ticks, n, target) ==> reg.Some?)
      && Replies(Run(boot, ticks, n), ticks[n], signer) ==
           if Bound(boot, ticks, n, target) then
             var key := KeyIn(ticks[reg.value]);
             [Mail(Source(ticks[n]), LookupOk, target,
                   Attestation(key, signer.sign(target, key), signer.verifyKey))]
           else [Mail(Source(ticks[n]), LookupFail, target, [])]
  {
    RegistryAgreesWithRun(boot, ticks, n, LookupTarget(Request(ticks[n]).value));
  }

  /** The client's view of a LOOKUP: whenever the reply decodes to LOOKUP_OK, any attestation its body parses
      as carries exactly the key of the target's most recent accepted REGISTER. */
  lemma LookupOkCarriesRegisteredKey(boot: int, ticks: seq<Tick>, n: nat, signer: Signer, sent: Sent,
                                     pk: seq<Byte>, sig: seq<Byte>, vk: seq<Byte>)
    requires n < |ticks| && Asks(ticks[n], Lookup)
    requires Replies(Run(boot, ticks, n), ticks[n], signer) == [sent]
    requires Decode(sent.data).Ok? && Decode(sent.data).value.kind == LookupOk
    requires Decode(sent.data).value.body == Attestation(pk, sig, vk)
    requires |pk| <= 255
    ensures sent.to == Source(ticks[n])
    ensures var reg := LastRegister(boot, ticks, n, LookupTarget(Request(ticks[n]).value));
      reg.Some? && pk == KeyIn(ticks[reg.value])
  {
    LookupAnswer(boot, ticks, n, signer);
    var target := LookupTarget(Request(ticks[n]).value);
    if Bound(boot, ticks, n, target) {
      var key := KeyIn(ticks[LastRegister(boot, ticks, n, target).value]);
      var body := Attestation(key, signer.sign(target, key), signer.verifyKey);
      DecodeMail(Frame(LookupOk, target, body));
      AttestationInjective(pk, sig, vk, [], key, signer.sign(target, key), signer.verifyKey, []);
    } else {
      DecodeMail(Frame(LookupFail, target, []));
    }
  }

  /** A candidate blob travels verbatim to the source of the target's most recent accepted REGISTER or
      KEEPALIVE; an unbound target is reported back to the sender. */
  lemma BrokerForwardsToLastSeenEndpoint(boot: int, ticks: seq<Tick>, n: nat, signer: Signer)
    requires n < |ticks| && Asks(ticks[n], BrokerCandidates)
    ensures var f := Request(ticks[n]).value;
      var touch := LastTouch(boot, ticks, n, f.id);
      && (Bound(boot, ticks, n, f.id) ==> touch.Some?)
      && Replies(Run(boot, ticks, n), ticks[n], signer) ==
           if Bound(boot, ticks, n, f.id)
           then [Mail(Source(ticks[touch.value]), BrokerCandidates, f.id, f.body)]
           else [Mail(Source(ticks[n]), LookupFail, f.id, [])]
  {
    RegistryAgreesWithRun(boot, ticks, n, Request(ticks[n]).value.id);
  }

  // ----- staleness -----

  /** A time stamp that is neither stale at the last sweep nor in the future. */
  predicate Fresh(s: State, stamp: int, now: int) {
    s.lastSweep - stamp <= 60 && 0 < stamp <= now
  }

  predicate AllFresh(s: State, now: int) {
    && (forall id :: id in s.registry ==> Fresh(s, s.registry[id].lastSeen, now))
    && (forall k :: k in s.sessions ==> Fresh(s, s.sessions[k].created, now))
  }

  lemma StepKeepsFresh(s: State, tick: Tick, now: int)
    requires AllFresh(s, now)
    requires s.lastSweep <= now && 0 < now <= tick.handleTime <= tick.sweepTime
    ensures AllFresh(Step(s, tick), tick.sweepTime)
  {
    var s' := Step(s, tick);
    forall id | id in s'.registry ensures Fresh(s', s'.registry[id].lastSeen, tick.sweepTime) {
      StepRecord(s, tick, id);
    }
    forall k | k in s'.sessions ensures Fresh(s', s'.sessions[k].created, tick.sweepTime) {
      HandledSession(s, tick, k);
    }
  }

  lemma {:induction false} RunsStayFresh(boot: int, ticks: seq<Tick>, n: nat)
    requires n <= |ticks| && Chronological(boot, ticks)
    ensures AllFresh(Run(boot, ticks, n), ClockAt(boot, ticks, n))
  {
    hide Step, LastSweep;
    if n > 0 {
      RunsStayFresh(boot, ticks, n - 1);
      LastSweepMatches(boot, ticks, n - 1);
      SweepIsRecent(boot, ticks, n - 1, 15);
      ClockMonotone(boot, ticks, 0, n - 1);
      StepKeepsFresh(Run(boot, ticks, n - 1), ticks[n - 1], ClockAt(boot, ticks, n - 1));
    }
  }

  /** Staleness bound: at the end of every pass no registry record and no broker session is older than 74 s. */
  lemma StalenessBound(boot: int, ticks: seq<Tick>, n: nat)
    requires n <= |ticks| && Chronological(boot, ticks)
    ensures var s, now := Run(boot, ticks, n), ClockAt(boot, ticks, n);
      && (forall id :: id in s.registry ==> 0 <= now - s.registry[id].lastSeen <= 74)
      && (forall k :: k in s.sessions ==> 0 <= now - s.sessions[k].created <= 74)
  {
    RunsStayFresh(boot, ticks, n);
    LastSweepMatches(boot, ticks, n);
    SweepIsRecent(boot, ticks, n, 15);
  }

  // ----- broker sessions -----

  /** Every message of the run came from a numeric host, as the operating system presents addresses. */
  predicate NumericSources(ticks: seq<Tick>) {
    forall i :: 0 <= i < |ticks| && ticks[i].arrival.Some? ==> ticks[i].arrival.value.from.Numeric()
  }

  /** A sweep changes no session it keeps. */
  lemma StepSession(s: State, tick: Tick, k: string)
    requires k in Step(s, tick).sessions
    ensures k in Handled(s, tick).sessions && Step(s, tick).sessions[k] == Handled(s, tick).sessions[k]
  {
  }

  /** A session stored under the key its own endpoints print to. */
  predicate OwnsKey(k: string, sess: BrokerSession) {
    k == PairKey(sess.callerEp, sess.calleeEp) && sess.created > 0
  }

  /** In every reachable state each session's own two endpoints regenerate its key. */
  lemma {:induction false} SessionsRegenerateTheirKeys(boot: int, ticks: seq<Tick>, n: nat, k: string)
    requires n <= |ticks| && Chronological(boot, ticks)
    requires k in Run(boot, ticks, n).sessions
    ensures OwnsKey(k, Run(boot, ticks, n).sessions[k])
  {
    hide Step, Handled, PairKey;
    var s, tick := Run(boot, ticks, n - 1), ticks[n - 1];
    ClockMonotone(boot, ticks, 0, n - 1);
    StepSession(s, tick, k);
    HandledSession(s, tick, k);
    if k in s.sessions {
      SessionsRegenerateTheirKeys(boot, ticks, n - 1, k);
    }
  }

  lemma {:induction false} RecordEndpointsAreNumeric(boot: int, ticks: seq<Tick>, n: nat, id: RedeskId)
    requires n <= |ticks| && NumericSources(ticks)
    requires id in Run(boot, ticks, n).registry
    ensures Run(boot, ticks, n).registry[id].endpoint.Numeric()
  {
    RegistryAgreesWithRun(boot, ticks, n, id);
  }

  lemma {:induction false} SessionEndpointsAreNumeric(boot: int, ticks: seq<Tick>, n: nat, k: string)
    requires n <= |ticks| && NumericSources(ticks)
    requires k in Run(boot, ticks, n).sessions
    ensures var sess := Run(boot, ticks, n).sessions[k];
      sess.created != 0 ==> sess.callerEp.Numeric() && sess.calleeEp.Numeric()
  {
    hide Step, Handled;
    var s, tick := Run(boot, ticks, n - 1), ticks[n - 1];
    StepSession(s, tick, k);
    HandledSession(s, tick, k);
    if k in s.sessions {
      SessionEndpointsAreNumeric(boot, ticks, n - 1, k);
    }
    if Request(tick).Some? && Request(tick).value.id in s.registry {
      RecordEndpointsAreNumeric(boot, ticks, n - 1, Request(tick).value.id);
    }
  }

  /** Broker sessions never mix endpoint pairs: the session a BROKER_CANDIDATES message finds or makes belongs
      to exactly its caller and its target's endpoint, and no earlier session is disturbed. */
  lemma BrokerSessionsNeverMix(boot: int, ticks: seq<Tick>, n: nat)
    requires n < |ticks| && Chronological(boot, ticks) && NumericSources(ticks)
    requires Asks(ticks[n], BrokerCandidates)
    requires Request(ticks[n]).value.id in Run(boot, ticks, n).registry
    ensures var s := Run(boot, ticks, n);
      var caller, callee := Source(ticks[n]), s.registry[Request(ticks[n]).value.id].endpoint;
      var after := Handled(s, ticks[n]).sessions;
      && PairKey(caller, callee) in after
      && after[PairKey(caller, callee)].callerEp == caller
      && after[PairKey(caller, callee)].calleeEp == callee
      && (forall k :: k in s.sessions ==> k in after && after[k] == s.sessions[k])
      && after.Keys == s.sessions.Keys + {PairKey(caller, callee)}
  {
    hide Run;
    var s := Run(boot, ticks, n);
    var caller, callee := Source(ticks[n]), s.registry[Request(ticks[n]).value.id].endpoint;
    var token := PairKey(caller, callee);
    if token in s.sessions {
      SessionsRegenerateTheirKeys(boot, ticks, n, token);
      SessionEndpointsAreNumeric(boot, ticks, n, token);
      RecordEndpointsAreNumeric(boot, ticks, n, Request(ticks[n]).value.id);
      PairKeyInjective(s.sessions[token].callerEp, s.sessions[token].calleeEp, caller, callee);
    }
  }

  /** Distinct sessions of a reachable state belong to distinct endpoint pairs. */
  lemma DistinctSessionsDistinctPairs(boot: int, ticks: seq<Tick>, n: nat, j: string, k: string)
    requires n <= |ticks| && Chronological(boot, ticks)
    requires j in Run(boot, ticks, n).sessions && k in Run(boot, ticks, n).sessions && j != k
    ensures var s := Run(boot, ticks, n).sessions;
      s[j].callerEp != s[k].callerEp || s[j].calleeEp != s[k].calleeEp
  {
    SessionsRegenerateTheirKeys(boot, ticks, n, j);
    SessionsRegenerateTheirKeys(boot, ticks, n, k);
  }

  /** Pass i opens the broker session stored under k: no opening of it still stands, and a BROKER_CANDIDATES from
      the key's caller names an ID that is bound and was last touched by the key's callee. */
  predicate OpensAt(boot: int, ticks: seq<Tick>, i: nat, k: string)
    requires i < |ticks|
    decreases i, 1
  {
    && Asks(ticks[i], BrokerCandidates)
    && var id := Request(ticks[i]).value.id;
    && Bound(boot, ticks, i, id)
    && LastTouch(boot, ticks, i, id).Some?
    && k == PairKey(Source(ticks[i]), Source(ticks[LastTouch(boot, ticks, i, id).value]))
    && Opener(boot, ticks, i, k).None?
  }

  /** The pass that opened the session stored under k, as long as every sweep since has spared it. */
  function Opener(boot: int, ticks: seq<Tick>, n: nat, k: string): (r: Option<nat>)
    requires n <= |ticks|
    ensures r.Some? ==> r.value < n && OpensAt(boot, ticks, r.value, k)
    decreases n, 0
  {
    if n == 0 then None
    else
      var i := if OpensAt(boot, ticks, n - 1, k) then Some(n - 1) else Opener(boot, ticks, n - 1, k);
      if i.Some? && SparesStamp(boot, ticks, n - 1, ticks[i.value].handleTime) then i else None
  }

  /** The session a pass opens, from the messages alone. */
  function OpenedBy(boot: int, ticks: seq<Tick>, i: nat, k: string): BrokerSession
    requires i < |ticks| && OpensAt(boot, ticks, i, k)
  {
    var id := Request(ticks[i]).value.id;
    BrokerSession([], id, Source(ticks[i]), Source(ticks[LastTouch(boot, ticks, i, id).value]), ticks[i].handleTime)
  }

  /** The server, in the given state, stores a new session under k for the pass's message. */
  predicate Opens(s: State, tick: Tick, k: string) {
    && Asks(tick, BrokerCandidates)
    && Request(tick).value.id in s.registry
    && k == PairKey(Source(tick), s.registry[Request(tick).value.id].endpoint)
    && k !in s.sessions
  }

  function NewSession(s: State, tick: Tick): BrokerSession
    requires Asks(tick, BrokerCandidates) && Request(tick).value.id in s.registry
  {
    var id := Request(tick).value.id;
    BrokerSession([], id, Source(tick), s.registry[id].endpoint, tick.handleTime)
  }

  lemma HandledSessionIff(s: State, tick: Tick, k: string)
    requires forall j :: j in s.sessions ==> s.sessions[j].created != 0
    ensures var after := Handled(s, tick).sessions;
      && (k in after <==> k in s.sessions || Opens(s, tick, k))
      && (k in s.sessions ==> after[k] == s.sessions[k])
      && (Opens(s, tick, k) ==> after[k] == NewSession(s, tick))
  {
  }

  /** The server opens exactly the sessions the history says it does. */
  lemma OpeningsAgree(boot: int, ticks: seq<Tick>, n: nat, k: string, s: State)
    requires n < |ticks| && s == Run(boot, ticks, n)
    requires k in s.sessions <==> Opener(boot, ticks, n, k).Some?
    ensures OpensAt(boot, ticks, n, k) <==> Opens(s, ticks[n], k)
    ensures OpensAt(boot, ticks, n, k) ==>
      k !in s.sessions && OpenedBy(boot, ticks, n, k) == NewSession(s, ticks[n])
  {
    if Asks(ticks[n], BrokerCandidates) {
      RegistryAgreesWithRun(boot, ticks, n, Request(ticks[n]).value.id);
    }
  }

  lemma SweptSession(s: State, now: int, k: string)
    ensures k in Swept(s, now).sessions <==>
      k in s.sessions && (now - s.lastSweep >= 15 ==> now - s.sessions[k].created <= 60)
    ensures k in Swept(s, now).sessions ==> Swept(s, now).sessions[k] == s.sessions[k]
  {
  }

  /** The sweep ending pass n, if there is one, spares a session of the given time stamp. */
  predicate SparesStamp(boot: int, ticks: seq<Tick>, n: nat, stamp: int)
    requires n < |ticks|
  {
    SweepsAt(boot, ticks, n, 15) ==> ticks[n].sweepTime - stamp <= 60
  }

  /** One pass, as it bears on the session stored under k. */
  lemma SessionStep(boot: int, ticks: seq<Tick>, n: nat, k: string, before: State, after: State)
    requires n < |ticks| && Chronological(boot, ticks)
    requires before == Run(boot, ticks, n) && after == Step(before, ticks[n])
    ensures k in after.sessions ==> k in before.sessions || Opens(before, ticks[n], k)
    ensures k in before.sessions ==>
      && (k in after.sessions <==> SparesStamp(boot, ticks, n, before.sessions[k].created))
      && (k in after.sessions ==> after.sessions[k] == before.sessions[k])
    ensures Opens(before, ticks[n], k) ==>
      && (k in after.sessions <==> SparesStamp(boot, ticks, n, ticks[n].handleTime))
      && (k in after.sessions ==> after.sessions[k] == NewSession(before, ticks[n]))
  {
    RunsStayFresh(boot, ticks, n);
    HandledSessionIff(before, ticks[n], k);
    LastSweepMatches(boot, ticks, n);
    SweptSession(Handled(before, ticks[n]), ticks[n].sweepTime, k);
  }

  /** What is stored under k in state s is what the opener of the first n passes stored there, if there is one. */
  predicate StoredAsOpened(boot: int, ticks: seq<Tick>, n: nat, k: string, s: State)
    requires n <= |ticks|
  {
    var opener := Opener(boot, ticks, n, k);
    && (k in s.sessions <==> opener.Some?)
    && (k in s.sessions ==> s.sessions[k] == OpenedBy(boot, ticks, opener.value, k))
  }

  lemma OpenedWhen(boot: int, ticks: seq<Tick>, i: nat, k: string)
    requires i < |ticks| && OpensAt(boot, ticks, i, k)
    ensures OpenedBy(boot, ticks, i, k).created == ticks[i].handleTime
  {
  }

  lemma StoredStep(boot: int, ticks: seq<Tick>, n: nat, k: string, before: State)
    requires n < |ticks| && Chronological(boot, ticks) && before == Run(boot, ticks, n)
    requires StoredAsOpened(boot, ticks, n, k, before)
    ensures StoredAsOpened(boot, ticks, n + 1, k, Step(before, ticks[n]))
  {
    hide Run, Step, Opens, NewSession, OpensAt, OpenedBy, SparesStamp;
    if Opener(boot, ticks, n, k).Some? {
      OpenedWhen(boot, ticks, Opener(boot, ticks, n, k).value, k);
    }
    OpeningsAgree(boot, ticks, n, k, before);
    SessionStep(boot, ticks, n, k, before, Step(before, ticks[n]));
  }

  /** The stored broker sessions are a function of the run: one is there exactly when some pass opened it and
      every sweep since found it at most 60 seconds old, and it is still exactly what that pass stored. */
  lemma {:induction false} SessionsAgreeWithRun(boot: int, ticks: seq<Tick>, n: nat, k: string, s: State)
    requires n <= |ticks| && Chronological(boot, ticks) && s == Run(boot, ticks, n)
    ensures StoredAsOpened(boot, ticks, n, k, s)
  {
    hide Step, OpensAt, OpenedBy, SparesStamp;
    if n > 0 {
      hide StoredAsOpened;
      var before := Run(boot, ticks, n - 1);
      SessionsAgreeWithRun(boot, ticks, n - 1, k, before);
      StoredStep(boot, ticks, n - 1, k, before);
    }
  }

  /** Pass i opened the session under k, and every sweep ending a pass from i to n found it at most 60 s old. */
  predicate OpenedAndSpared(boot: int, ticks: seq<Tick>, i: nat, n: nat, k: string)
    requires i < n <= |ticks|
  {
    OpensAt(boot, ticks, i, k) && forall j :: i <= j < n ==> SparesStamp(boot, ticks, j, ticks[i].handleTime)
  }

  lemma OpenedAndSparedStep(boot: int, ticks: seq<Tick>, i: nat, n: nat, k: string)
    requires i <= n < |ticks|
    ensures OpenedAndSpared(boot, ticks, i, n + 1, k) <==>
      (if i == n then OpensAt(boot, ticks, n, k) else OpenedAndSpared(boot, ticks, i, n, k))
      && SparesStamp(boot, ticks, n, ticks[i].handleTime)
  {
  }

  lemma OpenerStep(boot: int, ticks: seq<Tick>, i: nat, n: nat, k: string)
    requires i <= n < |ticks|
    ensures Opener(boot, ticks, n + 1, k) == Some(i) <==>
      (if i == n then OpensAt(boot, ticks, n, k) else Opener(boot, ticks, n, k) == Some(i))
      && SparesStamp(boot, ticks, n, ticks[i].handleTime)
  {
  }

  lemma OpenerMeaningStep(boot: int, ticks: seq<Tick>, i: nat, n: nat, k: string)
    requires i <= n < |ticks|
    requires i < n ==> (Opener(boot, ticks, n, k) == Some(i) <==> OpenedAndSpared(boot, ticks, i, n, k))
    ensures Opener(boot, ticks, n + 1, k) == Some(i) <==> OpenedAndSpared(boot, ticks, i, n + 1, k)
  {
    hide Opener, OpenedAndSpared, OpensAt, SparesStamp;
    OpenerStep(boot, ticks, i, n, k);
    OpenedAndSparedStep(boot, ticks, i, n, k);
  }

  /** The opener is the pass that opened the session, spared by every sweep since; there is at most one. */
  lemma {:induction false} OpenerMeaning(boot: int, ticks: seq<Tick>, n: nat, k: string, i: nat)
    requires i < n <= |ticks|
    ensures Opener(boot, ticks, n, k) == Some(i) <==> OpenedAndSpared(boot, ticks, i, n, k)
  {
    hide *;
    if i < n - 1 {
      OpenerMeaning(boot, ticks, n - 1, k, i);
    }
    OpenerMeaningStep(boot, ticks, i, n - 1, k);
  }

  // ----- where the bounds and the documentation meet the code -----

  /** A REGISTER message for id with a 32-byte key. */
  function RegisterTick(from: Endpoint, id: RedeskId, key: seq<Byte>, t: int): Tick {
    Tick(Some(Datagram(from, Encode(Frame(Register, id, key)))), t, t)
  }

  lemma RegisterTickRegisters(s: State, from: Endpoint, id: RedeskId, key: seq<Byte>, t: int)
    requires 0 < |id| <= 255 && |key| == 32 && id !in s.registry
    ensures var tick := RegisterTick(from, id, key, t);
      && Request(tick) == Some(Frame(Register, id, key))
      && id in Handled(s, tick).registry && Handled(s, tick).registry[id] == PeerRecord(id, from, key, 0, t)
  {
    DecodeMail(Frame(Register, id, key));
    assert key[..32] == key;
  }

  /** The 74 seconds are reached: a record is spared by a sweep at age 60 and the next sweep is 15 seconds away. */
  lemma StalenessBoundIsTight(boot: int, from: Endpoint, id: RedeskId, key: seq<Byte>)
    requires boot > 0 && 0 < |id| <= 255 && |key| == 32
    ensures var ticks := [RegisterTick(from, id, key, boot),
                          Tick(None, boot + 60, boot + 60), Tick(None, boot + 74, boot + 74)];
      && Chronological(boot, ticks)
      && id in Run(boot, ticks, 3).registry
      && ClockAt(boot, ticks, 3) - Run(boot, ticks, 3).registry[id].lastSeen == 74
  {
    var ticks := [RegisterTick(from, id, key, boot),
                  Tick(None, boot + 60, boot + 60), Tick(None, boot + 74, boot + 74)];
    var s0 := Run(boot, ticks, 0);
    RegisterTickRegisters(s0, from, id, key, boot);
    var s1 := Run(boot, ticks, 1);
    assert s1 == Handled(s0, ticks[0]);
    var s2 := Run(boot, ticks, 2);
    assert s2 == State(Expired(s1.registry, boot + 60, 60), LiveSessions(s1.sessions, boot + 60), boot + 60);
    assert Run(boot, ticks, 3) == s2;
  }

  /** A lookup never looks at the age of a record. However long the server has waited for its next message, a
      LOOKUP is answered from the registry as the last sweep left it. */
  lemma LookupIgnoresAge(boot: int, from: Endpoint, id: RedeskId, key: seq<Byte>, ask: Tick, signer: Signer)
    requires boot > 0 && 0 < |id| <= 255 && |key| == 32
    requires Asks(ask, Lookup) && LookupTarget(Request(ask).value) == id
    ensures var ticks := [RegisterTick(from, id, key, boot), ask];
      Replies(Run(boot, ticks, 1), ask, signer)
        == [Mail(Source(ask), LookupOk, id, Attestation(key, signer.sign(id, key), signer.verifyKey))]
  {
    var ticks := [RegisterTick(from, id, key, boot), ask];
    RegisterTickRegisters(Run(boot, ticks, 0), from, id, key, boot);
    assert Run(boot, ticks, 1) == Handled(Run(boot, ticks, 0), ticks[0]);
  }

  /** The last sweep of the first n passes found id touched at most 60 seconds before, or id was touched
      since. */
  predicate TouchedForSweep(boot: int, ticks: seq<Tick>, n: nat, id: RedeskId)
    requires n <= |ticks|
  {
    var k := LastTouch(boot, ticks, n, id);
    k.Some? && LastSweep(boot, ticks, n, 15) - ticks[k.value].handleTime <= 60
  }

  lemma BoundStep(boot: int, ticks: seq<Tick>, n: nat, id: RedeskId)
    requires n < |ticks|
    ensures Bound(boot, ticks, n + 1, id) <==>
      (TouchAt(boot, ticks, n, id) || Bound(boot, ticks, n, id)) && SparedAt(boot, ticks, n, id)
    ensures LastTouch(boot, ticks, n + 1, id)
         == if TouchAt(boot, ticks, n, id) then Some(n) else LastTouch(boot, ticks, n, id)
  {
  }

  lemma TouchedForSweepStep(boot: int, ticks: seq<Tick>, n: nat, id: RedeskId)
    requires n < |ticks| && Chronological(boot, ticks)
    ensures TouchedForSweep(boot, ticks, n + 1, id) <==>
      (TouchAt(boot, ticks, n, id) || TouchedForSweep(boot, ticks, n, id)) && SparedAt(boot, ticks, n, id)
  {
    SweepIsRecent(boot, ticks, n, 15);
    BoundStep(boot, ticks, n, id);
    assert ClockAt(boot, ticks, n) <= ticks[n].handleTime <= ticks[n].sweepTime;
  }

  /** In a chronological run only the last sweep and the last touch matter: an ID is bound exactly when the last
      sweep came at most 60 seconds after its last touch. */
  lemma {:induction false} BoundIffTouchedForSweep(boot: int, ticks: seq<Tick>, n: nat, id: RedeskId)
    requires n <= |ticks| && Chronological(boot, ticks)
    ensures Bound(boot, ticks, n, id) <==> TouchedForSweep(boot, ticks, n, id)
  {
    if n > 0 {
      BoundIffTouchedForSweep(boot, ticks, n - 1, id);
      BoundStep(boot, ticks, n - 1, id);
      TouchedForSweepStep(boot, ticks, n - 1, id);
    }
  }

  /** The client is told LOOKUP_OK. */
  predicate AnswersOk(mail: seq<Sent>) {
    |mail| == 1 && Decode(mail[0].data).Ok? && Decode(mail[0].data).value.kind == LookupOk
  }

  /** id was registered, and its last touch is at most 60 seconds old. */
  predicate Unexpired(boot: int, ticks: seq<Tick>, n: nat, id: RedeskId, now: int)
    requires n <= |ticks|
  {
    var k := LastTouch(boot, ticks, n, id);
    k.Some? && now - ticks[k.value].handleTime <= 60
  }

  /** The documented promise, that a lookup finds exactly the unexpired IDs, and when the code keeps it: a LOOKUP
      succeeds exactly when the last sweep came at most 60 seconds after the target's last touch, so the promise
      fails exactly for a target that has expired since the last sweep. */
  lemma LookupKeepsPromiseIff(boot: int, ticks: seq<Tick>, n: nat, signer: Signer)
    requires n < |ticks| && Chronological(boot, ticks) && Asks(ticks[n], Lookup)
    ensures var target, now := LookupTarget(Request(ticks[n]).value), ticks[n].handleTime;
      var found := AnswersOk(Replies(Run(boot, ticks, n), ticks[n], signer));
      var k := LastTouch(boot, ticks, n, target);
      && (found <==> TouchedForSweep(boot, ticks, n, target))
      && (Unexpired(boot, ticks, n, target, now) ==> found)
      && ((found <==> Unexpired(boot, ticks, n, target, now)) <==>
            !(k.Some? && LastSweep(boot, ticks, n, 15) - ticks[k.value].handleTime
                           <= 60 < now - ticks[k.value].handleTime))
  {
    var target := LookupTarget(Request(ticks[n]).value);
    LookupAnswer(boot, ticks, n, signer);
    BoundIffTouchedForSweep(boot, ticks, n, target);
    SweepIsRecent(boot, ticks, n, 15);
    assert ClockAt(boot, ticks, n) <= ticks[n].handleTime;
    DecodeMail(Frame(LookupFail, target, []));
    if Bound(boot, ticks, n, target) {
      var key := KeyIn(ticks[LastRegister(boot, ticks, n, target).value]);
      DecodeMail(Frame(LookupOk, target, Attestation(key, signer.sign(target, key), signer.verifyKey)));
    }
  }

  /** The seconds since the last touch of id, when it was ever touched. */
  function Age(boot: int, ticks: seq<Tick>, n: nat, id: RedeskId): Option<int>
    requires n < |ticks|
  {
    var k := LastTouch(boot, ticks, n, id);
    if k.None? then None else Some(ticks[n].handleTime - ticks[k.value].handleTime)
  }

  /** Pass n carries a well-formed REGISTER for id with a key other than the one last registered. */
  predicate ChangesKey(boot: int, ticks: seq<Tick>, n: nat, id: RedeskId)
    requires n < |ticks|
  {
    && AsksToRegister(ticks[n], id)
    && var reg := LastRegister(boot, ticks, n, id);
    reg.Some? && KeyIn(ticks[n]) != KeyIn(ticks[reg.value])
  }

  /** The documented squat guard, that a key change is refused exactly while the prior binding has not expired, and
      when the code keeps it: a change is refused exactly when the ID is bound and was last touched less than 90
      seconds ago, so the documentation fails exactly for bound IDs touched more than 60 and less than 90 seconds
      ago. */
  lemma GuardKeepsPromiseIff(boot: int, ticks: seq<Tick>, n: nat, id: RedeskId)
    requires n < |ticks| && Chronological(boot, ticks) && ChangesKey(boot, ticks, n, id)
    ensures var refused := !RegisterAccepted(Run(boot, ticks, n).registry, Source(ticks[n]), Request(ticks[n]).value,
                                             ticks[n].handleTime);
      var bound, age := Bound(boot, ticks, n, id), Age(boot, ticks, n, id);
      && age.Some?
      && (refused <==> bound && age.value < 90)
      && ((refused <==> age.value <= 60) <==> !(bound && 60 < age.value < 90))
  {
    hide Run, Handled, RegisterAccepted;
    RegisterAcceptedIff(boot, ticks, n, id);
    BoundIffTouchedForSweep(boot, ticks, n, id);
    SweepIsRecent(boot, ticks, n, 15);
    assert ClockAt(boot, ticks, n) <= ticks[n].handleTime;
    var reg := LastRegister(boot, ticks, n, id).value;
    assert TouchAt(boot, ticks, reg, id);
  }
}
