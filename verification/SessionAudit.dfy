/** TOFU pins, the audit log and the state callbacks after any sequence of calls. */
module SessionAudit {
  import opened Common
  import opened Session
  import opened SessionRuns

  // ----- trust on first use -----

  /** Call i completed a handshake for routing ID rid with a fingerprint not deny-listed at that moment. */
  predicate CompletesAt(calls: seq<Call>, i: nat, rid: string)
    requires i < |calls|
  {
    && calls[i].OnHandshakeCompleted?
    && Exists(calls, i, calls[i].id)
    && PeerAt(calls, i, calls[i].id).redeskId == rid
    && !DenyListed(calls, i, calls[i].fingerprint)
  }

  /** The fingerprints with which handshakes for rid completed, in order. */
  function Completions(calls: seq<Call>, n: nat, rid: string): seq<string>
    requires n <= |calls|
  {
    if n == 0 then []
    else Completions(calls, n - 1, rid) + if CompletesAt(calls, n - 1, rid) then [calls[n - 1].fingerprint] else []
  }

  /** A key change for a routing ID: the fingerprint it came with and the pinned one. */
  datatype Alert = Alert(redeskId: string, learned: string, pinned: string)

  function AlertOf(r: AuditRecord): seq<Alert> {
    if r.event.KeyChangeDetected? then [Alert(r.event.redeskId, r.fingerprint, r.event.expected)] else []
  }

  /** All key-change alerts of an audit log, in order. */
  function Alerts(audit: seq<AuditRecord>): seq<Alert> {
    if audit == [] then [] else Alerts(audit[..|audit| - 1]) + AlertOf(Last(audit))
  }

  /** The key change call i shows, from the calls alone: a completion with a fingerprint other than the ID's first. */
  function KeyChangeAt(calls: seq<Call>, i: nat): seq<Alert>
    requires i < |calls|
  {
    if calls[i].OnHandshakeCompleted? && Exists(calls, i, calls[i].id) then
      var rid := PeerAt(calls, i, calls[i].id).redeskId;
      var earlier := Completions(calls, i, rid);
      if CompletesAt(calls, i, rid) && earlier != [] && earlier[0] != calls[i].fingerprint
      then [Alert(rid, calls[i].fingerprint, earlier[0])] else []
    else []
  }

  function KeyChanges(calls: seq<Call>, n: nat): seq<Alert>
    requires n <= |calls|
  {
    if n == 0 then [] else KeyChanges(calls, n - 1) + KeyChangeAt(calls, n - 1)
  }

  lemma {:induction false} AlertsConcat(a: seq<AuditRecord>, b: seq<AuditRecord>)
    ensures Alerts(a + b) == Alerts(a) + Alerts(b)
  {
    if b == [] {
      assert a + b == a;
    } else {
      assert (a + b)[..|a + b| - 1] == a + b[..|b| - 1];
      AlertsConcat(a, b[..|b| - 1]);
    }
  }

  lemma {:induction false} NoAlerts(audit: seq<AuditRecord>)
    requires forall k :: 0 <= k < |audit| ==> !audit[k].event.KeyChangeDetected?
    ensures Alerts(audit) == []
  {
    if audit != [] {
      NoAlerts(audit[..|audit| - 1]);
    }
  }

  /** The call completes a handshake for rid, as the manager sees it. */
  predicate Completes(m: Manager, call: Call, rid: string) {
    && Known(m, call) && call.OnHandshakeCompleted? && call.fingerprint !in m.denyList
    && m.sessions[call.id].peer.redeskId == rid
  }

  lemma CompletionIsKnown(calls: seq<Call>, n: nat, rid: string, m: Manager)
    requires n < |calls| && Matches(calls, n, m)
    ensures CompletesAt(calls, n, rid) <==> Completes(m, calls[n], rid)
  {
  }

  /** Only a completed handshake can raise an alert. */
  lemma OtherCallsRaiseNoAlert(m: Manager, call: Call)
    requires !(Known(m, call) && call.OnHandshakeCompleted? && call.fingerprint !in m.denyList)
    ensures forall k :: 0 <= k < |RecordsFor(m, call)| ==> !RecordsFor(m, call)[k].event.KeyChangeDetected?
  {
  }

  lemma AlertsOfHandshake(m: Manager, peer: PeerInfo, learned: string)
    requires learned !in m.denyList
    ensures Alerts(HandshakeRecords(m, peer, learned)) == Alerts(PinRecords(m, peer.redeskId, learned))
  {
    var head := HandshakeRecords(m, peer, learned)[..1];
    assert HandshakeRecords(m, peer, learned) == head + PinRecords(m, peer.redeskId, learned);
    AlertsConcat(head, PinRecords(m, peer.redeskId, learned));
    NoAlerts(head);
  }

  lemma AlertsOfPin(m: Manager, redeskId: string, learned: string)
    ensures Alerts(PinRecords(m, redeskId, learned)) ==
      if redeskId in m.tofuPins && m.tofuPins[redeskId] != learned
      then [Alert(redeskId, learned, m.tofuPins[redeskId])] else []
  {
    var records := PinRecords(m, redeskId, learned);
    if records != [] {
      assert Alerts(records[..0]) == [];
      assert Alerts(records) == AlertOf(records[0]);
    }
  }

  /** The alert one call raises: a completion whose fingerprint is not the pinned one. */
  lemma AlertsOfCall(m: Manager, call: Call)
    ensures Alerts(RecordsFor(m, call)) ==
      if Known(m, call) && call.OnHandshakeCompleted? && call.fingerprint !in m.denyList then
        Alerts(PinRecords(m, m.sessions[call.id].peer.redeskId, call.fingerprint))
      else []
  {
    if Known(m, call) && call.OnHandshakeCompleted? && call.fingerprint !in m.denyList {
      var peer := m.sessions[call.id].peer;
      assert RecordsFor(m, call) == HandshakeRecords(m, peer, call.fingerprint);
      AlertsOfHandshake(m, peer, call.fingerprint);
    } else {
      OtherCallsRaiseNoAlert(m, call);
      NoAlerts(RecordsFor(m, call));
    }
  }

  /** The pin of rid and its completions belong together. */
  predicate PinsMatch(pins: map<string, string>, rid: string, fps: seq<string>) {
    && (rid in pins <==> fps != [])
    && (rid in pins ==> pins[rid] == fps[0])
  }

  lemma PinStep(m: Manager, call: Call, rid: string, fps: seq<string>)
    requires PinsMatch(m.tofuPins, rid, fps)
    ensures PinsMatch(PinsAfter(m, call), rid, fps + if Completes(m, call, rid) then [call.fingerprint] else [])
    ensures rid in m.tofuPins ==> rid in PinsAfter(m, call) && PinsAfter(m, call)[rid] == m.tofuPins[rid]
  {
  }

  lemma CompletionOnRun(calls: seq<Call>, n: nat, rid: string, m: Manager)
    requires n < |calls| && m == Run(calls, n)
    ensures CompletesAt(calls, n, rid) <==> Completes(m, calls[n], rid)
  {
    hide Run, Matches, CompletesAt, Completes;
    ManagerAgreesWithCalls(calls, n);
    CompletionIsKnown(calls, n, rid, m);
  }

  /** A pin is the fingerprint of the first completion for its routing ID. Here and below, m is the manager after
      the first n calls. */
  lemma {:induction false} PinsAreFirstCompletions(calls: seq<Call>, n: nat, rid: string, m: Manager)
    requires n <= |calls| && m == Run(calls, n)
    ensures PinsMatch(m.tofuPins, rid, Completions(calls, n, rid))
  {
    hide Step, PinsAfter, Completes, CompletesAt;
    if n > 0 {
      var before := Run(calls, n - 1);
      PinsAreFirstCompletions(calls, n - 1, rid, before);
      CompletionOnRun(calls, n - 1, rid, before);
      StepExtends(before, calls[n - 1]);
      PinStep(before, calls[n - 1], rid, Completions(calls, n - 1, rid));
    }
  }

  /** The alert call n raises is the key change the calls show. */
  lemma AlertStep(calls: seq<Call>, n: nat, m: Manager)
    requires n < |calls| && m == Run(calls, n)
    ensures Alerts(RecordsFor(m, calls[n])) == KeyChangeAt(calls, n)
  {
    var call := calls[n];
    AlertsOfCall(m, call);
    ManagerAgreesWithCalls(calls, n);
    if Known(m, call) && call.OnHandshakeCompleted? {
      var rid := m.sessions[call.id].peer.redeskId;
      CompletionIsKnown(calls, n, rid, m);
      PinsAreFirstCompletions(calls, n, rid, m);
      AlertsOfPin(m, rid, call.fingerprint);
    }
  }

  /** Alerts are exact: the KeyChangeDetected records of the audit log are, in order across all routing IDs, exactly
      the completions with a fingerprint other than the first for their routing ID, each naming that first one as
      expected. */
  lemma {:induction false} AlertsAreExact(calls: seq<Call>, n: nat, m: Manager)
    requires n <= |calls| && m == Run(calls, n)
    ensures Alerts(m.audit) == KeyChanges(calls, n)
  {
    hide Step, RecordsFor, KeyChangeAt;
    if n > 0 {
      var before := Run(calls, n - 1);
      AlertsAreExact(calls, n - 1, before);
      StepExtends(before, calls[n - 1]);
      AlertStep(calls, n - 1, before);
      AlertsConcat(before.audit, RecordsFor(before, calls[n - 1]));
    }
  }

  /** The alerts for one routing ID: the new fingerprint and the pinned one. */
  function AlertsFor(alerts: seq<Alert>, rid: string): seq<(string, string)> {
    if alerts == [] then []
    else
      AlertsFor(alerts[..|alerts| - 1], rid)
      + if Last(alerts).redeskId == rid then [(Last(alerts).learned, Last(alerts).pinned)] else []
  }

  /** The fingerprints that differ from the first one, each with that first one. */
  function Changed(fps: seq<string>): seq<(string, string)> {
    if fps == [] then []
    else Changed(fps[..|fps| - 1]) + if Last(fps) != fps[0] then [(Last(fps), fps[0])] else []
  }

  lemma AlertsForSnoc(alerts: seq<Alert>, more: seq<Alert>, rid: string)
    requires |more| <= 1
    ensures AlertsFor(alerts + more, rid) == AlertsFor(alerts, rid)
      + if more != [] && more[0].redeskId == rid then [(more[0].learned, more[0].pinned)] else []
  {
    if more == [] {
      assert alerts + more == alerts;
    } else {
      assert (alerts + more)[..|alerts|] == alerts;
    }
  }

  lemma ChangedSnoc(fps: seq<string>, fp: string)
    ensures Changed(fps + [fp]) == Changed(fps) + if fps != [] && fp != fps[0] then [(fp, fps[0])] else []
  {
    assert (fps + [fp])[..|fps|] == fps;
  }

  /** One call, seen from one routing ID. */
  lemma KeyChangeOfOneId(calls: seq<Call>, i: nat, rid: string, alerts: seq<Alert>)
    requires i < |calls|
    ensures var earlier := Completions(calls, i, rid);
      AlertsFor(alerts + KeyChangeAt(calls, i), rid) == AlertsFor(alerts, rid)
        + if CompletesAt(calls, i, rid) && earlier != [] && calls[i].fingerprint != earlier[0]
          then [(calls[i].fingerprint, earlier[0])] else []
  {
    AlertsForSnoc(alerts, KeyChangeAt(calls, i), rid);
  }

  /** Seen from one routing ID, its alerts are its completions' fingerprints that differ from the first. */
  lemma {:induction false} AlertsOfOneId(calls: seq<Call>, n: nat, rid: string, alerts: seq<Alert>, fps: seq<string>)
    requires n <= |calls| && alerts == KeyChanges(calls, n) && fps == Completions(calls, n, rid)
    ensures AlertsFor(alerts, rid) == Changed(fps)
  {
    if n > 0 {
      var before, earlier := KeyChanges(calls, n - 1), Completions(calls, n - 1, rid);
      AlertsOfOneId(calls, n - 1, rid, before, earlier);
      KeyChangeOfOneId(calls, n - 1, rid, before);
      if CompletesAt(calls, n - 1, rid) {
        ChangedSnoc(earlier, calls[n - 1].fingerprint);
      } else {
        assert fps == earlier;
      }
    }
  }

  /** Completions are never forgotten, so pins are write-once: no run ever changes or removes one. */
  lemma {:induction false} CompletionsOnlyGrow(calls: seq<Call>, i: nat, n: nat, rid: string)
    requires i <= n <= |calls|
    ensures Completions(calls, i, rid) <= Completions(calls, n, rid)
  {
    if i < n {
      CompletionsOnlyGrow(calls, i, n - 1, rid);
    }
  }

  lemma PinsAreWriteOnce(calls: seq<Call>, i: nat, n: nat, rid: string, m: Manager, later: Manager)
    requires i <= n <= |calls| && m == Run(calls, i) && later == Run(calls, n)
    requires rid in m.tofuPins
    ensures rid in later.tofuPins && later.tofuPins[rid] == m.tofuPins[rid]
  {
    PinsAreFirstCompletions(calls, i, rid, m);
    PinsAreFirstCompletions(calls, n, rid, later);
    CompletionsOnlyGrow(calls, i, n, rid);
  }

  // ----- observers -----

  /** What an observer of the callback stream believes of one session. */
  function Replay(callbacks: seq<StateChange>, id: nat): SessionState {
    if callbacks == [] then Pending
    else if Last(callbacks).id == id then Last(callbacks).to
    else Replay(callbacks[..|callbacks| - 1], id)
  }

  lemma ReplayStep(m: Manager, call: Call, id: nat)
    ensures Replay(m.callbacks + CallbacksFor(m, call), id) ==
      if Known(m, call) && call.Subject() == Some(id) && Move(m, call).Some? then Move(m, call).value
      else Replay(m.callbacks, id)
  {
    var more := CallbacksFor(m, call);
    var after := m.callbacks + more;
    assert more == [] ==> after == m.callbacks;
    assert |more| == 1 ==> after[..|after| - 1] == m.callbacks;
  }

  /** The callbacks made so far tell the state of one session; one that does not exist has made none. */
  ghost predicate ReplayMatches(calls: seq<Call>, n: nat, id: nat, m: Manager) {
    && Matches(calls, n, m)
    && Replay(m.callbacks, id) == (if id in m.sessions then m.sessions[id].state else Pending)
  }

  lemma ReplayTracks(calls: seq<Call>, n: nat, id: nat, m: Manager)
    requires n < |calls| && ReplayMatches(calls, n, id, m)
    ensures ReplayMatches(calls, n + 1, id, Step(m, calls[n]))
  {
    MatchesStep(calls, n, m);
    ReplayStep(m, calls[n], id);
    if id in m.sessions {
      StoredSessionStep(m, calls[n], id);
    }
  }

  lemma Initially(calls: seq<Call>, id: nat)
    ensures ReplayMatches(calls, 0, id, InitialManager)
  {
  }

  /** Replaying the state callbacks over initial Pending rebuilds every session's exact state, after any calls. */
  lemma ObserversRebuildStates(calls: seq<Call>, n: nat, id: nat)
    requires n <= |calls|
    ensures ReplayMatches(calls, n, id, Run(calls, n))
  {
    hide Run, Step, ReplayMatches;
    Initially(calls, id);
    var inv := (i: nat, m: Manager) => ReplayMatches(calls, i, id, m);
    forall i: nat, m | i < n && inv(i, m) ensures inv(i + 1, Step(m, calls[i])) {
      ReplayTracks(calls, i, id, m);
    }
    RunInvariant(calls, n, inv);
  }

  /** The audit log and the callback stream are append-only. */
  lemma {:induction false} LogsOnlyGrow(calls: seq<Call>, i: nat, n: nat)
    requires i <= n <= |calls|
    ensures Run(calls, i).audit <= Run(calls, n).audit && Run(calls, i).callbacks <= Run(calls, n).callbacks
  {
    hide Step, RecordsFor, CallbacksFor;
    if i < n {
      LogsOnlyGrow(calls, i, n - 1);
      StepExtends(Run(calls, n - 1), calls[n - 1]);
    }
  }

  // ----- counting audit records -----

  /** The kinds of record that are counted. */
  datatype Kind = Granting | Succeeding | Activating | RefusingCheck {
    predicate Is(e: AuditEvent) {
      match this
      case Granting => e.CapabilityGranted?
      case Succeeding => e.AuthSucceeded?
      case Activating => e.SessionActivated?
      case RefusingCheck => e.PermissionCheckDenied?
    }
  }

  function Count(audit: seq<AuditRecord>, k: Kind): nat {
    if audit == [] then 0 else Count(audit[..|audit| - 1], k) + if k.Is(Last(audit).event) then 1 else 0
  }

  lemma {:induction false} CountConcat(a: seq<AuditRecord>, b: seq<AuditRecord>, k: Kind)
    ensures Count(a + b, k) == Count(a, k) + Count(b, k)
  {
    if b == [] {
      assert a + b == a;
    } else {
      assert (a + b)[..|a + b| - 1] == a + b[..|b| - 1];
      CountConcat(a, b[..|b| - 1], k);
    }
  }

  lemma {:induction false} CountNone(audit: seq<AuditRecord>, k: Kind)
    requires forall i :: 0 <= i < |audit| ==> !k.Is(audit[i].event)
    ensures Count(audit, k) == 0
  {
    if audit != [] {
      CountNone(audit[..|audit| - 1], k);
    }
  }

  /** Exactly one record of the kind, at index i. */
  lemma CountOnce(audit: seq<AuditRecord>, i: nat, k: Kind)
    requires i < |audit| && k.Is(audit[i].event)
    requires forall j :: 0 <= j < |audit| && j != i ==> !k.Is(audit[j].event)
    ensures Count(audit, k) == 1
  {
    var upTo := audit[..i + 1];
    assert upTo[..|upTo| - 1] == audit[..i];
    CountNone(audit[..i], k);
    CountNone(audit[i + 1..], k);
    CountConcat(upTo, audit[i + 1..], k);
    assert upTo + audit[i + 1..] == audit;
  }

  /** Successful authorize calls. */
  function Authorizations(calls: seq<Call>, n: nat): nat
    requires n <= |calls|
  {
    if n == 0 then 0
    else
      Authorizations(calls, n - 1)
      + if calls[n - 1].Authorize? && AuthorizesAt(calls, n - 1, calls[n - 1].id) then 1 else 0
  }

  /** Call i is a check on an existing session that the history does not permit. */
  predicate RefusedAt(calls: seq<Call>, i: nat)
    requires i < |calls|
  {
    && calls[i].CheckPermission?
    && Exists(calls, i, calls[i].id)
    && !Permitted(calls, i, calls[i].id, calls[i].caps)
  }

  function RefusedChecks(calls: seq<Call>, n: nat): nat
    requires n <= |calls|
  {
    if n == 0 then 0 else RefusedChecks(calls, n - 1) + if RefusedAt(calls, n - 1) then 1 else 0
  }

  /** The records one call contributes to each count. */
  lemma CountsOfCall(m: Manager, call: Call, k: Kind)
    ensures Count(RecordsFor(m, call), k) ==
      if k.RefusingCheck? then
        if Known(m, call) && call.CheckPermission? && !Gate(m, call.id, call.caps) then 1 else 0
      else
        if Known(m, call) && call.Authorize? && WithinCeiling(m.ceiling, call.caps) != {} then 1 else 0
  {
    var records := RecordsFor(m, call);
    if Known(m, call) && call.Authorize? && WithinCeiling(m.ceiling, call.caps) != {} && !k.RefusingCheck? {
      var refusals := |RefusalRecords(m.sessions[call.id].peer.fingerprint, m.ceiling, call.caps)|;
      CountOnce(records, refusals + if k.Granting? then 0 else if k.Succeeding? then 1 else 2, k);
    } else if Known(m, call) && call.CheckPermission? && !Gate(m, call.id, call.caps) && k.RefusingCheck? {
      CountOnce(records, 0, k);
    } else {
      CountNone(records, k);
    }
  }

  function CountFromCalls(calls: seq<Call>, n: nat, k: Kind): nat
    requires n <= |calls|
  {
    if k.RefusingCheck? then RefusedChecks(calls, n) else Authorizations(calls, n)
  }

  /** Authorizations and refusals, as the manager and as the calls see them. */
  lemma CallsCountAlike(calls: seq<Call>, n: nat, m: Manager)
    requires n < |calls| && Matches(calls, n, m)
    ensures calls[n].Authorize? ==>
      (Known(m, calls[n]) && WithinCeiling(m.ceiling, calls[n].caps) != {} <==> AuthorizesAt(calls, n, calls[n].id))
    ensures calls[n].CheckPermission? ==>
      (Known(m, calls[n]) && !Gate(m, calls[n].id, calls[n].caps) <==> RefusedAt(calls, n))
  {
    if calls[n].Authorize? {
      ClampLetsThrough(calls, n);
    }
    if calls[n].CheckPermission? {
      GateMatches(calls, n, calls[n].id, calls[n].caps, m);
    }
  }

  lemma CountStep(calls: seq<Call>, n: nat, k: Kind, m: Manager)
    requires n < |calls| && m == Run(calls, n)
    requires Count(m.audit, k) == CountFromCalls(calls, n, k)
    ensures Count(m.audit + RecordsFor(m, calls[n]), k) == CountFromCalls(calls, n + 1, k)
  {
    hide Run, Matches, RecordsFor, Count;
    CountConcat(m.audit, RecordsFor(m, calls[n]), k);
    CountsOfCall(m, calls[n], k);
    ManagerAgreesWithCalls(calls, n);
    CallsCountAlike(calls, n, m);
  }

  /** The audit counts are exact: one CapabilityGranted, one AuthSucceeded and one SessionActivated record for
      each successful authorize, one PermissionCheckDenied record for each refused check on a known session. */
  lemma {:induction false} AuditCountsAreExact(calls: seq<Call>, n: nat, k: Kind, m: Manager)
    requires n <= |calls| && m == Run(calls, n)
    ensures Count(m.audit, k) == CountFromCalls(calls, n, k)
  {
    hide Step, RecordsFor;
    if n > 0 {
      AuditCountsAreExact(calls, n - 1, k, Run(calls, n - 1));
      CountStep(calls, n - 1, k, Run(calls, n - 1));
      StepExtends(Run(calls, n - 1), calls[n - 1]);
    }
  }

  // ----- activations are recorded whole -----

  /** Every CapabilityGranted record is followed at once by AuthSucceeded and SessionActivated of the same peer. */
  predicate ActivationsWhole(audit: seq<AuditRecord>) {
    forall i :: 0 <= i < |audit| && audit[i].event.CapabilityGranted? ==>
      && i + 2 < |audit|
      && audit[i + 1] == AuditRecord(audit[i].fingerprint, AuthSucceeded)
      && audit[i + 2] == AuditRecord(audit[i].fingerprint, SessionActivated)
  }

  lemma WholeConcat(a: seq<AuditRecord>, b: seq<AuditRecord>)
    requires ActivationsWhole(a) && ActivationsWhole(b)
    ensures ActivationsWhole(a + b)
  {
    forall i | 0 <= i < |a + b| && (a + b)[i].event.CapabilityGranted?
      ensures i + 2 < |a + b|
      ensures (a + b)[i + 1] == AuditRecord((a + b)[i].fingerprint, AuthSucceeded)
      ensures (a + b)[i + 2] == AuditRecord((a + b)[i].fingerprint, SessionActivated)
    {
      if i < |a| {
        assert (a + b)[i] == a[i];
      } else {
        assert (a + b)[i] == b[i - |a|];
      }
    }
  }

  lemma CallRecordsWhole(m: Manager, call: Call)
    ensures ActivationsWhole(RecordsFor(m, call))
  {
    if Known(m, call) && call.Authorize? && WithinCeiling(m.ceiling, call.caps) != {} {
      var fp := m.sessions[call.id].peer.fingerprint;
      WholeConcat(RefusalRecords(fp, m.ceiling, call.caps),
                  ActivationRecords(fp, WithinCeiling(m.ceiling, call.caps)));
    }
  }

  lemma ActivationsAreRecordedWhole(calls: seq<Call>, n: nat)
    requires n <= |calls|
    ensures ActivationsWhole(Run(calls, n).audit)
  {
    hide Run, Step, RecordsFor;
    var inv := (i: nat, m: Manager) => ActivationsWhole(m.audit);
    forall i: nat, m | i < n && inv(i, m) ensures inv(i + 1, Step(m, calls[i])) {
      CallRecordsWhole(m, calls[i]);
      WholeConcat(m.audit, RecordsFor(m, calls[i]));
      StepExtends(m, calls[i]);
    }
    RunInvariant(calls, n, inv);
  }
}
