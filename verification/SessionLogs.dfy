/** What every call of a session manager's run returns, records and announces, read off the calls alone. */
module SessionLogs {
  import opened Common
  import opened Session
  import opened SessionRuns
  import opened SessionAudit

  // ----- what the calls say -----

  /** Call i names an existing session in order to change or check it. */
  predicate Addresses(calls: seq<Call>, i: nat)
    requires i < |calls|
  {
    calls[i].Subject().Some? && Exists(calls, i, calls[i].Subject().value)
  }

  /** Call i, about an existing session, is turned down by policy. */
  predicate TurnedDownAt(calls: seq<Call>, i: nat)
    requires i < |calls|
  {
    match calls[i]
    case OnHandshakeCompleted(_, learned) => DenyListed(calls, i, learned)
    case Authorize(id, _) => !AuthorizesAt(calls, i, id)
    case _ => false
  }

  /** What call i returns. */
  function AnswerAt(calls: seq<Call>, i: nat): Answer
    requires i < |calls|
  {
    match calls[i]
    case BeginSession(peer) =>
      if DenyListed(calls, i, peer.fingerprint) then Failed(PermissionDenied) else Opened(Begun(calls, i) + 1)
    case CheckPermission(id, caps) => Allowed(Permitted(calls, i, id, caps))
    case SetCapabilityCeiling(_) => Done
    case AllowPeer(_) => Done
    case DenyPeer(_) => Done
    case _ =>
      if !Addresses(calls, i) then Failed(NotFound)
      else if TurnedDownAt(calls, i) then Failed(PermissionDenied)
      else Done
  }

  /** The requested bits that are neither ViewOnly, bit 0, nor in the ceiling in force. */
  function HeldBack(calls: seq<Call>, i: nat): Capabilities
    requires i < |calls| && calls[i].Authorize?
  {
    set b: Bit | b in calls[i].caps && b != 0 && b !in CeilingAt(calls, i)
  }

  function AuthorizeRecordsAt(calls: seq<Call>, i: nat, fp: string): seq<AuditRecord>
    requires i < |calls| && calls[i].Authorize?
  {
    (if HeldBack(calls, i) == {} then []
     else [AuditRecord(fp, CapabilityDenied(AboveCeiling(calls[i].caps, CeilingAt(calls, i) + {0})))])
    + if LetThrough(calls, i) == {} then []
      else [AuditRecord(fp, CapabilityGranted(LetThrough(calls, i) + {0})),
            AuditRecord(fp, AuthSucceeded),
            AuditRecord(fp, SessionActivated)]
  }

  function HandshakeRecordsAt(calls: seq<Call>, i: nat, peer: PeerInfo): seq<AuditRecord>
    requires i < |calls| && calls[i].OnHandshakeCompleted?
  {
    var learned, earlier := calls[i].fingerprint, Completions(calls, i, peer.redeskId);
    [AuditRecord(if peer.fingerprint == "" then learned else peer.fingerprint, HandshakeCompleted)]
    + if DenyListed(calls, i, learned) then
        [AuditRecord(learned, AuthFailed("peer on deny-list (post-handshake)"))]
      else if earlier != [] && earlier[0] != learned then
        [AuditRecord(learned, KeyChangeDetected(peer.redeskId, earlier[0]))]
      else []
  }

  /** What call i adds to the audit log. */
  function RecordsAt(calls: seq<Call>, i: nat): seq<AuditRecord>
    requires i < |calls|
  {
    if calls[i].BeginSession? then
      var peer := calls[i].peer;
      [AuditRecord(peer.fingerprint, if DenyListed(calls, i, peer.fingerprint) then CapabilityDenied(OnDenyList)
                                     else SessionRequested(peer.redeskId))]
    else if !Addresses(calls, i) then []
    else
      var peer := PeerAt(calls, i, calls[i].Subject().value);
      match calls[i]
      case OnHandshakeStarted(_) => [AuditRecord(peer.fingerprint, HandshakeStarted)]
      case OnHandshakeCompleted(_, _) => HandshakeRecordsAt(calls, i, peer)
      case Authorize(_, _) => AuthorizeRecordsAt(calls, i, peer.fingerprint)
      case Deny(_, reason) => [AuditRecord(peer.fingerprint, AuthFailed(reason))]
      case CheckPermission(id, caps) =>
        if Permitted(calls, i, id, caps) then []
        else [AuditRecord(peer.fingerprint, PermissionCheckDenied(caps, StateAt(calls, i, id)))]
      case CloseSession(_) => [AuditRecord(peer.fingerprint, SessionClosed)]
  }

  function Records(calls: seq<Call>, n: nat): seq<AuditRecord>
    requires n <= |calls|
  {
    if n == 0 then [] else Records(calls, n - 1) + RecordsAt(calls, n - 1)
  }

  /** How many of call i's records come before its state callback: none when a handshake starts or a session is
      closed, all but the last when it is activated, otherwise all. */
  function RecordedBefore(calls: seq<Call>, i: nat): nat
    requires i < |calls|
  {
    var all := |RecordsAt(calls, i)|;
    if calls[i].OnHandshakeStarted? || calls[i].CloseSession? then 0
    else if calls[i].Authorize? && AuthorizesAt(calls, i, calls[i].id) && all > 0 then all - 1
    else all
  }

  /** The state callbacks call i makes, each with the number of records the audit log then held. */
  function ChangesAt(calls: seq<Call>, i: nat): seq<StateChange>
    requires i < |calls|
  {
    if calls[i].Subject().Some? && MovesAt(calls, i, calls[i].Subject().value)
    then [StateChange(calls[i].Subject().value, OutcomeAt(calls, i),
                      |Records(calls, i)| + RecordedBefore(calls, i))]
    else []
  }

  function Changes(calls: seq<Call>, n: nat): seq<StateChange>
    requires n <= |calls|
  {
    if n == 0 then [] else Changes(calls, n - 1) + ChangesAt(calls, n - 1)
  }

  // ----- the manager agrees -----

  lemma AddressesKnown(calls: seq<Call>, i: nat, m: Manager)
    requires i < |calls| && Matches(calls, i, m)
    ensures Known(m, calls[i]) <==> Addresses(calls, i)
    ensures Known(m, calls[i]) ==>
      var id := calls[i].Subject().value;
      m.sessions[id].peer == PeerAt(calls, i, id) && m.sessions[id].state == StateAt(calls, i, id)
  {
  }

  /** Every call of every run returns what the calls before it say. */
  lemma AnswersFollowCalls(calls: seq<Call>, i: nat, m: Manager)
    requires i < |calls| && m == Run(calls, i)
    ensures AnswerTo(m, calls[i]) == AnswerAt(calls, i)
  {
    hide Run;
    ManagerAgreesWithCalls(calls, i);
    AddressesKnown(calls, i, m);
    hide GrantAt, PeerAt;
    if calls[i].Authorize? {
      ClampLetsThrough(calls, i);
    }
    if calls[i].CheckPermission? {
      GateMatches(calls, i, calls[i].id, calls[i].caps, m);
    }
  }

  lemma AuthorizeRecordsAgree(calls: seq<Call>, i: nat, m: Manager, fp: string)
    requires i < |calls| && Matches(calls, i, m) && calls[i].Authorize?
    ensures AuthorizeRecords(fp, m.ceiling, calls[i].caps) == AuthorizeRecordsAt(calls, i, fp)
  {
    ClampLetsThrough(calls, i);
    assert BeyondCeiling(m.ceiling, calls[i].caps) == HeldBack(calls, i);
  }

  lemma HandshakeRecordsAgree(calls: seq<Call>, i: nat, m: Manager, peer: PeerInfo)
    requires i < |calls| && m == Run(calls, i) && calls[i].OnHandshakeCompleted?
    ensures HandshakeRecords(m, peer, calls[i].fingerprint) == HandshakeRecordsAt(calls, i, peer)
  {
    hide Run, Completions;
    ManagerAgreesWithCalls(calls, i);
    PinsAreFirstCompletions(calls, i, peer.redeskId, m);
  }

  lemma RecordsAgree(calls: seq<Call>, i: nat, m: Manager)
    requires i < |calls| && m == Run(calls, i)
    ensures RecordsFor(m, calls[i]) == RecordsAt(calls, i)
  {
    hide Run, HandshakeRecords, HandshakeRecordsAt, AuthorizeRecords, AuthorizeRecordsAt;
    ManagerAgreesWithCalls(calls, i);
    AddressesKnown(calls, i, m);
    if Addresses(calls, i) {
      var peer := PeerAt(calls, i, calls[i].Subject().value);
      match calls[i] {
        case OnHandshakeCompleted(_, _) => HandshakeRecordsAgree(calls, i, m, peer);
        case Authorize(_, _) => AuthorizeRecordsAgree(calls, i, m, peer.fingerprint);
        case CheckPermission(id, caps) => GateMatches(calls, i, id, caps, m);
        case _ =>
      }
    }
  }

  lemma RecordedAgree(calls: seq<Call>, i: nat, m: Manager)
    requires i < |calls| && Matches(calls, i, m) && RecordsFor(m, calls[i]) == RecordsAt(calls, i)
    requires Known(m, calls[i])
    ensures RecordedFirst(m, calls[i]) == RecordedBefore(calls, i)
  {
    hide RecordsFor, RecordsAt;
    AddressesKnown(calls, i, m);
    if calls[i].Authorize? {
      ClampLetsThrough(calls, i);
    }
  }

  lemma ChangesAgree(calls: seq<Call>, i: nat, m: Manager)
    requires i < |calls| && m == Run(calls, i) && m.audit == Records(calls, i)
    ensures CallbacksFor(m, calls[i]) == ChangesAt(calls, i)
  {
    hide Run, RecordsFor, RecordsAt, Records, RecordedFirst, RecordedBefore, Move, MovesAt, OutcomeAt, Matches;
    RecordsAgree(calls, i, m);
    MovesMatch(calls, i, m);
    if Known(m, calls[i]) {
      ManagerAgreesWithCalls(calls, i);
      RecordedAgree(calls, i, m);
    }
  }

  lemma MovesMatch(calls: seq<Call>, i: nat, m: Manager)
    requires i < |calls| && m == Run(calls, i)
    ensures calls[i].Subject().Some? ==>
      var id := calls[i].Subject().value;
      && (MovesAt(calls, i, id) <==> Known(m, calls[i]) && Move(m, calls[i]).Some?)
      && (MovesAt(calls, i, id) ==> Move(m, calls[i]).value == OutcomeAt(calls, i))
  {
    hide Run, MovesAt, Move, OutcomeAt;
    ManagerAgreesWithCalls(calls, i);
    if calls[i].Subject().Some? {
      MoveAgrees(calls, i, calls[i].Subject().value, m);
    }
  }

  /** The whole audit log and the whole callback stream are functions of the calls, record by record and in order,
      and so is how the two interleave. */
  lemma {:induction false} LogsFollowCalls(calls: seq<Call>, n: nat, m: Manager)
    requires n <= |calls| && m == Run(calls, n)
    ensures m.audit == Records(calls, n)
    ensures m.callbacks == Changes(calls, n)
  {
    hide Step, RecordsFor, CallbacksFor, RecordsAt, ChangesAt;
    if n > 0 {
      var before := Run(calls, n - 1);
      LogsFollowCalls(calls, n - 1, before);
      RecordsAgree(calls, n - 1, before);
      ChangesAgree(calls, n - 1, before);
      StepExtends(before, calls[n - 1]);
    }
  }
}
