/** core/session: sessions, the default-deny capability gate, TOFU pins, the audit log and the manager's policy. */
module Session {
  import opened Common

  /** A bit position of the 32-bit capability mask. */
  type Bit = x: int | 0 <= x < 32

  /** A capability mask, as the set of its one bits; any combination is a value. */
  type Capabilities = set<Bit>

  const NoCapabilities: Capabilities := {}
  const ViewOnly: Capabilities := {0}
  const Control: Capabilities := {1}

  /** hasCapability: every needed bit is granted. */
  predicate HasCapability(granted: Capabilities, needed: Capabilities) {
    granted * needed == needed
  }

  datatype SessionState = Pending | Authenticating | Active | Denied | Closed

  datatype PeerInfo = PeerInfo(redeskId: string, fingerprint: string)

  datatype Session = Session(id: nat, peer: PeerInfo, state: SessionState, granted: Capabilities) {
    predicate IsAllowed(needed: Capabilities) {
      state == Active && HasCapability(granted, needed)
    }
  }

  datatype Refusal = OnDenyList | AboveCeiling(requested: Capabilities, ceiling: Capabilities)

  /** Audit events, with what the original prints into the record's detail text. */
  datatype AuditEvent =
    | SessionRequested(redeskId: string)
    | HandshakeStarted
    | HandshakeCompleted
    | AuthSucceeded
    | AuthFailed(reason: string)
    | CapabilityGranted(bits: Capabilities)
    | CapabilityDenied(refusal: Refusal)
    | PermissionCheckDenied(needed: Capabilities, state: SessionState)
    | KeyChangeDetected(redeskId: string, expected: string)
    | SessionActivated
    | SessionClosed

  datatype AuditRecord = AuditRecord(fingerprint: string, event: AuditEvent)

  /** One state callback, made when the audit log held the given number of records. */
  datatype StateChange = StateChange(id: nat, to: SessionState, recorded: nat)

  /** Every public operation that can change the manager. */
  datatype Call =
    | BeginSession(peer: PeerInfo)
    | OnHandshakeStarted(id: nat)
    | OnHandshakeCompleted(id: nat, fingerprint: string)
    | Authorize(id: nat, caps: Capabilities)
    | Deny(id: nat, reason: string)
    | CheckPermission(id: nat, caps: Capabilities)
    | CloseSession(id: nat)
    | SetCapabilityCeiling(caps: Capabilities)
    | AllowPeer(fingerprint: string)
    | DenyPeer(fingerprint: string)
  {
    /** The session a call is about. */
    function Subject(): Option<nat> {
      match this
      case OnHandshakeStarted(id) => Some(id)
      case OnHandshakeCompleted(id, _) => Some(id)
      case Authorize(id, _) => Some(id)
      case Deny(id, _) => Some(id)
      case CheckPermission(id, _) => Some(id)
      case CloseSession(id) => Some(id)
      case _ => None
    }
  }

  const DeniedAfterHandshake := "peer on deny-list (post-handshake)"

  /** The manager's fields, plus the stream of state callbacks it has made. */
  datatype Manager = Manager(
    sessions: map<nat, Session>,
    nextId: nat,
    audit: seq<AuditRecord>,
    callbacks: seq<StateChange>,
    ceiling: Capabilities,
    allowList: set<string>,
    denyList: set<string>,
    tofuPins: map<string, string>)

  const InitialManager := Manager(map[], 1, [], [], ViewOnly, {}, {}, map[])

  // ----- one call -----

  /** The requested bits the ceiling lets through; ViewOnly is always within it. */
  function WithinCeiling(ceiling: Capabilities, requested: Capabilities): Capabilities {
    requested * (ceiling + ViewOnly)
  }

  function BeyondCeiling(ceiling: Capabilities, requested: Capabilities): Capabilities {
    requested - (ceiling + ViewOnly)
  }

  /** The call names a session the manager knows. */
  predicate Known(m: Manager, call: Call) {
    call.Subject().Some? && call.Subject().value in m.sessions
  }

  predicate Begins(m: Manager, call: Call) {
    call.BeginSession? && call.peer.fingerprint !in m.denyList
  }

  /** The state the call moves its session to, if it does. Closed and Denied are left like any other state. */
  function Move(m: Manager, call: Call): Option<SessionState> {
    match call
    case OnHandshakeStarted(_) => Some(Authenticating)
    case OnHandshakeCompleted(_, fp) => if fp in m.denyList then Some(Denied) else None
    case Authorize(_, caps) => Some(if WithinCeiling(m.ceiling, caps) == {} then Denied else Active)
    case Deny(_, _) => Some(Denied)
    case CloseSession(_) => Some(Closed)
    case _ => None
  }

  /** A grant after an authorize under the given ceiling; grants only ever accumulate. */
  function Extended(granted: Capabilities, ceiling: Capabilities, caps: Capabilities): Capabilities {
    if WithinCeiling(ceiling, caps) == {} then granted else granted + (WithinCeiling(ceiling, caps) + ViewOnly)
  }

  function GrantedAfter(m: Manager, granted: Capabilities, call: Call): Capabilities {
    if call.Authorize? then Extended(granted, m.ceiling, call.caps) else granted
  }

  function SessionsAfter(m: Manager, call: Call): map<nat, Session> {
    if Begins(m, call) then m.sessions[m.nextId := Session(m.nextId, call.peer, Pending, NoCapabilities)]
    else if Known(m, call) then
      var id := call.Subject().value;
      var s := m.sessions[id];
      m.sessions[id := s.(state := if Move(m, call).Some? then Move(m, call).value else s.state,
                          granted := GrantedAfter(m, s.granted, call))]
    else m.sessions
  }

  /** How many of a call's audit records come before its state callback. */
  function RecordedFirst(m: Manager, call: Call): nat {
    var all := |RecordsFor(m, call)|;
    match call
    case OnHandshakeStarted(_) => 0
    case CloseSession(_) => 0
    case Authorize(_, caps) => if all > 0 && WithinCeiling(m.ceiling, caps) != {} then all - 1 else all
    case _ => all
  }

  function CallbacksFor(m: Manager, call: Call): seq<StateChange> {
    if Known(m, call) && Move(m, call).Some?
    then [StateChange(call.Subject().value, Move(m, call).value, |m.audit| + RecordedFirst(m, call))]
    else []
  }

  /** The pin a completed handshake sets or is checked against belongs to the session's routing ID. */
  function PinsAfter(m: Manager, call: Call): map<string, string> {
    if && Known(m, call) && call.OnHandshakeCompleted?
       && call.fingerprint !in m.denyList
       && m.sessions[call.id].peer.redeskId !in m.tofuPins
    then m.tofuPins[m.sessions[call.id].peer.redeskId := call.fingerprint]
    else m.tofuPins
  }

  function PinRecords(m: Manager, redeskId: string, learned: string): seq<AuditRecord> {
    if redeskId in m.tofuPins && m.tofuPins[redeskId] != learned
    then [AuditRecord(learned, KeyChangeDetected(redeskId, m.tofuPins[redeskId]))] else []
  }

  function HandshakeRecords(m: Manager, peer: PeerInfo, learned: string): seq<AuditRecord> {
    [AuditRecord(if peer.fingerprint == "" then learned else peer.fingerprint, HandshakeCompleted)]
    + if learned in m.denyList then [AuditRecord(learned, AuthFailed(DeniedAfterHandshake))]
      else PinRecords(m, peer.redeskId, learned)
  }

  function RefusalRecords(fp: string, ceiling: Capabilities, caps: Capabilities): seq<AuditRecord> {
    if BeyondCeiling(ceiling, caps) != {}
    then [AuditRecord(fp, CapabilityDenied(AboveCeiling(caps, ceiling + ViewOnly)))] else []
  }

  function ActivationRecords(fp: string, allowed: Capabilities): seq<AuditRecord> {
    [AuditRecord(fp, CapabilityGranted(allowed + ViewOnly)),
     AuditRecord(fp, AuthSucceeded),
     AuditRecord(fp, SessionActivated)]
  }

  function AuthorizeRecords(fp: string, ceiling: Capabilities, caps: Capabilities): seq<AuditRecord> {
    RefusalRecords(fp, ceiling, caps)
    + if WithinCeiling(ceiling, caps) == {} then [] else ActivationRecords(fp, WithinCeiling(ceiling, caps))
  }

  /** The audit records a call appends. */
  function RecordsFor(m: Manager, call: Call): seq<AuditRecord> {
    if call.BeginSession? then
      [AuditRecord(call.peer.fingerprint,
                   if Begins(m, call) then SessionRequested(call.peer.redeskId) else CapabilityDenied(OnDenyList))]
    else if !Known(m, call) then []
    else
      var s := m.sessions[call.Subject().value];
      var fp := s.peer.fingerprint;
      match call
      case OnHandshakeStarted(_) => [AuditRecord(fp, HandshakeStarted)]
      case OnHandshakeCompleted(_, learned) => HandshakeRecords(m, s.peer, learned)
      case Authorize(_, caps) => AuthorizeRecords(fp, m.ceiling, caps)
      case Deny(_, reason) => [AuditRecord(fp, AuthFailed(reason))]
      case CheckPermission(_, caps) =>
        if s.IsAllowed(caps) then [] else [AuditRecord(fp, PermissionCheckDenied(caps, s.state))]
      case CloseSession(_) => [AuditRecord(fp, SessionClosed)]
  }

  function Step(m: Manager, call: Call): Manager {
    Manager(
      SessionsAfter(m, call),
      if Begins(m, call) then m.nextId + 1 else m.nextId,
      m.audit + RecordsFor(m, call),
      m.callbacks + CallbacksFor(m, call),
      if call.SetCapabilityCeiling? then call.caps else m.ceiling,
      if call.AllowPeer? then m.allowList + {call.fingerprint}
      else if call.DenyPeer? then m.allowList - {call.fingerprint} else m.allowList,
      if call.AllowPeer? then m.denyList - {call.fingerprint}
      else if call.DenyPeer? then m.denyList + {call.fingerprint} else m.denyList,
      PinsAfter(m, call))
  }

  /** The status a session call returns. */
  function StatusOf(m: Manager, call: Call): Status {
    if !Known(m, call) then Error(NotFound)
    else if Move(m, call) == Some(Denied) && !call.Deny? then Error(PermissionDenied)
    else Success
  }

  /** What checkPermission returns. */
  predicate Gate(m: Manager, id: nat, needed: Capabilities) {
    id in m.sessions && m.sessions[id].IsAllowed(needed)
  }

  /** What a call returns: a new session's id, an error, success, or the gate's word. */
  datatype Answer = Opened(id: nat) | Failed(code: ErrorCode) | Done | Allowed(ok: bool)

  function AnswerOf(status: Status): Answer {
    match status
    case Success => Done
    case Error(code) => Failed(code)
  }

  function AnswerTo(m: Manager, call: Call): Answer {
    match call
    case BeginSession(_) => if Begins(m, call) then Opened(m.nextId) else Failed(PermissionDenied)
    case CheckPermission(id, caps) => Allowed(Gate(m, id, caps))
    case SetCapabilityCeiling(_) => Done
    case AllowPeer(_) => Done
    case DenyPeer(_) => Done
    case _ => AnswerOf(StatusOf(m, call))
  }

  /** The manager after the first n calls. */
  function Run(calls: seq<Call>, n: nat): Manager
    requires n <= |calls|
  {
    if n == 0 then InitialManager else Step(Run(calls, n - 1), calls[n - 1])
  }

  /** What one call does to the logs and the pins. */
  lemma StepExtends(m: Manager, call: Call)
    ensures Step(m, call).audit == m.audit + RecordsFor(m, call)
    ensures Step(m, call).callbacks == m.callbacks + CallbacksFor(m, call)
    ensures Step(m, call).tofuPins == PinsAfter(m, call)
  {
  }

  lemma ConcatAssociates<T>(a: seq<T>, b: seq<T>, c: seq<T>)
    ensures (a + b) + c == a + (b + c)
  {
  }

  /** A refusal is announced last, an activation before its last record. */
  function AuthorizeChange(m: Manager, id: nat, caps: Capabilities): StateChange
    requires id in m.sessions
  {
    var records := |AuthorizeRecords(m.sessions[id].peer.fingerprint, m.ceiling, caps)|;
    if WithinCeiling(m.ceiling, caps) == {} then StateChange(id, Denied, |m.audit| + records)
    else StateChange(id, Active, |m.audit| + records - 1)
  }

  /** What authorize does to the manager once the session is known. */
  function Authorized(m: Manager, id: nat, caps: Capabilities): Manager
    requires id in m.sessions
  {
    var s := m.sessions[id];
    var allowed := WithinCeiling(m.ceiling, caps);
    m.(sessions := m.sessions[id := if allowed == {} then s.(state := Denied)
                                    else s.(state := Active, granted := s.granted + (allowed + ViewOnly))],
       audit := m.audit + AuthorizeRecords(s.peer.fingerprint, m.ceiling, caps),
       callbacks := m.callbacks + [AuthorizeChange(m, id, caps)])
  }

  lemma AuthorizeStep(m: Manager, id: nat, caps: Capabilities)
    requires id in m.sessions
    ensures Step(m, Authorize(id, caps)) == Authorized(m, id, caps)
  {
  }

  /** What a completed handshake does to the manager once the session is known. */
  function Verified(m: Manager, id: nat, fp: string): Manager
    requires id in m.sessions
  {
    var s := m.sessions[id];
    var m' := m.(audit := m.audit + HandshakeRecords(m, s.peer, fp));
    if fp in m.denyList then
      m'.(sessions := m.sessions[id := s.(state := Denied)], 
          callbacks := m.callbacks + [StateChange(id, Denied, |m'.audit|)])
    else
      m'.(tofuPins := if s.peer.redeskId in m.tofuPins then m.tofuPins else m.tofuPins[s.peer.redeskId := fp])
  }

  lemma HandshakeStep(m: Manager, id: nat, fp: string)
    requires id in m.sessions
    ensures Step(m, OnHandshakeCompleted(id, fp)) == Verified(m, id, fp)
  {
    if fp !in m.denyList {
      assert m.sessions[id := m.sessions[id]] == m.sessions;
    }
  }

  class SessionManager {
    var sessions: map<nat, Session>
    var nextId: nat
    var audit: seq<AuditRecord>
    var ceiling: Capabilities
    var allowList: set<string>
    var denyList: set<string>
    var tofuPins: map<string, string>

    /** The state callbacks made so far. */
    ghost var callbacks: seq<StateChange>

    ghost function Abs(): Manager
      reads this
    {
      Manager(sessions, nextId, audit, callbacks, ceiling, allowList, denyList, tofuPins)
    }

    constructor ()
      ensures Abs() == InitialManager
    {
      sessions := map[];
      nextId := 1;
      audit := [];
      ceiling := ViewOnly;
      allowList, denyList := {}, {};
      tofuPins := map[];
      callbacks := [];
    }

    method Record(fingerprint: string, event: AuditEvent)
      modifies this`audit
      ensures audit == old(audit) + [AuditRecord(fingerprint, event)]
    {
      audit := audit + [AuditRecord(fingerprint, event)];
    }

    method Transition(id: nat, to: SessionState)
      requires id in sessions
      modifies this`sessions, this`callbacks
      ensures sessions == old(sessions)[id := old(sessions)[id].(state := to)]
      ensures callbacks == old(callbacks) + [StateChange(id, to, |audit|)]
    {
      sessions := sessions[id := sessions[id].(state := to)];
      callbacks := callbacks + [StateChange(id, to, |audit|)];
    }

    method Begin(peer: PeerInfo) returns (r: Result<nat>)
      modifies this
      ensures Abs() == Step(old(Abs()), BeginSession(peer))
      ensures r == if Begins(old(Abs()), BeginSession(peer)) then Ok(old(nextId)) else Fail(PermissionDenied)
    {
      if denyList != {} && peer.fingerprint in denyList {
        Record(peer.fingerprint, CapabilityDenied(OnDenyList));
        r := Fail(PermissionDenied);
      } else {
        var id := nextId;
        nextId := nextId + 1;
        sessions := sessions[id := Session(id, peer, Pending, NoCapabilities)];
        Record(peer.fingerprint, SessionRequested(peer.redeskId));
        r := Ok(id);
      }
    }

    method HandshakeStarts(id: nat) returns (status: Status)
      modifies this
      ensures Abs() == Step(old(Abs()), OnHandshakeStarted(id))
      ensures status == StatusOf(old(Abs()), OnHandshakeStarted(id))
    {
      status := Error(NotFound);
      if id in sessions {
        Transition(id, Authenticating);
        Record(sessions[id].peer.fingerprint, HandshakeStarted);
        status := Success;
      }
    }

    /** Trust on first use: alert on a changed key, pin a first one. */
    method CheckPin(redeskId: string, fingerprint: string)
      modifies this`audit, this`tofuPins
      ensures audit == old(audit) + PinRecords(old(Abs()), redeskId, fingerprint)
      ensures tofuPins == if redeskId in old(tofuPins) then old(tofuPins) else old(tofuPins)[redeskId := fingerprint]
    {
      if redeskId in tofuPins && tofuPins[redeskId] != fingerprint {
        Record(fingerprint, KeyChangeDetected(redeskId, tofuPins[redeskId]));
      } else if redeskId !in tofuPins {
        tofuPins := tofuPins[redeskId := fingerprint];
      }
    }

    /** The learned fingerprint reaches a local copy of the peer only; the stored session keeps its own. */
    method VerifyKnown(id: nat, fingerprint: string) returns (status: Status)
      requires id in sessions
      modifies this`sessions, this`audit, this`callbacks, this`tofuPins
      ensures Abs() == Verified(old(Abs()), id, fingerprint)
      ensures status == if fingerprint in denyList then Error(PermissionDenied) else Success
    {
      var peer := sessions[id].peer;
      if peer.fingerprint == "" { peer := peer.(fingerprint := fingerprint); }
      Record(peer.fingerprint, HandshakeCompleted);
      if fingerprint in denyList {
        Record(fingerprint, AuthFailed(DeniedAfterHandshake));
        Transition(id, Denied);
        status := Error(PermissionDenied);
      } else {
        CheckPin(peer.redeskId, fingerprint);
        status := Success;
        ConcatAssociates(old(audit), [AuditRecord(peer.fingerprint, HandshakeCompleted)],
                         PinRecords(old(Abs()), peer.redeskId, fingerprint));
      }
    }

    method HandshakeCompletes(id: nat, fingerprint: string) returns (status: Status)
      modifies this
      ensures Abs() == Step(old(Abs()), OnHandshakeCompleted(id, fingerprint))
      ensures status == StatusOf(old(Abs()), OnHandshakeCompleted(id, fingerprint))
    {
      if id !in sessions { return Error(NotFound); }
      HandshakeStep(Abs(), id, fingerprint);
      status := VerifyKnown(id, fingerprint);
    }

    /** The successful half of authorize: grant, record, activate. */
    method Activate(id: nat, allowed: Capabilities)
      requires id in sessions
      modifies this`sessions, this`audit, this`callbacks
      ensures sessions ==
        old(sessions)[id := old(sessions)[id].(state := Active,
                                               granted := old(sessions)[id].granted + (allowed + ViewOnly))]
      ensures audit == old(audit) + ActivationRecords(old(sessions)[id].peer.fingerprint, allowed)
      ensures callbacks == old(callbacks) + [StateChange(id, Active, |audit| - 1)]
    {
      var fp := sessions[id].peer.fingerprint;
      sessions := sessions[id := sessions[id].(granted := sessions[id].granted + (allowed + ViewOnly))];
      Record(fp, CapabilityGranted(allowed + ViewOnly));
      Record(fp, AuthSucceeded);
      Transition(id, Active);
      Record(fp, SessionActivated);
    }

    /** Audits the requested bits above the ceiling, if there are any. */
    method RecordRefusal(fp: string, requested: Capabilities)
      modifies this`audit
      ensures audit == old(audit) + RefusalRecords(fp, ceiling, requested)
    {
      if BeyondCeiling(ceiling, requested) != {} {
        Record(fp, CapabilityDenied(AboveCeiling(requested, ceiling + ViewOnly)));
      }
    }

    method AuthorizeKnown(id: nat, requested: Capabilities) returns (status: Status)
      requires id in sessions
      modifies this`sessions, this`audit, this`callbacks
      ensures Abs() == Authorized(old(Abs()), id, requested)
      ensures status == if WithinCeiling(ceiling, requested) == {} then Error(PermissionDenied) else Success
    {
      var fp := sessions[id].peer.fingerprint;
      var allowed := WithinCeiling(ceiling, requested);
      RecordRefusal(fp, requested);
      if allowed == {} {
        Transition(id, Denied);
        status := Error(PermissionDenied);
      } else {
        Activate(id, allowed);
        status := Success;
        ConcatAssociates(old(audit), RefusalRecords(fp, ceiling, requested), ActivationRecords(fp, allowed));
      }
    }

    method AuthorizeSession(id: nat, requested: Capabilities) returns (status: Status)
      modifies this
      ensures Abs() == Step(old(Abs()), Authorize(id, requested))
      ensures status == StatusOf(old(Abs()), Authorize(id, requested))
    {
      if id !in sessions { return Error(NotFound); }
      AuthorizeStep(Abs(), id, requested);
      status := AuthorizeKnown(id, requested);
    }

    method DenySession(id: nat, reason: string) returns (status: Status)
      modifies this
      ensures Abs() == Step(old(Abs()), Deny(id, reason))
      ensures status == StatusOf(old(Abs()), Deny(id, reason))
    {
      status := Error(NotFound);
      if id in sessions {
        Record(sessions[id].peer.fingerprint, AuthFailed(reason));
        Transition(id, Denied);
        status := Success;
      }
    }

    method Check(id: nat, needed: Capabilities) returns (ok: bool)
      modifies this
      ensures Abs() == Step(old(Abs()), CheckPermission(id, needed))
      ensures ok <==> Gate(old(Abs()), id, needed)
    {
      ok := false;
      if id in sessions {
        var s := sessions[id];
        if s.IsAllowed(needed) {
          ok := true;
        } else {
          Record(s.peer.fingerprint, PermissionCheckDenied(needed, s.state));
        }
      }
    }

    method Close(id: nat) returns (status: Status)
      modifies this
      ensures Abs() == Step(old(Abs()), CloseSession(id))
      ensures status == StatusOf(old(Abs()), CloseSession(id))
    {
      status := Error(NotFound);
      if id in sessions {
        Transition(id, Closed);
        Record(sessions[id].peer.fingerprint, SessionClosed);
        status := Success;
      }
    }

    /** A scan over the sessions that stops at the first controlling one. */
    method IsBeingControlled() returns (controlled: bool)
      ensures controlled <==> exists id :: Gate(Abs(), id, Control)
    {
      var pending := sessions.Keys;
      while pending != {}
        invariant pending <= sessions.Keys
        invariant forall id :: id in sessions && id !in pending ==> !Gate(Abs(), id, Control)
      {
        var id :| id in pending;
        if sessions[id].state == Active && HasCapability(sessions[id].granted, Control) {
          assert Gate(Abs(), id, Control);
          return true;
        }
        pending := pending - {id};
      }
      return false;
    }

    method SetCeiling(caps: Capabilities)
      modifies this
      ensures Abs() == Step(old(Abs()), SetCapabilityCeiling(caps))
    {
      ceiling := caps;
    }

    method Allow(fingerprint: string)
      modifies this
      ensures Abs() == Step(old(Abs()), AllowPeer(fingerprint))
    {
      allowList := allowList + {fingerprint};
      denyList := denyList - {fingerprint};
    }

    method Block(fingerprint: string)
      modifies this
      ensures Abs() == Step(old(Abs()), DenyPeer(fingerprint))
    {
      denyList := denyList + {fingerprint};
      allowList := allowList - {fingerprint};
    }

    /** Serves one call of any kind. */
    method Serve(call: Call) returns (answer: Answer)
      modifies this
      ensures Abs() == Step(old(Abs()), call)
      ensures answer == AnswerTo(old(Abs()), call)
    {
      hide Step, StatusOf, Gate;
      var status: Status := Success;
      match call {
        case BeginSession(peer) =>
          var r := Begin(peer);
          return if r.Ok? then Opened(r.value) else Failed(r.code);
        case CheckPermission(id, caps) =>
          var ok := Check(id, caps);
          return Allowed(ok);
        case OnHandshakeStarted(id) => status := HandshakeStarts(id);
        case OnHandshakeCompleted(id, fp) => status := HandshakeCompletes(id, fp);
        case Authorize(id, caps) => status := AuthorizeSession(id, caps);
        case Deny(id, reason) => status := DenySession(id, reason);
        case CloseSession(id) => status := Close(id);
        case SetCapabilityCeiling(caps) => SetCeiling(caps);
        case AllowPeer(fp) => Allow(fp);
        case DenyPeer(fp) => Block(fp);
      }
      return AnswerOf(status);
    }
  }

  /** What the first n calls return, in order. */
  function Answers(calls: seq<Call>, n: nat): seq<Answer>
    requires n <= |calls|
  {
    if n == 0 then [] else Answers(calls, n - 1) + [AnswerTo(Run(calls, n - 1), calls[n - 1])]
  }

  /** A manager driven through any finite sequence of calls ends in the state the runs below speak of and returns
      their answers. */
  method ServeAll(calls: seq<Call>) returns (m: SessionManager, answers: seq<Answer>)
    ensures fresh(m) && m.Abs() == Run(calls, |calls|)
    ensures answers == Answers(calls, |calls|)
  {
    hide Step, AnswerTo;
    m := new SessionManager();
    answers := [];
    for i := 0 to |calls|
      invariant fresh(m) && m.Abs() == Run(calls, i)
      invariant answers == Answers(calls, i)
    {
      var answer := m.Serve(calls[i]);
      answers := answers + [answer];
    }
  }
}
