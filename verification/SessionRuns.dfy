/** What holds of the session manager after any sequence of calls, stated on the calls alone. */
module SessionRuns {
  import opened Common
  import opened Session

  // ----- reading the calls -----

  /** Policy: the last word about a fingerprint was to deny it. */
  predicate DenyListed(calls: seq<Call>, n: nat, fp: string)
    requires n <= |calls|
  {
    if n == 0 then false
    else match calls[n - 1]
      case AllowPeer(x) => if x == fp then false else DenyListed(calls, n - 1, fp)
      case DenyPeer(x) => if x == fp then true else DenyListed(calls, n - 1, fp)
      case _ => DenyListed(calls, n - 1, fp)
  }

  /** Policy: the ceiling last set. */
  function CeilingAt(calls: seq<Call>, n: nat): Capabilities
    requires n <= |calls|
  {
    if n == 0 then {0}
    else if calls[n - 1].SetCapabilityCeiling? then calls[n - 1].caps
    else CeilingAt(calls, n - 1)
  }

  /** Call i opened a session. */
  predicate BeginsAt(calls: seq<Call>, i: nat)
    requires i < |calls|
  {
    calls[i].BeginSession? && !DenyListed(calls, i, calls[i].peer.fingerprint)
  }

  function Begun(calls: seq<Call>, n: nat): nat
    requires n <= |calls|
  {
    if n == 0 then 0 else Begun(calls, n - 1) + if BeginsAt(calls, n - 1) then 1 else 0
  }

  predicate Exists(calls: seq<Call>, n: nat, id: nat)
    requires n <= |calls|
  {
    1 <= id <= Begun(calls, n)
  }

  /** The peer session id was opened for. */
  function PeerAt(calls: seq<Call>, n: nat, id: nat): PeerInfo
    requires n <= |calls| && Exists(calls, n, id)
  {
    if BeginsAt(calls, n - 1) && Begun(calls, n) == id then calls[n - 1].peer else PeerAt(calls, n - 1, id)
  }

  /** Call i reached session id. */
  predicate Reaches(calls: seq<Call>, i: nat, id: nat)
    requires i < |calls|
  {
    calls[i].Subject() == Some(id) && Exists(calls, i, id)
  }

  /** Call i changed the state of session id. */
  predicate MovesAt(calls: seq<Call>, i: nat, id: nat)
    requires i < |calls|
  {
    && Reaches(calls, i, id)
    && match calls[i]
       case OnHandshakeCompleted(_, fp) => DenyListed(calls, i, fp)
       case CheckPermission(_, _) => false
       case _ => true
  }

  /** What authorize call i lets through: the requested bits that are 0, ViewOnly, or in the ceiling in force. */
  function LetThrough(calls: seq<Call>, i: nat): Capabilities
    requires i < |calls| && calls[i].Authorize?
  {
    set b: Bit | b in calls[i].caps && (b == 0 || b in CeilingAt(calls, i))
  }

  /** Call i authorized session id: it let some requested bit through. */
  predicate AuthorizesAt(calls: seq<Call>, i: nat, id: nat)
    requires i < |calls|
  {
    Reaches(calls, i, id) && calls[i].Authorize? && LetThrough(calls, i) != {}
  }

  /** The ceiling's clamp lets through exactly these bits. */
  lemma ClampLetsThrough(calls: seq<Call>, i: nat)
    requires i < |calls| && calls[i].Authorize?
    ensures WithinCeiling(CeilingAt(calls, i), calls[i].caps) == LetThrough(calls, i)
  {
  }

  function OutcomeAt(calls: seq<Call>, i: nat): SessionState
    requires i < |calls|
  {
    match calls[i]
    case OnHandshakeStarted(_) => Authenticating
    case Authorize(id, _) => if AuthorizesAt(calls, i, id) then Active else Denied
    case CloseSession(_) => Closed
    case _ => Denied
  }

  /** The last call that changed the state of session id. */
  function LastMove(calls: seq<Call>, n: nat, id: nat): (r: Option<nat>)
    requires n <= |calls|
    ensures r.Some? ==> r.value < n && MovesAt(calls, r.value, id)
    ensures forall i :: 0 <= i < n && MovesAt(calls, i, id) ==> r.Some? && i <= r.value
  {
    if n == 0 then None
    else if MovesAt(calls, n - 1, id) then Some(n - 1)
    else LastMove(calls, n - 1, id)
  }

  function StateAt(calls: seq<Call>, n: nat, id: nat): SessionState
    requires n <= |calls|
  {
    match LastMove(calls, n, id)
    case None => Pending
    case Some(i) => OutcomeAt(calls, i)
  }

  /** Everything session id asked for and was allowed, over its successful authorize calls. */
  function AllowedUnion(calls: seq<Call>, n: nat, id: nat): Capabilities
    requires n <= |calls|
  {
    if n == 0 then NoCapabilities
    else if AuthorizesAt(calls, n - 1, id)
    then AllowedUnion(calls, n - 1, id) + LetThrough(calls, n - 1)
    else AllowedUnion(calls, n - 1, id)
  }

  /** Every ceiling ever in force. */
  function CeilingUnion(calls: seq<Call>, n: nat): Capabilities
    requires n <= |calls|
  {
    if n == 0 then {0} else CeilingUnion(calls, n - 1) + CeilingAt(calls, n)
  }

  predicate EverAuthorized(calls: seq<Call>, n: nat, id: nat)
    requires n <= |calls|
  {
    exists i :: 0 <= i < n && AuthorizesAt(calls, i, id)
  }

  /** The grant the calls add up to: nothing, or ViewOnly and all that was allowed. */
  function GrantAt(calls: seq<Call>, n: nat, id: nat): Capabilities
    requires n <= |calls|
  {
    if EverAuthorized(calls, n, id) then {0} + AllowedUnion(calls, n, id) else {}
  }

  // ----- the manager is a function of the calls -----

  /** The induction principle of runs: what holds of the initial manager and survives every call holds of every
      run. */
  lemma {:induction false} RunInvariant(calls: seq<Call>, n: nat, inv: (nat, Manager) -> bool)
    requires n <= |calls|
    requires inv(0, InitialManager)
    requires forall i: nat, m :: i < n && inv(i, m) ==> inv(i + 1, Step(m, calls[i]))
    ensures inv(n, Run(calls, n))
  {
    if n > 0 {
      RunInvariant(calls, n - 1, inv);
    }
  }

  /** Policy, IDs and the set of sessions are what the calls say; ids are exactly 1 .. nextId - 1. */
  ghost predicate PolicyMatches(calls: seq<Call>, n: nat, m: Manager)
    requires n <= |calls|
  {
    && m.ceiling == CeilingAt(calls, n)
    && (forall fp :: fp in m.denyList <==> DenyListed(calls, n, fp))
    && m.allowList !! m.denyList
    && m.nextId == Begun(calls, n) + 1
    && (forall id :: id in m.sessions <==> 1 <= id < m.nextId)
    && (forall id :: id in m.sessions ==> m.sessions[id].id == id)
  }

  /** The session the calls add up to: its peer, its state and its grant. */
  function SessionFrom(calls: seq<Call>, n: nat, id: nat): Session
    requires n <= |calls| && Exists(calls, n, id)
  {
    Session(id, PeerAt(calls, n, id), StateAt(calls, n, id), GrantAt(calls, n, id))
  }

  ghost predicate SessionMatches(calls: seq<Call>, n: nat, id: nat, m: Manager)
    requires n <= |calls| && Exists(calls, n, id)
  {
    id in m.sessions && m.sessions[id] == SessionFrom(calls, n, id)
  }

  lemma PolicyStep(calls: seq<Call>, n: nat, m: Manager)
    requires n < |calls| && PolicyMatches(calls, n, m)
    ensures PolicyMatches(calls, n + 1, Step(m, calls[n]))
  {
  }

  lemma {:induction false} NeverAuthorizedNothingAllowed(calls: seq<Call>, n: nat, id: nat)
    requires n <= |calls| && !EverAuthorized(calls, n, id)
    ensures AllowedUnion(calls, n, id) == {}
  {
    if n > 0 {
      assert !AuthorizesAt(calls, n - 1, id);
      NeverAuthorizedNothingAllowed(calls, n - 1, id);
    }
  }

  /** How one more call extends the grant the history adds up to. */
  lemma GrantAtStep(calls: seq<Call>, n: nat, id: nat)
    requires 0 < n <= |calls|
    ensures GrantAt(calls, n, id) ==
      if Reaches(calls, n - 1, id) && calls[n - 1].Authorize?
      then Extended(GrantAt(calls, n - 1, id), CeilingAt(calls, n - 1), calls[n - 1].caps)
      else GrantAt(calls, n - 1, id)
  {
    if calls[n - 1].Authorize? {
      ClampLetsThrough(calls, n - 1);
    }
    if AuthorizesAt(calls, n - 1, id) {
      assert EverAuthorized(calls, n, id);
      if !EverAuthorized(calls, n - 1, id) {
        NeverAuthorizedNothingAllowed(calls, n - 1, id);
      }
    } else {
      assert EverAuthorized(calls, n, id) <==> EverAuthorized(calls, n - 1, id);
    }
  }

  /** A session that did not exist yet was never reached, so it starts out pending and without grants. */
  lemma {:induction false} FreshSessionHasNoPast(calls: seq<Call>, n: nat, id: nat)
    requires n <= |calls| && (n == 0 || id > Begun(calls, n - 1))
    ensures LastMove(calls, n, id) == None && !EverAuthorized(calls, n, id)
  {
    if n > 0 {
      FreshSessionHasNoPast(calls, n - 1, id);
      assert !Reaches(calls, n - 1, id);
    }
  }

  /** What one call does to one stored session: nothing, unless the call is about it. */
  lemma StoredSessionStep(m: Manager, call: Call, id: nat)
    requires id in m.sessions && id != m.nextId
    ensures id in Step(m, call).sessions
    ensures call.Subject() != Some(id) ==> Step(m, call).sessions[id] == m.sessions[id]
    ensures call.Subject() == Some(id) ==>
      Step(m, call).sessions[id] == m.sessions[id].(
        state := if Move(m, call).Some? then Move(m, call).value else m.sessions[id].state,
        granted := GrantedAfter(m, m.sessions[id].granted, call))
  {
  }

  /** Whether and where a call moves a session is decided by the calls alone. */
  lemma MoveAgrees(calls: seq<Call>, n: nat, id: nat, m: Manager)
    requires n < |calls| && PolicyMatches(calls, n, m)
    ensures MovesAt(calls, n, id) <==>
      Known(m, calls[n]) && calls[n].Subject() == Some(id) && Move(m, calls[n]).Some?
    ensures MovesAt(calls, n, id) ==> Move(m, calls[n]).value == OutcomeAt(calls, n)
  {
  }

  lemma BeginStep(m: Manager, call: Call)
    requires Begins(m, call)
    ensures Step(m, call).sessions == m.sessions[m.nextId := Session(m.nextId, call.peer, Pending, NoCapabilities)]
  {
  }

  /** A new session is pending, has no grant, and has no history yet. */
  lemma NewSessionAgrees(calls: seq<Call>, n: nat, id: nat, m: Manager)
    requires n < |calls| && Begun(calls, n) < id <= Begun(calls, n + 1) && PolicyMatches(calls, n, m)
    ensures SessionMatches(calls, n + 1, id, Step(m, calls[n]))
  {
    BeginStep(m, calls[n]);
    FreshSessionHasNoPast(calls, n + 1, id);
    assert calls[n].BeginSession? && id == Begun(calls, n + 1);
  }

  /** One call keeps an existing session in step with the calls. */
  lemma ExistingSessionStep(calls: seq<Call>, n: nat, id: nat, m: Manager)
    requires n < |calls| && Exists(calls, n, id)
    requires PolicyMatches(calls, n, m) && SessionMatches(calls, n, id, m)
    ensures SessionMatches(calls, n + 1, id, Step(m, calls[n]))
  {
    hide Step, Move, GrantAt, WithinCeiling, AuthorizesAt;
    StoredSessionStep(m, calls[n], id);
    MoveAgrees(calls, n, id, m);
    GrantAtStep(calls, n + 1, id);
  }

  lemma SessionStep(calls: seq<Call>, n: nat, id: nat, m: Manager)
    requires n < |calls| && Exists(calls, n + 1, id) && PolicyMatches(calls, n, m)
    requires Exists(calls, n, id) ==> SessionMatches(calls, n, id, m)
    ensures SessionMatches(calls, n + 1, id, Step(m, calls[n]))
  {
    if Exists(calls, n, id) {
      ExistingSessionStep(calls, n, id, m);
    } else {
      NewSessionAgrees(calls, n, id, m);
    }
  }

  /** The manager agrees with the calls in its policy and in every session. */
  ghost predicate Matches(calls: seq<Call>, n: nat, m: Manager) {
    && n <= |calls|
    && PolicyMatches(calls, n, m)
    && forall id :: id in m.sessions ==> m.sessions[id] == SessionFrom(calls, n, id)
  }

  lemma MatchesStep(calls: seq<Call>, n: nat, m: Manager)
    requires n < |calls| && Matches(calls, n, m)
    ensures Matches(calls, n + 1, Step(m, calls[n]))
  {
    PolicyStep(calls, n, m);
    var next := Step(m, calls[n]);
    forall id | id in next.sessions ensures next.sessions[id] == SessionFrom(calls, n + 1, id) {
      SessionStep(calls, n, id, m);
    }
  }

  lemma MatchesInitially(calls: seq<Call>)
    ensures Matches(calls, 0, InitialManager)
  {
  }

  /** After any calls, the manager is what the calls say: ids are exactly 1 .. nextId - 1, the allow and deny lists
      are disjoint, and every session has the peer, the state and the grant its calls add up to. */
  lemma ManagerAgreesWithCalls(calls: seq<Call>, n: nat)
    requires n <= |calls|
    ensures Matches(calls, n, Run(calls, n))
  {
    hide Run, Step, Matches;
    MatchesInitially(calls);
    var inv := (i: nat, m: Manager) => Matches(calls, i, m);
    forall i: nat, m | i < n && inv(i, m) ensures inv(i + 1, Step(m, calls[i])) {
      MatchesStep(calls, i, m);
    }
    RunInvariant(calls, n, inv);
  }

  // ----- the gate -----

  /** By the calls alone: session id exists, the last call that changed its state was a successful authorize,
      and the needed bits are among all it was ever granted. */
  predicate Permitted(calls: seq<Call>, n: nat, id: nat, needed: Capabilities)
    requires n <= |calls|
  {
    && Exists(calls, n, id)
    && LastMove(calls, n, id).Some? && AuthorizesAt(calls, LastMove(calls, n, id).value, id)
    && forall b :: b in needed ==> b in GrantAt(calls, n, id)
  }

  /** checkPermission answers exactly what the history of calls permits. */
  lemma GateEqualsHistory(calls: seq<Call>, n: nat, id: nat, needed: Capabilities)
    requires n <= |calls|
    ensures Gate(Run(calls, n), id, needed) <==> Permitted(calls, n, id, needed)
  {
    ManagerAgreesWithCalls(calls, n);
    GateMatches(calls, n, id, needed, Run(calls, n));
  }

  /** Every needed bit is granted. */
  lemma HasCapabilityIff(granted: Capabilities, needed: Capabilities)
    ensures HasCapability(granted, needed) <==> forall b :: b in needed ==> b in granted
  {
  }

  lemma GateMatches(calls: seq<Call>, n: nat, id: nat, needed: Capabilities, m: Manager)
    requires Matches(calls, n, m)
    ensures Gate(m, id, needed) <==> Permitted(calls, n, id, needed)
  {
    HasCapabilityIff(GrantAt(calls, n, id), needed);
  }

  /** Someone is being controlled exactly when the history permits Control, bit 1, to some session. */
  lemma ControlledIffSomeSessionIs(calls: seq<Call>, n: nat)
    requires n <= |calls|
    ensures (exists id :: Gate(Run(calls, n), id, Control)) <==> (exists id :: Permitted(calls, n, id, {1}))
  {
    if id: nat :| Gate(Run(calls, n), id, Control) {
      GateEqualsHistory(calls, n, id, Control);
    }
    if id: nat :| Permitted(calls, n, id, {1}) {
      GateEqualsHistory(calls, n, id, Control);
    }
  }

  /** Calls about one session never change another. */
  lemma CallsDoNotInterfere(calls: seq<Call>, n: nat, id: nat, m: Manager)
    requires n < |calls| && Exists(calls, n, id) && m == Run(calls, n)
    requires calls[n].Subject() != Some(id)
    ensures id in m.sessions && id in Step(m, calls[n]).sessions
    ensures Step(m, calls[n]).sessions[id] == m.sessions[id]
  {
    ManagerAgreesWithCalls(calls, n);
    StoredSessionStep(m, calls[n], id);
  }

  // ----- grants -----

  lemma {:induction false} AllowedStaysUnderCeilings(calls: seq<Call>, n: nat, id: nat)
    requires n <= |calls|
    ensures AllowedUnion(calls, n, id) <= CeilingUnion(calls, n) + {0}
    ensures CeilingAt(calls, n) <= CeilingUnion(calls, n)
  {
    if n > 0 {
      AllowedStaysUnderCeilings(calls, n - 1, id);
    }
  }

  /** Call i authorized session id and let bit b through; ViewOnly, bit 0, comes with every authorization. */
  predicate GrantsBitAt(calls: seq<Call>, i: nat, id: nat, b: Bit)
    requires i < |calls|
  {
    && Reaches(calls, i, id) && calls[i].Authorize?
    && (exists c :: c in calls[i].caps && (c == 0 || c in CeilingAt(calls, i)))
    && (b == 0 || (b in calls[i].caps && b in CeilingAt(calls, i)))
  }

  /** A call authorizes when it requests a bit that is ViewOnly or in the ceiling in force. */
  lemma AuthorizesIff(calls: seq<Call>, i: nat, id: nat)
    requires i < |calls|
    ensures AuthorizesAt(calls, i, id) <==>
      && Reaches(calls, i, id) && calls[i].Authorize?
      && exists c :: c in calls[i].caps && (c == 0 || c in CeilingAt(calls, i))
  {
    hide Reaches, CeilingAt;
    if calls[i].Authorize? {
      assert forall c: Bit :: c in LetThrough(calls, i) <==> c in calls[i].caps && (c == 0 || c in CeilingAt(calls, i));
    }
  }

  lemma {:induction false} GrantBits(calls: seq<Call>, n: nat, id: nat, b: Bit)
    requires n <= |calls|
    ensures b in GrantAt(calls, n, id) <==> exists i :: 0 <= i < n && GrantsBitAt(calls, i, id, b)
  {
    hide Reaches, CeilingAt;
    if n > 0 {
      GrantBits(calls, n - 1, id, b);
      GrantBitStep(calls, n - 1, id, b);
      if GrantsBitAt(calls, n - 1, id, b) {
        assert exists i :: 0 <= i < n && GrantsBitAt(calls, i, id, b);
      }
    }
  }

  lemma GrantBitStep(calls: seq<Call>, n: nat, id: nat, b: Bit)
    requires n < |calls|
    ensures b in GrantAt(calls, n + 1, id) <==> b in GrantAt(calls, n, id) || GrantsBitAt(calls, n, id, b)
  {
    hide Reaches, CeilingAt;
    AuthorizesIff(calls, n, id);
    if AuthorizesAt(calls, n, id) {
      assert EverAuthorized(calls, n + 1, id);
      if !EverAuthorized(calls, n, id) {
        NeverAuthorizedNothingAllowed(calls, n, id);
      }
    } else {
      assert EverAuthorized(calls, n + 1, id) <==> EverAuthorized(calls, n, id);
    }
  }

  /** Grant equation, bit by bit: a session holds bit b exactly when some earlier call authorized it, with some
      requested bit that is ViewOnly or in the ceiling in force, and b is ViewOnly or was itself requested by that
      call and in that ceiling. So no bit beyond ViewOnly and the ceilings ever in force is held. */
  lemma GrantEquation(calls: seq<Call>, n: nat, id: nat, m: Manager)
    requires n <= |calls| && Exists(calls, n, id) && m == Run(calls, n)
    ensures id in m.sessions
    ensures forall b: Bit ::
      b in m.sessions[id].granted <==> exists i :: 0 <= i < n && GrantsBitAt(calls, i, id, b)
    ensures m.sessions[id].granted <= CeilingUnion(calls, n) + {0}
  {
    hide Run, GrantsBitAt;
    ManagerAgreesWithCalls(calls, n);
    AllowedStaysUnderCeilings(calls, n, id);
    forall b: Bit
      ensures b in m.sessions[id].granted <==> exists i :: 0 <= i < n && GrantsBitAt(calls, i, id, b)
    {
      GrantBits(calls, n, id, b);
    }
  }

  /** An authorized session is permitted all it was ever granted. */
  lemma AuthorizingPermits(calls: seq<Call>, n: nat, id: nat, needed: Capabilities)
    requires n < |calls| && Exists(calls, n, id) && AuthorizesAt(calls, n, id)
    requires forall b :: b in needed ==> b in GrantAt(calls, n, id)
    ensures Permitted(calls, n + 1, id, needed)
  {
    ExistsLater(calls, n, n + 1, id);
    hide CeilingAt, Begun, GrantAt, LetThrough;
    assert MovesAt(calls, n, id);
    forall b | b in needed ensures b in GrantAt(calls, n + 1, id) {
      GrantBitStep(calls, n, id, b);
    }
  }

  /** Neither Closed nor Denied is final: authorizing again reactivates the session with all it ever held. */
  lemma ReauthorizingRevives(calls: seq<Call>, n: nat, id: nat, caps: Capabilities, needed: Capabilities, m: Manager)
    requires n < |calls| && Exists(calls, n, id) && m == Run(calls, n)
    requires calls[n] == Authorize(id, caps) && exists b :: b in caps && (b == 0 || b in CeilingAt(calls, n))
    requires forall b :: b in needed ==> b in GrantAt(calls, n, id)
    ensures Gate(Step(m, calls[n]), id, needed)
  {
    hide Step, Gate, CeilingAt, GrantAt, Permitted, Exists;
    AuthorizesIff(calls, n, id);
    AuthorizingPermits(calls, n, id, needed);
    GateEqualsHistory(calls, n + 1, id, needed);
  }

  /** One more call makes a session active exactly when it authorizes it, or leaves an active one alone. */
  lemma StateAtStep(calls: seq<Call>, n: nat, id: nat)
    requires n < |calls|
    ensures AuthorizesAt(calls, n, id) ==> StateAt(calls, n + 1, id) == Active
    ensures StateAt(calls, n + 1, id) == Active ==> AuthorizesAt(calls, n, id) || StateAt(calls, n, id) == Active
  {
    hide DenyListed, CeilingAt, Begun;
  }

  /** Session id is not active after any number of calls from i to n. */
  predicate NotActive(calls: seq<Call>, i: nat, n: nat, id: nat)
    requires n <= |calls|
  {
    forall k :: i <= k <= n ==> StateAt(calls, k, id) != Active
  }

  /** None of the calls from i up to n authorizes session id. */
  predicate NeverAuthorizes(calls: seq<Call>, i: nat, n: nat, id: nat)
    requires n <= |calls|
  {
    forall k :: i <= k < n ==> !AuthorizesAt(calls, k, id)
  }

  /** Nothing but a successful authorize revives a session that is not active: it stays so exactly as long as no
      call authorizes it. */
  lemma {:induction false} OnlyAuthorizingRevives(calls: seq<Call>, i: nat, n: nat, id: nat)
    requires i <= n <= |calls| && StateAt(calls, i, id) != Active
    ensures NotActive(calls, i, n, id) <==> NeverAuthorizes(calls, i, n, id)
  {
    hide StateAt, AuthorizesAt;
    if i < n {
      OnlyAuthorizingRevives(calls, i, n - 1, id);
      StateAtStep(calls, n - 1, id);
      if NotActive(calls, i, n - 1, id) && !AuthorizesAt(calls, n - 1, id) {
        assert NotActive(calls, i, n, id) by {
          assert StateAt(calls, n, id) != Active;
        }
      }
    }
  }

  /** An ended session, Closed or Denied, passes no check until it is authorized again: through all calls up to n
      the gate stays shut for every request, in every state of the run, if and only if nothing authorizes it. */
  lemma EndedStaysShutIff(calls: seq<Call>, i: nat, n: nat, id: nat)
    requires i <= n <= |calls| && Exists(calls, i, id)
    requires StateAt(calls, i, id) in {Closed, Denied}
    ensures (forall k, needed :: i <= k <= n ==> !Gate(Run(calls, k), id, needed)) <==> NeverAuthorizes(calls, i, n, id)
  {
    hide Run, Gate, StateAt, AuthorizesAt;
    OnlyAuthorizingRevives(calls, i, n, id);
    forall k, needed | i <= k <= n
      ensures Gate(Run(calls, k), id, needed) ==> StateAt(calls, k, id) == Active
      ensures StateAt(calls, k, id) == Active ==> Gate(Run(calls, k), id, NoCapabilities)
    {
      ExistsLater(calls, i, k, id);
      GateNeedsActive(calls, k, id, needed);
      GateNeedsActive(calls, k, id, NoCapabilities);
    }
    if NotActive(calls, i, n, id) {
      assert forall k, needed :: i <= k <= n ==> !Gate(Run(calls, k), id, needed);
    } else {
      var k :| i <= k <= n && StateAt(calls, k, id) == Active;
      assert Gate(Run(calls, k), id, NoCapabilities);
    }
  }

  lemma {:induction false} ExistsLater(calls: seq<Call>, i: nat, k: nat, id: nat)
    requires i <= k <= |calls| && Exists(calls, i, id)
    ensures Exists(calls, k, id)
  {
    if i < k {
      ExistsLater(calls, i, k - 1, id);
    }
  }

  lemma GateNeedsActive(calls: seq<Call>, n: nat, id: nat, needed: Capabilities)
    requires n <= |calls| && Exists(calls, n, id)
    ensures Gate(Run(calls, n), id, needed)
       <==> StateAt(calls, n, id) == Active && forall b :: b in needed ==> b in GrantAt(calls, n, id)
  {
    hide Run;
    HasCapabilityIff(GrantAt(calls, n, id), needed);
    ManagerAgreesWithCalls(calls, n);
  }
}
