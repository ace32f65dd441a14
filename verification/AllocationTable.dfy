/** server/relay/allocation_table.cpp: session token -> two learned legs. */
module AllocationTable {
  import opened Common
  import opened Net

  type SessionToken = seq<Byte>

  datatype Leg = Leg(endpoint: Endpoint, bound: bool, bytesForwarded: uint64) {
    predicate Is(src: Endpoint) { bound && endpoint == src }

    /** The 64-bit counter wraps. */
    function Count(bytes: nat): Leg {
      this.(bytesForwarded := (bytesForwarded + bytes) % TwoTo64)
    }

    function Learn(src: Endpoint): Leg {
      this.(endpoint := src, bound := true)
    }
  }

  datatype Allocation = Allocation(token: SessionToken, a: Leg, b: Leg, created: int, lastActivity: int)

  const FreeLeg := Leg(Endpoint("", 0, false), false, 0)

  /** A default-constructed entry, as operator[] inserts it. */
  const BlankAllocation := Allocation([], FreeLeg, FreeLeg, 0, 0)

  type Table = map<SessionToken, Allocation>

  function Allocated(m: Table, token: SessionToken, now: int): Table {
    if token == [] then m
    else
      var al := if token in m then m[token] else BlankAllocation;
      m[token := if al.created == 0 then al.(token := token, created := now, lastActivity := now) else al]
  }

  /** The allocation after a datagram of the given size from src. */
  function Learned(al: Allocation, src: Endpoint, bytes: nat, now: int): Allocation {
    var al := al.(lastActivity := now);
    if al.a.Is(src) then al.(a := al.a.Count(bytes))
    else if al.b.Is(src) then al.(b := al.b.Count(bytes))
    else if !al.a.bound then al.(a := al.a.Learn(src).Count(bytes))
    else if !al.b.bound then al.(b := al.b.Learn(src).Count(bytes))
    else al
  }

  /** Where the allocation sends a datagram from src: to the other leg, nowhere yet, or refused. */
  function Destination(al: Allocation, src: Endpoint): Result<Endpoint> {
    if al.a.Is(src) then Partner(al.b)
    else if al.b.Is(src) then Partner(al.a)
    else if !al.a.bound then Partner(al.b)
    else if !al.b.bound then Partner(al.a)
    else Fail(PermissionDenied)
  }

  function Partner(peer: Leg): Result<Endpoint> {
    if peer.bound then Ok(peer.endpoint) else Fail(Again)
  }

  function Routed(m: Table, token: SessionToken, src: Endpoint, bytes: nat, now: int): Table {
    if token in m then m[token := Learned(m[token], src, bytes, now)] else m
  }

  function RouteResult(m: Table, token: SessionToken, src: Endpoint): Result<Endpoint> {
    if token in m then Destination(m[token], src) else Fail(InvalidArgument)
  }

  predicate Idle(al: Allocation, now: int, ttl: int) {
    now - al.lastActivity > ttl
  }

  function Expired(m: Table, now: int, ttl: int): Table {
    map token | token in m && !Idle(m[token], now, ttl) :: m[token]
  }

  /** The two legs after one datagram, case by case: a known source is counted, an unknown one takes the first free
      leg, a third one is refused though it renews the stamp; the answer is the other leg once it is bound. */
  lemma RouteLaw(m: Table, token: SessionToken, src: Endpoint, bytes: nat, now: int)
    ensures token !in m ==>
      Routed(m, token, src, bytes, now) == m && RouteResult(m, token, src) == Fail(InvalidArgument)
    ensures token in m ==>
      var al, after := m[token], Routed(m, token, src, bytes, now)[token];
      var atA := al.a.bound && al.a.endpoint == src;
      var atB := al.b.bound && al.b.endpoint == src && !atA;
      var takesA := !atA && !atB && !al.a.bound;
      var takesB := !atA && !atB && al.a.bound && !al.b.bound;
      && after.token == al.token && after.created == al.created && after.lastActivity == now
      && after.a == (if atA || takesA then Leg(src, true, (al.a.bytesForwarded + bytes) % 0x1_0000_0000_0000_0000)
                     else al.a)
      && after.b == (if atB || takesB then Leg(src, true, (al.b.bytesForwarded + bytes) % 0x1_0000_0000_0000_0000)
                     else al.b)
      && RouteResult(m, token, src)
           == (if atA || takesA then (if al.b.bound then Ok(al.b.endpoint) else Fail(Again))
               else if atB || takesB then (if al.a.bound then Ok(al.a.endpoint) else Fail(Again))
               else Fail(PermissionDenied))
  {
  }

  /** Allocating makes a blank entry stamped with the clock, once; sweeping keeps what was active no more than ttl
      seconds before. */
  lemma AllocationLaw(m: Table, token: SessionToken, now: int, ttl: int)
    requires token != []
    ensures token !in m ==>
      var leg := Leg(Endpoint("", 0, false), false, 0);
      Allocated(m, token, now) == m[token := Allocation(token, leg, leg, now, now)]
    ensures token in m && m[token].created != 0 ==> Allocated(m, token, now) == m
    ensures token in Expired(m, now, ttl) <==> token in m && now - m[token].lastActivity <= ttl
    ensures token in Expired(m, now, ttl) ==> Expired(m, now, ttl)[token] == m[token]
  {
    if token in m && m[token].created != 0 {
      assert m[token := m[token]] == m;
    }
  }

  class InMemoryAllocationTable {
    var entries: Table

    constructor ()
      ensures entries == map[]
    {
      entries := map[];
    }

    method Allocate(token: SessionToken, now: int) returns (status: Status)
      modifies this
      ensures entries == Allocated(old(entries), token, now)
      ensures status == if token == [] then Error(InvalidArgument) else Success
    {
      if token == [] { return Error(InvalidArgument); }
      if token !in entries { entries := entries[token := BlankAllocation]; }
      var al := entries[token];
      if al.created == 0 {
        al := al.(token := token);
        al := al.(created := now);
        al := al.(lastActivity := now);
        entries := entries[token := al];
      }
      return Success;
    }

    /** Activity is refreshed before a third party is turned away, and bytes are counted even when the
        peer leg is still free. */
    method Route(token: SessionToken, src: Endpoint, bytes: nat, now: int) returns (r: Result<Endpoint>)
      modifies this
      ensures entries == Routed(old(entries), token, src, bytes, now)
      ensures r == RouteResult(old(entries), token, src)
    {
      if token !in entries { return Fail(InvalidArgument); }
      entries := entries[token := entries[token].(lastActivity := now)];
      var al := entries[token];
      var selfIsA: bool;
      if al.a.bound && al.a.endpoint == src {
        selfIsA := true;
      } else if al.b.bound && al.b.endpoint == src {
        selfIsA := false;
      } else if !al.a.bound {
        al := al.(a := al.a.(endpoint := src, bound := true));
        selfIsA := true;
      } else if !al.b.bound {
        al := al.(b := al.b.(endpoint := src, bound := true));
        selfIsA := false;
      } else {
        return Fail(PermissionDenied);
      }
      var peer;
      if selfIsA {
        al := al.(a := al.a.(bytesForwarded := (al.a.bytesForwarded + bytes) % TwoTo64));
        peer := al.b;
      } else {
        al := al.(b := al.b.(bytesForwarded := (al.b.bytesForwarded + bytes) % TwoTo64));
        peer := al.a;
      }
      entries := entries[token := al];
      if !peer.bound { return Fail(Again); }
      return Ok(peer.endpoint);
    }

    /** The erasing loop visits the entries in no particular order. */
    method Expire(now: int, ttl: int) returns (removed: nat)
      modifies this
      ensures entries == Expired(old(entries), now, ttl)
      ensures removed == |old(entries)| - |entries|
    {
      removed := 0;
      var pending := entries.Keys;
      while pending != {}
        invariant pending <= entries.Keys <= old(entries).Keys
        invariant forall token :: token in entries ==> entries[token] == old(entries)[token]
        invariant forall token :: token in old(entries) && token !in pending ==>
          (token in entries <==> !Idle(old(entries)[token], now, ttl))
        invariant removed == |old(entries)| - |entries|
      {
        var token :| token in pending;
        pending := pending - {token};
        if now - entries[token].lastActivity > ttl {
          ghost var before := entries;
          entries := entries - {token};
          assert entries.Keys == before.Keys - {token};
          assert |before.Keys| == |entries.Keys| + 1;
          removed := removed + 1;
        }
      }
    }
  }
}
