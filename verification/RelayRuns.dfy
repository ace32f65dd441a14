/** What holds of the relay over whole runs, stated on the datagrams seen under a token. */
module RelayRuns {
  import opened Common
  import opened Net
  import opened ServerLoop
  import opened AllocationTable
  import opened Relay

  /** One datagram seen under a token: its source, its payload size and when it was handled. */
  datatype Visit = Visit(src: Endpoint, bytes: nat, time: int)

  // ----- the lifetime of an allocation -----

  predicate Carries(tick: Tick, token: SessionToken) {
    Incoming(tick).Some? && Incoming(tick).value.token == token
  }

  function VisitOf(tick: Tick): Visit
    requires Incoming(tick).Some?
  {
    Visit(Source(tick), |Incoming(tick).value.payload|, tick.handleTime)
  }

  /** The datagrams under token since its allocation was last created, pass n - 1 included but before its sweep. */
  function Arrived(boot: int, ticks: seq<Tick>, n: nat, token: SessionToken): seq<Visit>
    requires 0 < n <= |ticks|
    decreases n, 0
  {
    Lifetime(boot, ticks, n - 1, token) + if Carries(ticks[n - 1], token) then [VisitOf(ticks[n - 1])] else []
  }

  /** What a pass leaves of a history: nothing, if it sweeps and the token has been silent for too long. */
  function Kept(v: seq<Visit>, sweeps: bool, now: int): seq<Visit> {
    if v != [] && sweeps && now - Last(v).time > 30 then [] else v
  }

  /** The datagrams under token since its allocation was last created. A sweep ends the lifetime of a token
      that has been silent for more than 30 seconds. */
  function Lifetime(boot: int, ticks: seq<Tick>, n: nat, token: SessionToken): seq<Visit>
    requires n <= |ticks|
    decreases n, 1
  {
    if n == 0 then []
    else Kept(Arrived(boot, ticks, n, token), SweepsAt(boot, ticks, n - 1, 10), ticks[n - 1].sweepTime)
  }

  // ----- what a lifetime says -----

  /** The first source different from the very first one. */
  function Second(v: seq<Visit>): Option<Endpoint> {
    if v == [] then None
    else
      var before := v[..|v| - 1];
      if Second(before).Some? then Second(before)
      else if Last(v).src != v[0].src then Some(Last(v).src)
      else None
  }

  /** The second source stands where the sources first differ; there is none when they are all the same. */
  lemma {:induction false} SecondMeaning(v: seq<Visit>)
    ensures Second(v).None? <==> forall k :: 0 <= k < |v| ==> v[k].src == v[0].src
    ensures Second(v).Some? ==>
      exists k :: 0 < k < |v| && v[k].src == Second(v).value != v[0].src
                && forall j :: 0 <= j < k ==> v[j].src == v[0].src
  {
    if v != [] {
      var before := v[..|v| - 1];
      SecondMeaning(before);
      if Second(before).Some? {
        var k :| 0 < k < |before| && before[k].src == Second(before).value != before[0].src
              && forall j :: 0 <= j < k ==> before[j].src == before[0].src;
        assert v[k] == before[k] && forall j :: 0 <= j < k ==> v[j] == before[j];
      } else if Last(v).src != v[0].src {
        assert forall j :: 0 <= j < |v| - 1 ==> v[j] == before[j];
      }
    }
  }

  /** All payload bytes one source sent. */
  function BytesFrom(v: seq<Visit>, src: Endpoint): nat {
    if v == [] then 0
    else BytesFrom(v[..|v| - 1], src) + if Last(v).src == src then Last(v).bytes else 0
  }

  /** Where the history sends the next word of src, which has already been seen itself. */
  function PeerOf(v: seq<Visit>, src: Endpoint): Result<Endpoint>
    requires v != []
  {
    if src == v[0].src then
      if Second(v).Some? then Ok(Second(v).value) else Fail(Again)
    else if Second(v) == Some(src) then Ok(v[0].src)
    else Fail(PermissionDenied)
  }

  /** The bytes of the visits that met the given fate when they arrived. */
  function BytesForwarded(v: seq<Visit>): nat {
    if v == [] then 0
    else BytesForwarded(v[..|v| - 1]) + if PeerOf(v, Last(v).src).Ok? then Last(v).bytes else 0
  }

  function BytesHeldBack(v: seq<Visit>): nat {
    if v == [] then 0
    else BytesHeldBack(v[..|v| - 1]) + if PeerOf(v, Last(v).src) == Fail(Again) then Last(v).bytes else 0
  }

  /** The allocation is exactly what the lifetime says: leg a is the first source, leg b the first different
      one, each counter its source's bytes modulo 2^64. */
  predicate Describes(al: Allocation, token: SessionToken, v: seq<Visit>) {
    && v != []
    && al.token == token
    && al.a == Leg(v[0].src, true, BytesFrom(v, v[0].src) % TwoTo64)
    && al.b == (if Second(v).Some? then Leg(Second(v).value, true, BytesFrom(v, Second(v).value) % TwoTo64)
                else FreeLeg)
    && al.created == v[0].time
    && al.lastActivity == Last(v).time
  }

  // ----- refinement -----

  lemma ModAdd(x: nat, y: nat)
    ensures (x % TwoTo64 + y) % TwoTo64 == (x + y) % TwoTo64
  {
  }

  lemma ModSum(x: nat, y: nat)
    ensures (x % TwoTo64 + y % TwoTo64) % TwoTo64 == (x + y) % TwoTo64
  {
    ModAdd(x, y % TwoTo64);
    ModAdd(y, x);
  }

  /** No bytes come from an endpoint that was never a source. */
  lemma {:induction false} StrangersSentNothing(v: seq<Visit>, e: Endpoint)
    requires forall k :: 0 <= k < |v| ==> v[k].src != e
    ensures BytesFrom(v, e) == 0
  {
    if v != [] {
      StrangersSentNothing(v[..|v| - 1], e);
    }
  }

  /** One more datagram keeps the allocation in step with its history, and is routed as the history says. */
  lemma LearnedDescribes(al: Allocation, token: SessionToken, v: seq<Visit>, x: Visit)
    requires Describes(al, token, v)
    ensures Describes(Learned(al, x.src, x.bytes, x.time), token, v + [x])
    ensures Destination(al, x.src) == PeerOf(v + [x], x.src)
  {
    var w := v + [x];
    assert w[..|w| - 1] == v && Last(w) == x;
    ModAdd(BytesFrom(v, x.src), x.bytes);
    SecondMeaning(v);
    if Second(v).None? && x.src != v[0].src {
      StrangersSentNothing(v, x.src);
    }
  }

  lemma FirstVisitDescribes(token: SessionToken, x: Visit)
    ensures Describes(Learned(BlankAllocation.(token := token, created := x.time, lastActivity := x.time),
                              x.src, x.bytes, x.time), token, [x])
    ensures Destination(BlankAllocation.(token := token, created := x.time, lastActivity := x.time), x.src)
         == PeerOf([x], x.src)
  {
    assert [x][..0] == [];
    assert BytesFrom([x], x.src) == BytesFrom([], x.src) + x.bytes;
  }

  /** Stamps between start-up and now, the last of them not overdue at the last sweep. */
  predicate Recent(v: seq<Visit>, lastSweep: int, now: int) {
    v != [] ==> 0 < v[0].time && Last(v).time <= now && lastSweep - Last(v).time <= 30
  }

  lemma ArrivalIsRecent(v: seq<Visit>, lastSweep: int, now: int, tick: Tick, token: SessionToken)
    requires Recent(v, lastSweep, now) && 0 < now <= tick.handleTime <= tick.sweepTime && lastSweep <= now
    ensures Recent(v + if Carries(tick, token) then [VisitOf(tick)] else [], lastSweep, tick.sweepTime)
  {
  }

  lemma KeptIsRecent(v: seq<Visit>, lastSweep: int, sweeps: bool, now: int)
    requires Recent(v, lastSweep, now)
    ensures Recent(Kept(v, sweeps, now), if sweeps then now else lastSweep, now)
  {
  }

  lemma NothingIsRecent(boot: int)
    ensures Recent([], boot, boot)
  {
  }

  /** Lifetimes hold stamps between start-up and now, and at the last sweep none was overdue. */
  lemma {:induction false} LifetimeIsRecent(boot: int, ticks: seq<Tick>, n: nat, token: SessionToken)
    requires n <= |ticks| && Chronological(boot, ticks)
    ensures Recent(Lifetime(boot, ticks, n, token), LastSweep(boot, ticks, n, 10), ClockAt(boot, ticks, n))
  {
    hide Recent, Kept, Carries, VisitOf;
    if n == 0 {
      NothingIsRecent(boot);
    } else {
      LifetimeIsRecent(boot, ticks, n - 1, token);
      SweepIsRecent(boot, ticks, n - 1, 10);
      ClockMonotone(boot, ticks, 0, n - 1);
      var lastSweep, now := LastSweep(boot, ticks, n - 1, 10), ClockAt(boot, ticks, n - 1);
      var tick := ticks[n - 1];
      assert now <= tick.handleTime <= tick.sweepTime;
      ArrivalIsRecent(Lifetime(boot, ticks, n - 1, token), lastSweep, now, tick, token);
      KeptIsRecent(Arrived(boot, ticks, n, token), lastSweep, SweepsAt(boot, ticks, n - 1, 10),
                   tick.sweepTime);
    }
  }

  lemma {:induction false} LastSweepMatches(boot: int, ticks: seq<Tick>, n: nat)
    requires n <= |ticks|
    ensures Run(boot, ticks, n).lastSweep == LastSweep(boot, ticks, n, 10)
  {
    if n > 0 {
      LastSweepMatches(boot, ticks, n - 1);
    }
  }

  /** The state and the history of one token agree. */
  predicate Agree(m: Table, token: SessionToken, v: seq<Visit>) {
    && (token in m <==> v != [])
    && (token in m ==> Describes(m[token], token, v))
  }

  lemma HandledAgrees(s: State, tick: Tick, token: SessionToken, v: seq<Visit>)
    requires Agree(s.table, token, v)
    requires v != [] ==> v[0].time != 0
    ensures Agree(Handled(s, tick).table, token, v + if Carries(tick, token) then [VisitOf(tick)] else [])
    ensures Handled(s, tick).lastSweep == s.lastSweep
    ensures Carries(tick, token) ==>
      RouteResult(Allocated(s.table, token, tick.handleTime), token, Source(tick))
        == PeerOf(v + [VisitOf(tick)], Source(tick))
  {
    if Carries(tick, token) {
      if v == [] {
        assert v + [VisitOf(tick)] == [VisitOf(tick)];
        FirstVisitDescribes(token, VisitOf(tick));
      } else {
        LearnedDescribes(s.table[token], token, v, VisitOf(tick));
      }
    } else {
      assert v + [] == v;
    }
  }

  lemma SweepAgrees(s: State, now: int, token: SessionToken, v: seq<Visit>)
    requires Agree(s.table, token, v)
    ensures Agree(Swept(s, now).table, token, Kept(v, now - s.lastSweep >= 10, now))
  {
  }

  lemma NothingAgrees(boot: int, token: SessionToken)
    ensures Agree(Boot(boot).table, token, [])
  {
  }

  /** A history has no stamp of zero, which is how an allocation is recognised as new. */
  lemma LifetimeStartsLate(boot: int, ticks: seq<Tick>, n: nat, token: SessionToken, v: seq<Visit>)
    requires n <= |ticks| && Chronological(boot, ticks) && v == Lifetime(boot, ticks, n, token)
    ensures v != [] ==> v[0].time != 0
  {
    hide Lifetime;
    LifetimeIsRecent(boot, ticks, n, token);
  }

  /** The mutable table agrees, at the end of every pass, with the history of each token since its
      allocation was last created. */
  lemma {:induction false} TableRefinesHistory(boot: int, ticks: seq<Tick>, n: nat, token: SessionToken)
    requires n <= |ticks| && Chronological(boot, ticks)
    ensures Agree(Run(boot, ticks, n).table, token, Lifetime(boot, ticks, n, token))
  {
    hide Agree, Handled, Swept, Kept, Carries, VisitOf;
    if n == 0 {
      NothingAgrees(boot, token);
    } else {
      TableRefinesHistory(boot, ticks, n - 1, token);
      LifetimeStartsLate(boot, ticks, n - 1, token, Lifetime(boot, ticks, n - 1, token));
      LastSweepMatches(boot, ticks, n - 1);
      var s, tick := Run(boot, ticks, n - 1), ticks[n - 1];
      HandledAgrees(s, tick, token, Lifetime(boot, ticks, n - 1, token));
      SweepAgrees(Handled(s, tick), tick.sweepTime, token, Arrived(boot, ticks, n, token));
    }
  }

  /** What a pass forwards, from the history alone: the received bytes, unchanged, to the other of the two
      first sources; nothing while there is only one source, and nothing for any third source. */
  lemma RoutingRefinesHistory(boot: int, ticks: seq<Tick>, n: nat, token: SessionToken)
    requires n < |ticks| && Chronological(boot, ticks) && Carries(ticks[n], token)
    ensures var peer := PeerOf(Arrived(boot, ticks, n + 1, token), Source(ticks[n]));
      Forwards(Run(boot, ticks, n), ticks[n])
        == if peer.Ok? then [Sent(peer.value, ticks[n].arrival.value.data)] else []
  {
    hide Run, Lifetime;
    TableRefinesHistory(boot, ticks, n, token);
    LifetimeStartsLate(boot, ticks, n, token, Lifetime(boot, ticks, n, token));
    HandledAgrees(Run(boot, ticks, n), ticks[n], token, Lifetime(boot, ticks, n, token));
  }

  // ----- consequences -----

  /** Bindings never change while a lifetime lasts: the second source stays the second source. */
  lemma {:induction false} SecondIsStable(v: seq<Visit>, more: seq<Visit>)
    requires v != [] && Second(v).Some?
    ensures Second(v + more) == Second(v)
  {
    var w := v + more;
    if more == [] {
      assert w == v;
    } else {
      assert w[..|w| - 1] == v + more[..|more| - 1];
      SecondIsStable(v, more[..|more| - 1]);
    }
  }

  /** Once two sources are paired they stay each other's peer until the allocation expires. */
  lemma PairingIsMutualAndStable(v: seq<Visit>, src: Endpoint, more: seq<Visit>)
    requires v != [] && PeerOf(v, src).Ok?
    ensures PeerOf(v, src).value != src
    ensures PeerOf(v, PeerOf(v, src).value) == Ok(src)
    ensures PeerOf(v + more, src) == PeerOf(v, src)
    ensures PeerOf(v + more, PeerOf(v, src).value) == Ok(src)
  {
    SecondMeaning(v);
    SecondIsStable(v, more);
    assert (v + more)[0] == v[0];
  }

  /** How many passes had gone by when the current lifetime began; without a lifetime, all of them. */
  function Since(boot: int, ticks: seq<Tick>, n: nat, token: SessionToken): (start: nat)
    requires n <= |ticks|
    ensures start <= n
  {
    if n == 0 || Lifetime(boot, ticks, n, token) == [] then n else Since(boot, ticks, n - 1, token)
  }

  /** A lifetime was running after i passes and no sweep ended it up to n. */
  predicate Lasts(boot: int, ticks: seq<Tick>, i: nat, n: nat, token: SessionToken)
    requires i <= n <= |ticks|
  {
    forall j :: i <= j <= n ==> Lifetime(boot, ticks, j, token) != []
  }

  /** While an allocation lasts, its history only grows. */
  lemma {:induction false} LifetimeGrows(boot: int, ticks: seq<Tick>, i: nat, n: nat, token: SessionToken)
    requires i <= n <= |ticks| && Lasts(boot, ticks, i, n, token)
    ensures [] < Lifetime(boot, ticks, i, token) <= Lifetime(boot, ticks, n, token)
    ensures Since(boot, ticks, i, token) == Since(boot, ticks, n, token)
  {
    hide Carries, VisitOf, SweepsAt;
    if i < n {
      LifetimeGrows(boot, ticks, i, n - 1, token);
    }
  }

  /** Learned addresses never change while an allocation lasts; once both are known, route gives every source the
      same answer from then on. */
  lemma BindingsLastUntilExpiry(boot: int, ticks: seq<Tick>, i: nat, n: nat, token: SessionToken, src: Endpoint)
    requires i <= n <= |ticks| && Chronological(boot, ticks) && Lasts(boot, ticks, i, n, token)
    ensures token in Run(boot, ticks, i).table && token in Run(boot, ticks, n).table
    ensures var al, later := Run(boot, ticks, i).table[token], Run(boot, ticks, n).table[token];
      && al.a.bound && later.a.bound && later.a.endpoint == al.a.endpoint && later.created == al.created
      && (al.b.bound ==> later.b.bound && later.b.endpoint == al.b.endpoint)
      && (al.b.bound ==> Destination(later, src) == Destination(al, src))
  {
    hide Run, Lifetime;
    TableRefinesHistory(boot, ticks, i, token);
    TableRefinesHistory(boot, ticks, n, token);
    LifetimeGrows(boot, ticks, i, n, token);
    var v, w := Lifetime(boot, ticks, i, token), Lifetime(boot, ticks, n, token);
    assert w == v + w[|v|..];
    if Second(v).Some? {
      SecondIsStable(v, w[|v|..]);
    }
  }

  /** Delivery: a forwarded datagram is the received one byte for byte; it goes to an endpoint other than its
      source that has itself sent under the same token in this lifetime, and whose replies come back. */
  lemma DeliveryIsPaired(boot: int, ticks: seq<Tick>, n: nat, token: SessionToken, sent: Sent, more: seq<Visit>)
    requires n < |ticks| && Chronological(boot, ticks) && Carries(ticks[n], token)
    requires Forwards(Run(boot, ticks, n), ticks[n]) == [sent]
    ensures sent.data == ticks[n].arrival.value.data
    ensures sent.to != Source(ticks[n])
    ensures exists k :: 0 <= k < |Lifetime(boot, ticks, n, token)|
                     && Lifetime(boot, ticks, n, token)[k].src == sent.to
    ensures PeerOf(Arrived(boot, ticks, n + 1, token) + more, sent.to) == Ok(Source(ticks[n]))
  {
    RoutingRefinesHistory(boot, ticks, n, token);
    var before, v := Lifetime(boot, ticks, n, token), Arrived(boot, ticks, n + 1, token);
    PairingIsMutualAndStable(v, Source(ticks[n]), more);
    SecondMeaning(v);
    var k :| 0 <= k < |v| && v[k].src == sent.to;
    assert v[|v| - 1].src == Source(ticks[n]);
    assert before[k] == v[k];
  }

  /** Conservation: what the two legs sent is what was forwarded plus what was held back for want of a peer. */
  lemma {:induction false} BytesAreConserved(v: seq<Visit>)
    requires v != []
    ensures BytesFrom(v, v[0].src) + (if Second(v).Some? then BytesFrom(v, Second(v).value) else 0)
         == BytesForwarded(v) + BytesHeldBack(v)
  {
    var before := v[..|v| - 1];
    if before != [] {
      BytesAreConserved(before);
      SecondMeaning(before);
      if Second(before).None? && Second(v).Some? {
        StrangersSentNothing(before, Second(v).value);
      }
    } else {
      assert BytesFrom(v, v[0].src) == BytesFrom(before, v[0].src) + v[0].bytes;
      assert BytesForwarded(before) == 0 && BytesHeldBack(before) == 0;
    }
  }

  /** The two counters add up to the forwarded and the held-back bytes, modulo 2^64. */
  predicate Accounted(al: Allocation, v: seq<Visit>) {
    (al.a.bytesForwarded + al.b.bytesForwarded) % TwoTo64 == (BytesForwarded(v) + BytesHeldBack(v)) % TwoTo64
  }

  lemma DescribedCountersAddUp(al: Allocation, token: SessionToken, v: seq<Visit>)
    requires Describes(al, token, v)
    ensures Accounted(al, v)
  {
    BytesAreConserved(v);
    var x: nat := BytesFrom(v, v[0].src);
    var y: nat := if Second(v).Some? then BytesFrom(v, Second(v).value) else 0;
    assert al.a.bytesForwarded == x % TwoTo64 && al.b.bytesForwarded == y % TwoTo64;
    ModSum(x, y);
  }

  /** The stored counters account for every forwarded and every held-back byte of the lifetime, modulo 2^64. */
  lemma CountersAreConserved(boot: int, ticks: seq<Tick>, n: nat, token: SessionToken)
    requires n <= |ticks| && Chronological(boot, ticks)
    requires token in Run(boot, ticks, n).table
    ensures Accounted(Run(boot, ticks, n).table[token], Lifetime(boot, ticks, n, token))
  {
    TableRefinesHistory(boot, ticks, n, token);
    DescribedCountersAddUp(Run(boot, ticks, n).table[token], token, Lifetime(boot, ticks, n, token));
  }

  /** The payload bytes a datagram carries under token. */
  function PayloadUnder(data: seq<Byte>, token: SessionToken): nat {
    var p := Parse(data);
    if p.Some? && p.value.token == token then |p.value.payload| else 0
  }

  /** The payload bytes sent under token. */
  function PayloadSent(mail: seq<Sent>, token: SessionToken): nat {
    if mail == [] then 0 else PayloadSent(mail[..|mail| - 1], token) + PayloadUnder(Last(mail).data, token)
  }

  lemma PayloadSentSnoc(mail: seq<Sent>, more: seq<Sent>, token: SessionToken)
    requires |more| <= 1
    ensures PayloadSent(mail + more, token)
         == PayloadSent(mail, token) + if more == [] then 0 else PayloadUnder(more[0].data, token)
  {
    if more == [] {
      assert mail + more == mail;
    } else {
      assert (mail + more)[..|mail|] == mail;
    }
  }

  /** The payload bytes under token that pass n forwards, from the history. */
  function ForwardedAt(boot: int, ticks: seq<Tick>, n: nat, token: SessionToken): nat
    requires n < |ticks|
  {
    if Carries(ticks[n], token) && PeerOf(Arrived(boot, ticks, n + 1, token), Source(ticks[n])).Ok?
    then VisitOf(ticks[n]).bytes else 0
  }

  /** The payload bytes under token that the first n passes forward, from the history. */
  function ForwardedBy(boot: int, ticks: seq<Tick>, n: nat, token: SessionToken): nat
    requires n <= |ticks|
  {
    if n == 0 then 0 else ForwardedBy(boot, ticks, n - 1, token) + ForwardedAt(boot, ticks, n - 1, token)
  }

  /** One pass sends under token exactly the payload its history forwards. */
  lemma PassSends(boot: int, ticks: seq<Tick>, n: nat, token: SessionToken, mail: seq<Sent>)
    requires n < |ticks| && Chronological(boot, ticks)
    ensures PayloadSent(mail + Forwards(Run(boot, ticks, n), ticks[n]), token)
         == PayloadSent(mail, token) + ForwardedAt(boot, ticks, n, token)
  {
    hide Run, Lifetime, PayloadSent;
    PayloadSentSnoc(mail, Forwards(Run(boot, ticks, n), ticks[n]), token);
    if Carries(ticks[n], token) {
      RoutingRefinesHistory(boot, ticks, n, token);
    }
  }

  /** What the relay hands to its socket under a token is what the history forwards. */
  lemma {:induction false} TranscriptIsForwarded(boot: int, ticks: seq<Tick>, n: nat, token: SessionToken,
                                                 mail: seq<Sent>)
    requires n <= |ticks| && Chronological(boot, ticks) && mail == Transcript(boot, ticks, n)
    ensures PayloadSent(mail, token) == ForwardedBy(boot, ticks, n, token)
  {
    hide Run, Forwards, ForwardedAt, PayloadUnder;
    if n > 0 {
      var before := Transcript(boot, ticks, n - 1);
      TranscriptIsForwarded(boot, ticks, n - 1, token, before);
      PassSends(boot, ticks, n - 1, token, before);
    }
  }

  /** A visit appended to a history adds to what it forwards. */
  lemma ForwardedSnoc(v: seq<Visit>, x: Visit)
    ensures BytesForwarded(v + [x]) == BytesForwarded(v) + if PeerOf(v + [x], x.src).Ok? then x.bytes else 0
  {
    assert (v + [x])[..|v|] == v;
  }

  /** A pass that does not end the lifetime adds to what it forwards, and leaves its beginning where it was. */
  lemma LifetimeForwards(boot: int, ticks: seq<Tick>, n: nat, token: SessionToken)
    requires n < |ticks| && Lifetime(boot, ticks, n + 1, token) != []
    ensures BytesForwarded(Lifetime(boot, ticks, n + 1, token))
         == BytesForwarded(Lifetime(boot, ticks, n, token)) + ForwardedAt(boot, ticks, n, token)
    ensures Since(boot, ticks, n + 1, token) == Since(boot, ticks, n, token)
  {
    var before := Lifetime(boot, ticks, n, token);
    if Carries(ticks[n], token) {
      ForwardedSnoc(before, VisitOf(ticks[n]));
    } else {
      assert before + [] == before;
    }
  }

  /** What was forwarded since the lifetime began is what the lifetime forwards. */
  lemma {:induction false} LifetimeIsForwarded(boot: int, ticks: seq<Tick>, n: nat, token: SessionToken, start: nat)
    requires n <= |ticks| && start == Since(boot, ticks, n, token)
    ensures ForwardedBy(boot, ticks, n, token)
         == ForwardedBy(boot, ticks, start, token) + BytesForwarded(Lifetime(boot, ticks, n, token))
  {
    hide Kept, ForwardedAt;
    if Lifetime(boot, ticks, n, token) != [] {
      LifetimeForwards(boot, ticks, n - 1, token);
      LifetimeIsForwarded(boot, ticks, n - 1, token, start);
    }
  }

  /** End to end: the payload bytes the two legs sent in a lifetime are those the relay handed to its socket under
      the token since the lifetime began, plus those held back while only one side was known. */
  lemma LegsAreAccountedFor(boot: int, ticks: seq<Tick>, n: nat, token: SessionToken)
    requires n <= |ticks| && Chronological(boot, ticks) && token in Run(boot, ticks, n).table
    ensures var al, v := Run(boot, ticks, n).table[token], Lifetime(boot, ticks, n, token);
      BytesFrom(v, al.a.endpoint) + (if al.b.bound then BytesFrom(v, al.b.endpoint) else 0)
        == PayloadSent(Transcript(boot, ticks, n), token)
           - PayloadSent(Transcript(boot, ticks, Since(boot, ticks, n, token)), token)
           + BytesHeldBack(v)
  {
    hide Run, Lifetime, Transcript, Since, PayloadSent, BytesForwarded, BytesHeldBack, BytesFrom;
    TableRefinesHistory(boot, ticks, n, token);
    BytesAreConserved(Lifetime(boot, ticks, n, token));
    var start := Since(boot, ticks, n, token);
    TranscriptIsForwarded(boot, ticks, n, token, Transcript(boot, ticks, n));
    TranscriptIsForwarded(boot, ticks, start, token, Transcript(boot, ticks, start));
    LifetimeIsForwarded(boot, ticks, n, token, start);
  }

  /** Staleness bound: at the end of every pass no allocation has been idle for more than 39 s. */
  lemma IdlenessBound(boot: int, ticks: seq<Tick>, n: nat, token: SessionToken)
    requires n <= |ticks| && Chronological(boot, ticks)
    requires token in Run(boot, ticks, n).table
    ensures 0 <= ClockAt(boot, ticks, n) - Run(boot, ticks, n).table[token].lastActivity
              <= 39
  {
    TableRefinesHistory(boot, ticks, n, token);
    LifetimeIsRecent(boot, ticks, n, token);
    SweepIsRecent(boot, ticks, n, 10);
  }

  /** The 39 seconds are reached: an allocation is spared by a sweep at age 30 and the next is 10 seconds away. */
  lemma IdlenessBoundIsTight(boot: int, from: Endpoint, token: SessionToken, payload: seq<Byte>)
    requires boot > 0 && 0 < |token| <= 255
    ensures var ticks := [Tick(Some(Datagram(from, Wrap(Parsed(token, payload)))), boot, boot),
                          Tick(None, boot + 30, boot + 30), Tick(None, boot + 39, boot + 39)];
      && Chronological(boot, ticks)
      && token in Run(boot, ticks, 3).table
      && ClockAt(boot, ticks, 3) - Run(boot, ticks, 3).table[token].lastActivity == 39
  {
    var ticks := [Tick(Some(Datagram(from, Wrap(Parsed(token, payload)))), boot, boot),
                  Tick(None, boot + 30, boot + 30), Tick(None, boot + 39, boot + 39)];
    ParseIffWrapped(Wrap(Parsed(token, payload)), Parsed(token, payload));
    assert Carries(ticks[0], token);
    var v := [VisitOf(ticks[0])];
    assert Lifetime(boot, ticks, 1, token) == v;
    assert LastSweep(boot, ticks, 1, 10) == boot;
    assert Lifetime(boot, ticks, 2, token) == v;
    assert LastSweep(boot, ticks, 2, 10) == boot + 30;
    assert Lifetime(boot, ticks, 3, token) == v;
    TableRefinesHistory(boot, ticks, 3, token);
  }
}
