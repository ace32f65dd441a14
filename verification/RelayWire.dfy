/** The relay end to end: bytes in, bytes out, with the first two sources of a token read off the datagrams. */
module RelayWire {
  import opened Common
  import opened Net
  import opened ServerLoop
  import opened AllocationTable
  import opened Relay
  import opened RelayRuns

  /** The pass receives the bytes from the source. */
  predicate Receives(tick: Tick, from: Endpoint, data: seq<Byte>) {
    tick.arrival == Some(Datagram(from, data))
  }

  /** The sources a and b are the first two to appear. */
  ghost predicate FirstTwo(v: seq<Visit>, a: Endpoint, b: Endpoint) {
    exists k :: 0 < k < |v| && v[0].src == a && v[k].src == b != a && forall j :: 0 <= j < k ==> v[j].src == a
  }

  /** A relayed datagram on the wire: one byte of token length, the token, the payload. */
  lemma WrappedBytes(p: Parsed)
    requires 0 < |p.token| <= 255
    ensures var d := Wrap(p);
      && |d| == 1 + |p.token| + |p.payload| && d[0] == |p.token|
      && d[1..1 + |p.token|] == p.token && d[1 + |p.token|..] == p.payload
    ensures Parse(Wrap(p)) == Some(p)
  {
    ParseIffWrapped(Wrap(p), p);
  }

  /** Such a datagram is a visit of its source under its token, with its payload's size. */
  lemma VisitOnWire(tick: Tick, from: Endpoint, token: SessionToken, payload: seq<Byte>)
    requires 0 < |token| <= 255 && Receives(tick, from, [|token|] + token + payload)
    ensures Carries(tick, token) && VisitOf(tick) == Visit(from, |payload|, tick.handleTime)
    ensures forall other :: other != token ==> !Carries(tick, other)
  {
    WrappedBytes(Parsed(token, payload));
  }

  /** Any other bytes are no visit, are not forwarded and leave the table alone. */
  lemma MalformedOnWire(s: State, tick: Tick, from: Endpoint, data: seq<Byte>)
    requires Receives(tick, from, data) && (|data| < 1 || data[0] == 0 || |data| < 1 + data[0] as int)
    ensures Handled(s, tick) == s && Forwards(s, tick) == []
    ensures forall token :: !Carries(tick, token)
  {
  }

  lemma {:induction false} FirstTwoIffSecond(v: seq<Visit>, a: Endpoint, b: Endpoint)
    requires v != []
    ensures FirstTwo(v, a, b) <==> v[0].src == a && Second(v) == Some(b)
  {
    hide Second;
    SecondMeaning(v);
    if FirstTwo(v, a, b) {
      var k :| 0 < k < |v| && v[0].src == a && v[k].src == b != a && forall j :: 0 <= j < k ==> v[j].src == a;
      var i :| 0 < i < |v| && v[i].src == Second(v).value != v[0].src && forall j :: 0 <= j < i ==> v[j].src == a;
      assert i == k;
    }
  }

  /** Routing end to end, in any chronological run: a datagram goes out unchanged to endpoint d exactly when its
      source and d, in either order, are the first two sources seen under its token since the allocation was
      created, itself included; otherwise nothing goes out. */
  lemma RoutedOnWire(boot: int, ticks: seq<Tick>, n: nat, from: Endpoint, token: SessionToken, payload: seq<Byte>)
    requires n < |ticks| && Chronological(boot, ticks) && 0 < |token| <= 255
    requires Receives(ticks[n], from, [|token|] + token + payload)
    ensures var v, out := Arrived(boot, ticks, n + 1, token), Forwards(Run(boot, ticks, n), ticks[n]);
      && (out == [] || exists d :: out == [Sent(d, [|token|] + token + payload)])
      && forall d :: out == [Sent(d, [|token|] + token + payload)] <==> FirstTwo(v, from, d) || FirstTwo(v, d, from)
  {
    hide Run, Forwards, Lifetime, FirstTwo, Second;
    VisitOnWire(ticks[n], from, token, payload);
    RoutingRefinesHistory(boot, ticks, n, token);
    var v, out := Arrived(boot, ticks, n + 1, token), Forwards(Run(boot, ticks, n), ticks[n]);
    SecondMeaning(v);
    forall d ensures out == [Sent(d, [|token|] + token + payload)] <==> FirstTwo(v, from, d) || FirstTwo(v, d, from) {
      FirstTwoIffSecond(v, from, d);
      FirstTwoIffSecond(v, d, from);
      if out != [] {
        assert out == [Sent(d, ticks[n].arrival.value.data)] <==> out[0].to == d;
      }
    }
  }

  /** A source's bytes are summed visit by visit. */
  lemma {:induction false} BytesFromAdds(v: seq<Visit>, w: seq<Visit>, src: Endpoint)
    ensures BytesFrom(v + w, src) == BytesFrom(v, src) + BytesFrom(w, src)
    ensures forall x: Visit :: BytesFrom([x], src) == if x.src == src then x.bytes else 0
  {
    if w == [] {
      assert v + w == v;
    } else {
      assert (v + w)[..|v + w| - 1] == v + w[..|w| - 1];
      BytesFromAdds(v, w[..|w| - 1], src);
    }
    forall x: Visit ensures BytesFrom([x], src) == if x.src == src then x.bytes else 0 {
      assert [x][..0] == [];
    }
  }

  /** The last pass among the first n that carried token. */
  function LastSeen(ticks: seq<Tick>, n: nat, token: SessionToken): (r: Option<nat>)
    requires n <= |ticks|
    ensures r.Some? ==> r.value < n && Carries(ticks[r.value], token)
    ensures forall i :: 0 <= i < n && Carries(ticks[i], token) ==> r.Some? && i <= r.value
  {
    if n == 0 then None
    else if Carries(ticks[n - 1], token) then Some(n - 1)
    else LastSeen(ticks, n - 1, token)
  }

  /** The token was seen, and the last sweep came at most 30 seconds after that. */
  predicate SeenForSweep(boot: int, ticks: seq<Tick>, n: nat, token: SessionToken)
    requires n <= |ticks|
  {
    var k := LastSeen(ticks, n, token);
    k.Some? && LastSweep(boot, ticks, n, 10) - ticks[k.value].handleTime <= 30
  }

  /** The stamp of a history's last visit. */
  function LastTime(v: seq<Visit>): Option<int> {
    if v == [] then None else Some(Last(v).time)
  }

  lemma ExtendedLast(v: seq<Visit>, tick: Tick, token: SessionToken)
    ensures LastTime(v + if Carries(tick, token) then [VisitOf(tick)] else [])
         == if Carries(tick, token) then Some(tick.handleTime) else LastTime(v)
  {
    hide Carries;
    assert v + [] == v;
  }

  lemma KeptLast(v: seq<Visit>, sweeps: bool, now: int)
    ensures LastTime(Kept(v, sweeps, now))
         == if v != [] && sweeps && now - Last(v).time > 30 then None else LastTime(v)
  {
  }

  /** A lifetime's last stamp is the last time the token was seen. */
  ghost predicate LivesAsSeen(boot: int, ticks: seq<Tick>, n: nat, token: SessionToken, last: Option<int>)
    requires n <= |ticks|
  {
    && (last.Some? <==> SeenForSweep(boot, ticks, n, token))
    && (last.Some? ==> last.value == ticks[LastSeen(ticks, n, token).value].handleTime)
  }

  lemma LivesStep(boot: int, ticks: seq<Tick>, n: nat, token: SessionToken, last: Option<int>)
    requires n < |ticks| && Chronological(boot, ticks)
    requires LivesAsSeen(boot, ticks, n, token, last)
    ensures var seen := if Carries(ticks[n], token) then Some(ticks[n].handleTime) else last;
      LivesAsSeen(boot, ticks, n + 1, token,
                  if seen.Some? && SweepsAt(boot, ticks, n, 10) && ticks[n].sweepTime - seen.value > 30
                  then None else seen)
  {
    hide Carries;
    SweepIsRecent(boot, ticks, n, 10);
    assert ClockAt(boot, ticks, n) <= ticks[n].handleTime <= ticks[n].sweepTime;
  }

  lemma {:induction false} LifetimeAsSeen(boot: int, ticks: seq<Tick>, n: nat, token: SessionToken, last: Option<int>)
    requires n <= |ticks| && Chronological(boot, ticks) && last == LastTime(Lifetime(boot, ticks, n, token))
    ensures LivesAsSeen(boot, ticks, n, token, last)
  {
    hide Carries, Kept, SweepsAt;
    if n > 0 {
      hide LivesAsSeen;
      var before, tick := Lifetime(boot, ticks, n - 1, token), ticks[n - 1];
      LifetimeAsSeen(boot, ticks, n - 1, token, LastTime(before));
      ExtendedLast(before, tick, token);
      KeptLast(Arrived(boot, ticks, n, token), SweepsAt(boot, ticks, n - 1, 10), tick.sweepTime);
      LivesStep(boot, ticks, n - 1, token, LastTime(before));
    }
  }

  /** In a chronological run an allocation exists exactly when the last sweep, of the sweeps every 10 seconds, came at
      most 30 seconds after the last datagram under its token. */
  lemma AllocatedIffSeen(boot: int, ticks: seq<Tick>, n: nat, token: SessionToken)
    requires n <= |ticks| && Chronological(boot, ticks)
    ensures token in Run(boot, ticks, n).table <==> SeenForSweep(boot, ticks, n, token)
  {
    hide Run, Lifetime, SeenForSweep;
    TableRefinesHistory(boot, ticks, n, token);
    LifetimeAsSeen(boot, ticks, n, token, LastTime(Lifetime(boot, ticks, n, token)));
  }
}
