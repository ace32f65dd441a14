/** server/relay/main.cpp: the datagram parser and the forward loop of the relay. */
module Relay {
  import opened Common
  import opened Net
  import opened ServerLoop
  import opened AllocationTable

  const SessionTtl := 30
  const ExpirySweep := 10

  datatype Parsed = Parsed(token: SessionToken, payload: seq<Byte>)

  datatype State = State(table: Table, lastSweep: int)

  /** A relayed datagram, [u8 token_len][token][payload]. */
  function Wrap(p: Parsed): seq<Byte>
    requires |p.token| <= 255
  {
    [|p.token|] + p.token + p.payload
  }

  function Parse(data: seq<Byte>): Option<Parsed> {
    if |data| < 1 || data[0] == 0 || 1 + data[0] as int > |data| then None
    else Some(Parsed(data[1..1 + data[0] as int], data[1 + data[0] as int..]))
  }

  /** Parsing inverts wrapping and accepts nothing else: re-wrapping what was parsed gives the bytes received. */
  lemma ParseIffWrapped(data: seq<Byte>, p: Parsed)
    ensures Parse(data) == Some(p) <==> 0 < |p.token| <= 255 && data == Wrap(p)
  {
    if 0 < |p.token| <= 255 {
      var w := Wrap(p);
      assert w[1..1 + w[0] as int] == p.token && w[1 + w[0] as int..] == p.payload;
    }
  }

  /** What a pass received under a well-formed token. */
  function Incoming(tick: Tick): Option<Parsed> {
    if tick.arrival.None? then None else Parse(tick.arrival.value.data)
  }

  function Source(tick: Tick): Endpoint
    requires Incoming(tick).Some?
  {
    tick.arrival.value.from
  }

  function Handled(s: State, tick: Tick): State {
    if Incoming(tick).None? then s
    else
      var p, now := Incoming(tick).value, tick.handleTime;
      s.(table := Routed(Allocated(s.table, p.token, now), p.token, Source(tick), |p.payload|, now))
  }

  function Forwards(s: State, tick: Tick): seq<Sent> {
    if Incoming(tick).None? then []
    else
      var p := Incoming(tick).value;
      var dst := RouteResult(Allocated(s.table, p.token, tick.handleTime), p.token, Source(tick));
      if dst.Ok? then [Sent(dst.value, tick.arrival.value.data)] else []
  }

  function Swept(s: State, now: int): State {
    if now - s.lastSweep >= ExpirySweep then State(Expired(s.table, now, SessionTtl), now) else s
  }

  function Step(s: State, tick: Tick): State {
    Swept(Handled(s, tick), tick.sweepTime)
  }

  /** The state at start-up. */
  function Boot(boot: int): State {
    State(map[], boot)
  }

  /** The state after the first n passes. */
  function Run(boot: int, ticks: seq<Tick>, n: nat): State
    requires n <= |ticks|
  {
    if n == 0 then Boot(boot) else Step(Run(boot, ticks, n - 1), ticks[n - 1])
  }

  /** Everything forwarded during the first n passes, in order. */
  function Transcript(boot: int, ticks: seq<Tick>, n: nat): seq<Sent>
    requires n <= |ticks|
  {
    if n == 0 then []
    else Transcript(boot, ticks, n - 1) + Forwards(Run(boot, ticks, n - 1), ticks[n - 1])
  }

  method ParseDatagram(data: seq<Byte>) returns (ok: bool, token: SessionToken, payload: seq<Byte>)
    ensures ok <==> Parse(data).Some?
    ensures ok ==> Parse(data) == Some(Parsed(token, payload))
  {
    ok, token, payload := false, [], [];
    if |data| < 1 { return; }
    var tlen := data[0];
    if tlen == 0 || 1 + tlen as int > |data| { return; }
    token := data[1..1 + tlen as int];
    payload := data[1 + tlen as int..];
    ok := true;
  }

  class RelayServer {
    const table: InMemoryAllocationTable
    var lastSweep: int

    ghost function Abs(): State
      reads this, table
    {
      State(table.entries, lastSweep)
    }

    constructor (now: int)
      ensures Abs() == Boot(now) && fresh(table)
    {
      table := new InMemoryAllocationTable();
      lastSweep := now;
    }

    /** One pass of the forward loop: route and re-wrap what arrived, then sweep when the period is over. */
    method Pass(tick: Tick) returns (sent: seq<Sent>)
      modifies this, table
      ensures Abs() == Step(old(Abs()), tick)
      ensures sent == Forwards(old(Abs()), tick)
    {
      sent := [];
      if tick.arrival.Some? {
        var ok, token, payload := ParseDatagram(tick.arrival.value.data);
        if ok {
          var now := tick.handleTime;
          ParseIffWrapped(tick.arrival.value.data, Parsed(token, payload));
          var _ := table.Allocate(token, now);
          var dst := table.Route(token, tick.arrival.value.from, |payload|, now);
          if dst.Ok? {
            var out: seq<Byte> := [];
            out := out + [|token|];
            out := out + token;
            out := out + payload;
            assert out == Wrap(Parsed(token, payload));
            sent := [Sent(dst.value, out)];
          }
        }
      }
      assert Abs() == Handled(old(Abs()), tick);
      if tick.sweepTime - lastSweep >= ExpirySweep {
        var _ := table.Expire(tick.sweepTime, SessionTtl);
        lastSweep := tick.sweepTime;
      }
    }

    /** The forward loop, for any finite number of passes from start-up. */
    method Serve(ghost boot: int, ticks: seq<Tick>) returns (sent: seq<Sent>)
      requires Abs() == Boot(boot)
      modifies this, table
      ensures Abs() == Run(boot, ticks, |ticks|)
      ensures sent == Transcript(boot, ticks, |ticks|)
    {
      sent := [];
      for i := 0 to |ticks|
        invariant Abs() == Run(boot, ticks, i)
        invariant sent == Transcript(boot, ticks, i)
      {
        var out := Pass(ticks[i]);
        sent := sent + out;
      }
    }
  }
}
