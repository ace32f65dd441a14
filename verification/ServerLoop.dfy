/** What both servers' loops share: one datagram at most per pass, and a sweep once its period has gone by. */
module ServerLoop {
  import opened Common
  import opened Net

  datatype Datagram = Datagram(from: Endpoint, data: seq<Byte>)

  /** One pass of a server loop: what was received, the clock its handler read, and the clock read before
      the sweep. A failed receive is a pass with no arrival. */
  datatype Tick = Tick(arrival: Option<Datagram>, handleTime: int, sweepTime: int)

  /** One datagram handed to the socket. */
  datatype Sent = Sent(to: Endpoint, data: seq<Byte>)

  /** The clock after n passes. */
  function ClockAt(boot: int, ticks: seq<Tick>, n: nat): int
    requires n <= |ticks|
  {
    if n == 0 then boot else ticks[n - 1].sweepTime
  }

  /** The clock starts positive and never runs backwards. */
  predicate Chronological(boot: int, ticks: seq<Tick>) {
    && boot > 0
    && forall i :: 0 <= i < |ticks| ==>
         ClockAt(boot, ticks, i) <= ticks[i].handleTime <= ticks[i].sweepTime
  }

  /** When the last sweep among the first n passes ran; booting counts as one. */
  function LastSweep(boot: int, ticks: seq<Tick>, n: nat, period: nat): int
    requires n <= |ticks|
    decreases n, 0
  {
    if n == 0 then boot
    else if SweepsAt(boot, ticks, n - 1, period) then ticks[n - 1].sweepTime
    else LastSweep(boot, ticks, n - 1, period)
  }

  /** Pass i ends with a sweep. */
  predicate SweepsAt(boot: int, ticks: seq<Tick>, i: nat, period: nat)
    requires i < |ticks|
    decreases i, 1
  {
    ticks[i].sweepTime - LastSweep(boot, ticks, i, period) >= period
  }

  /** A sweep is never overdue at the end of a pass. */
  lemma {:induction false} SweepIsRecent(boot: int, ticks: seq<Tick>, n: nat, period: nat)
    requires n <= |ticks| && period > 0 && Chronological(boot, ticks)
    ensures 0 <= ClockAt(boot, ticks, n) - LastSweep(boot, ticks, n, period) < period
  {
    if n > 0 {
      SweepIsRecent(boot, ticks, n - 1, period);
    }
  }

  lemma {:induction false} ClockMonotone(boot: int, ticks: seq<Tick>, i: nat, j: nat)
    requires i <= j <= |ticks| && Chronological(boot, ticks)
    ensures boot <= ClockAt(boot, ticks, i) <= ClockAt(boot, ticks, j)
    ensures i < j ==> ticks[i].handleTime <= ClockAt(boot, ticks, j)
    decreases i + j
  {
    if i < j {
      ClockMonotone(boot, ticks, i, j - 1);
      assert ClockAt(boot, ticks, j - 1) <= ticks[j - 1].handleTime <= ticks[j - 1].sweepTime;
    } else if i > 0 {
      ClockMonotone(boot, ticks, i - 1, j - 1);
      assert ClockAt(boot, ticks, j - 1) <= ticks[j - 1].handleTime <= ticks[j - 1].sweepTime;
    }
  }
}
