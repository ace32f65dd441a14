/** core/transport/transport_stub.cpp: the AIMD bitrate controller, exact in integers. */
module CongestionController {
  import opened Common

  const DelayOveruseUs := 30000
  const AdditiveIncreaseKbps := 500

  /** The largest target the additive step cannot wrap past 2^32. */
  const NoWrap := TwoTo32 - 1 - AdditiveIncreaseKbps

  datatype Report = Report(lost: uint32, received: uint32, queuingDelayUs: int)

  datatype Controller = Controller(min: uint32, max: uint32, target: uint32)

  const InitialController := Controller(500, 50000, 8000)

  /** Nothing received counts as no loss; otherwise the ratio's denominator is a 32-bit sum that may wrap. */
  function Total(r: Report): uint32 {
    (r.lost as int + r.received as int) % TwoTo32
  }

  /** loss_ratio > 0.10 */
  predicate HighLoss(r: Report) {
    r.received > 0 && 10 * r.lost as int > Total(r) as int
  }

  /** loss_ratio < 0.02 */
  predicate LowLoss(r: Report) {
    r.received == 0 || 50 * r.lost as int < Total(r) as int
  }

  predicate Overuse(r: Report) {
    r.queuingDelayUs > DelayOveruseUs || HighLoss(r)
  }

  predicate Good(r: Report) {
    !Overuse(r) && LowLoss(r)
  }

  /** Truncated multiplication by 0.85. */
  function Decrease(x: uint32): uint32 {
    x as int * 17 / 20
  }

  /** The additive step, in 32 bits. */
  function Increase(x: uint32): uint32 {
    (x as int + AdditiveIncreaseKbps) % TwoTo32
  }

  /** std::clamp */
  function Clamp(x: uint32, lo: uint32, hi: uint32): uint32 {
    if x < lo then lo else if hi < x then hi else x
  }

  function OnFeedback(c: Controller, r: Report): Controller {
    var target := if Overuse(r) then Decrease(c.target) else if LowLoss(r) then Increase(c.target) else c.target;
    c.(target := Clamp(target, c.min, c.max))
  }

  function SetBounds(c: Controller, min: uint32, max: uint32): Controller {
    var hi := if max < min then min else max;
    Controller(min, hi, Clamp(c.target, min, hi))
  }

  datatype Call = Feedback(report: Report) | Bounds(min: uint32, max: uint32)

  function Step(c: Controller, call: Call): Controller {
    match call
    case Feedback(r) => OnFeedback(c, r)
    case Bounds(min, max) => SetBounds(c, min, max)
  }

  function Run(c: Controller, calls: seq<Call>): Controller {
    if calls == [] then c else Step(Run(c, calls[..|calls| - 1]), Last(calls))
  }

  predicate InRange(c: Controller) {
    c.min <= c.target <= c.max
  }

  // ----- the integer forms are the original's ratios -----

  /** A floating-point ratio: a number, or infinity when a positive number is divided by zero. */
  datatype Ratio = Finite(value: real) | Infinite {
    predicate Above(t: real) { Infinite? || value > t }
    predicate Below(t: real) { Finite? && value < t }
  }

  /** loss_ratio; the 32-bit sum in the denominator can wrap to zero, but only when something was lost. */
  function LossRatio(r: Report): Ratio {
    var sum := (r.lost as int + r.received as int) % 0x1_0000_0000;
    if r.received == 0 then Finite(0.0)
    else if sum == 0 then Infinite
    else Finite(r.lost as real / sum as real)
  }

  /** Comparing a ratio is comparing its numerator with the scaled denominator. */
  lemma RatioAgainst(x: real, y: real, t: real)
    requires y > 0.0
    ensures x / y > t <==> x > t * y
    ensures x / y < t <==> x < t * y
  {
    var d := x / y - t;
    assert d * y == x - t * y;
    SameSign(d, y);
  }

  lemma SameSign(d: real, y: real)
    requires y > 0.0
    ensures d > 0.0 <==> d * y > 0.0
    ensures d < 0.0 <==> d * y < 0.0
  {
  }

  /** The integer comparisons are the thresholds 0.10 and 0.02 on the loss ratio, for every report. */
  lemma LossThresholds(r: Report)
    ensures HighLoss(r) <==> LossRatio(r).Above(0.10)
    ensures LowLoss(r) <==> LossRatio(r).Below(0.02)
    ensures LossRatio(r).Infinite? ==> r.lost > 0
  {
    if r.received > 0 {
      if Total(r) > 0 {
        RatioAgainst(r.lost as real, Total(r) as real, 0.10);
        RatioAgainst(r.lost as real, Total(r) as real, 0.02);
      } else {
        assert r.lost as int + r.received as int == TwoTo32;
      }
    }
  }

  /** The integer decrease is the truncated product with 0.85. */
  lemma DecreaseTruncates(x: uint32)
    ensures Decrease(x) as int == (x as real * 0.85).Floor
  {
    var d := Decrease(x) as int;
    assert 20 * d <= 17 * x as int < 20 * (d + 1);
    assert 20.0 * d as real <= 17.0 * x as real < 20.0 * (d + 1) as real;
  }

  // ----- the feedback law -----

  /** The value between min and max that is nearest to x. */
  predicate Nearest(t: int, x: int, min: int, max: int) {
    && min <= t <= max
    && (min <= x <= max ==> t == x)
    && (x < min ==> t == min)
    && (x > max ==> t == max)
  }

  /** The law of one report, in the original's units: above 30000 us of queuing delay or 10% loss the target falls to
      85% of itself; otherwise below 2% loss it rises by 500 kbps in 32 bits; otherwise it stays; and in each case it
      is kept between the bounds. */
  lemma FeedbackLaw(c: Controller, r: Report)
    requires InRange(c)
    ensures var after := OnFeedback(c, r);
      && after.min == c.min && after.max == c.max
      && Nearest(after.target,
                 if r.queuingDelayUs > 30000 || LossRatio(r).Above(0.10) then (c.target as real * 0.85).Floor
                 else if LossRatio(r).Below(0.02) then (c.target as int + 500) % 0x1_0000_0000
                 else c.target,
                 c.min, c.max)
  {
    hide Decrease, HighLoss, LowLoss, LossRatio;
    LossThresholds(r);
    DecreaseTruncates(c.target);
  }

  /** The law of new bounds: a maximum below the minimum is raised to it, and the target goes to the nearest value
      between them. A new controller runs at 8000 kbps between 500 and 50000. */
  lemma BoundsLaw(c: Controller, min: uint32, max: uint32)
    ensures var after := SetBounds(c, min, max);
      && after.min == min && after.max == Max(min, max)
      && Nearest(after.target, c.target, min, Max(min, max))
    ensures InitialController.min == 500 && InitialController.max == 50000 && InitialController.target == 8000
  {
  }

  /** The law over a run: what a run of calls leaves behind is decided call by call by the two laws above. */
  lemma RunFollowsLaws(c: Controller, calls: seq<Call>, i: nat)
    requires InRange(c) && i < |calls|
    ensures var before, after := Run(c, calls[..i]), Run(c, calls[..i + 1]);
      match calls[i]
      case Bounds(min, max) =>
        && after.min == min && after.max == Max(min, max)
        && Nearest(after.target, before.target, min, Max(min, max))
      case Feedback(r) =>
        && after.min == before.min && after.max == before.max
        && Nearest(after.target,
                   if r.queuingDelayUs > 30000 || LossRatio(r).Above(0.10) then (before.target as real * 0.85).Floor
                   else if LossRatio(r).Below(0.02) then (before.target as int + 500) % 0x1_0000_0000
                   else before.target,
                   before.min, before.max)
  {
    var before := Run(c, calls[..i]);
    assert calls[..i + 1][..i] == calls[..i] && Last(calls[..i + 1]) == calls[i];
    hide OnFeedback, SetBounds, LossRatio, Nearest;
    TargetStaysInRange(c, calls[..i]);
    match calls[i] {
      case Feedback(r) => FeedbackLaw(before, r);
      case Bounds(min, max) => BoundsLaw(before, min, max);
    }
  }

  // ----- the target stays in range -----

  /** min <= target <= max in every run, whatever the reports and bounds, wrap-around included. */
  lemma {:induction false} TargetStaysInRange(c: Controller, calls: seq<Call>)
    requires InRange(c)
    ensures InRange(Run(c, calls))
  {
    if calls != [] {
      TargetStaysInRange(c, calls[..|calls| - 1]);
    }
  }

  // ----- two controllers under the same calls -----

  /** Either no target within the bounds wraps on the additive step, or all of them do. */
  predicate WrapsAllOrNone(min: uint32, max: uint32) {
    max <= NoWrap || min > NoWrap
  }

  /** Equal bounds, both in range and ordered. */
  predicate Ordered(c: Controller, d: Controller) {
    && c.min == d.min && c.max == d.max
    && c.min <= c.target <= d.target <= c.max
    && WrapsAllOrNone(c.min, c.max)
  }

  function Gap(c: Controller, d: Controller): int {
    d.target as int - c.target as int
  }

  /** The bounds a call sets keep the additive step uniform; the maximum is first raised to the minimum. */
  predicate SetsUniformBounds(call: Call) {
    call.Bounds? ==> WrapsAllOrNone(call.min, if call.max < call.min then call.min else call.max)
  }

  predicate IsOveruse(call: Call) {
    call.Feedback? && Overuse(call.report)
  }

  function Overuses(calls: seq<Call>): nat {
    if calls == [] then 0 else Overuses(calls[..|calls| - 1]) + if IsOveruse(Last(calls)) then 1 else 0
  }

  /** Scaling by 17/20 with truncation keeps the order, and brings a gap above six strictly closer. */
  lemma DecreaseContracts(x: uint32, y: uint32)
    requires x <= y
    ensures Decrease(x) <= Decrease(y)
    ensures Decrease(y) as int - Decrease(x) as int <= Max(6, y as int - x as int - 1)
    ensures Decrease(y) as int - Decrease(x) as int <= y as int - x as int
  {
  }

  lemma ClampContracts(x: uint32, y: uint32, lo: uint32, hi: uint32)
    requires x <= y && lo <= hi
    ensures lo <= Clamp(x, lo, hi) <= Clamp(y, lo, hi) <= hi
    ensures Clamp(y, lo, hi) as int - Clamp(x, lo, hi) as int <= y as int - x as int
  {
  }

  /** The additive step either adds or wraps to a value below the increment itself. */
  lemma IncreaseAddsOrWraps(x: uint32)
    ensures x <= NoWrap ==> Increase(x) as int == x as int + AdditiveIncreaseKbps
    ensures x > NoWrap ==> Increase(x) as int < AdditiveIncreaseKbps
  {
  }

  lemma FeedbackContracts(c: Controller, d: Controller, r: Report)
    requires Ordered(c, d)
    ensures Ordered(OnFeedback(c, r), OnFeedback(d, r))
    ensures Gap(OnFeedback(c, r), OnFeedback(d, r)) <= Gap(c, d)
    ensures Overuse(r) ==> Gap(OnFeedback(c, r), OnFeedback(d, r)) <= Max(6, Gap(c, d) - 1)
  {
    if Overuse(r) {
      DecreaseContracts(c.target, d.target);
      ClampContracts(Decrease(c.target), Decrease(d.target), c.min, c.max);
    } else if LowLoss(r) {
      IncreaseAddsOrWraps(c.target);
      IncreaseAddsOrWraps(d.target);
      if c.max <= NoWrap {
        ClampContracts(Increase(c.target), Increase(d.target), c.min, c.max);
      }
    }
  }

  /** One call keeps the order and never widens the gap; an overuse report narrows it to at most
      max(6, gap - 1). */
  lemma StepContracts(c: Controller, d: Controller, call: Call)
    requires Ordered(c, d) && SetsUniformBounds(call)
    ensures Ordered(Step(c, call), Step(d, call))
    ensures Gap(Step(c, call), Step(d, call)) <= Gap(c, d)
    ensures IsOveruse(call) ==> Gap(Step(c, call), Step(d, call)) <= Max(6, Gap(c, d) - 1)
  {
    match call
    case Feedback(r) =>
      FeedbackContracts(c, d, r);
    case Bounds(min, max) =>
      ClampContracts(c.target, d.target, min, if max < min then min else max);
  }

  /** Contraction: two controllers with equal bounds, fed the same calls, keep their order and never widen
      their gap; after k overuse reports among any others it is at most max(6, gap0 - k). */
  lemma {:induction false} ControllersConverge(c: Controller, d: Controller, calls: seq<Call>)
    requires Ordered(c, d)
    requires forall i :: 0 <= i < |calls| ==> SetsUniformBounds(calls[i])
    ensures Ordered(Run(c, calls), Run(d, calls))
    ensures 0 <= Gap(Run(c, calls), Run(d, calls)) <= Gap(c, d)
    ensures Gap(Run(c, calls), Run(d, calls)) <= Max(6, Gap(c, d) - Overuses(calls))
  {
    hide Step, IsOveruse, SetsUniformBounds;
    if calls != [] {
      var before := calls[..|calls| - 1];
      ControllersConverge(c, d, before);
      StepContracts(Run(c, before), Run(d, before), Last(calls));
    }
  }

  /** Six is the right constant: truncation can keep two targets six apart through a decrease. */
  lemma SixCanStay()
    ensures Decrease(20) as int - Decrease(14) as int == 20 - 14
  {
  }

  /** Every report keeps the order of every two targets within the bounds. */
  ghost predicate KeepsOrder(min: uint32, max: uint32) {
    forall x: uint32, y: uint32, r: Report :: min <= x <= y <= max ==>
      OnFeedback(Controller(min, max, x), r).target <= OnFeedback(Controller(min, max, y), r).target
  }

  /** When only some targets wrap, the step takes the last that does not to the maximum and the next to the
      minimum. */
  lemma StraddlingBreaksOrder(min: uint32, max: uint32)
    requires min <= NoWrap < max
    ensures var r := Report(0, 1, 0);
      && OnFeedback(Controller(min, max, NoWrap), r).target == max
      && OnFeedback(Controller(min, max, NoWrap + 1), r).target == min
  {
    IncreaseAddsOrWraps(NoWrap);
    IncreaseAddsOrWraps(NoWrap + 1);
  }

  /** The bounds under which order is kept: exactly those whose targets all wrap or none does. In between, the
      32-bit step loses it. */
  lemma OrderIsKeptIff(min: uint32, max: uint32)
    requires min <= max
    ensures KeepsOrder(min, max) <==> WrapsAllOrNone(min, max)
  {
    if WrapsAllOrNone(min, max) {
      forall x: uint32, y: uint32, r: Report | min <= x <= y <= max
        ensures OnFeedback(Controller(min, max, x), r).target <= OnFeedback(Controller(min, max, y), r).target
      {
        FeedbackContracts(Controller(min, max, x), Controller(min, max, y), r);
      }
    } else {
      StraddlingBreaksOrder(min, max);
    }
  }

  // ----- how fast targets fall and rise -----

  /** A good report adds 500 up to the maximum, exactly when 32 bits can hold the sum or there is no room
      between the bounds anyway. */
  lemma GoodReportRaises(c: Controller, r: Report)
    requires InRange(c) && Good(r)
    ensures OnFeedback(c, r).target as int == Min(c.target as int + AdditiveIncreaseKbps, c.max as int)
       <==> c.target as int + AdditiveIncreaseKbps < TwoTo32 || c.min == c.max
  {
  }

  /** ceil((max - target) / 500) */
  function ReportsToMax(c: Controller): nat
    requires InRange(c)
  {
    (c.max as int - c.target as int + AdditiveIncreaseKbps - 1) / AdditiveIncreaseKbps
  }

  predicate AllGood(calls: seq<Call>) {
    forall i :: 0 <= i < |calls| ==> calls[i].Feedback? && Good(calls[i].report)
  }

  /** What one good report does. */
  lemma GoodStep(c: Controller, r: Report)
    requires InRange(c) && Good(r)
    ensures OnFeedback(c, r).min == c.min && OnFeedback(c, r).max == c.max
    ensures OnFeedback(c, r).target as int ==
      if c.target as int + AdditiveIncreaseKbps < TwoTo32
      then Min(c.target as int + AdditiveIncreaseKbps, c.max as int)
      else Max(c.target as int + AdditiveIncreaseKbps - TwoTo32, c.min as int)
  {
    IncreaseAddsOrWraps(c.target);
  }

  /** As long as good reports have not reached the maximum none of them wraps: each has added 500. */
  lemma {:induction false} GoodReportsClimb(c: Controller, calls: seq<Call>)
    requires InRange(c) && AllGood(calls)
    requires calls == [] || c.target as int + AdditiveIncreaseKbps * |calls| < c.max as int
    ensures Run(c, calls) == c.(target := c.target as int + AdditiveIncreaseKbps * |calls|)
  {
    hide OnFeedback, Good;
    if calls != [] {
      var before := calls[..|calls| - 1];
      GoodReportsClimb(c, before);
      ClimbStep(c, |before|, Last(calls).report);
    }
  }

  lemma ClimbStep(c: Controller, k: nat, r: Report)
    requires InRange(c) && Good(r) && c.target as int + AdditiveIncreaseKbps * (k + 1) < c.max as int
    ensures OnFeedback(c.(target := c.target as int + AdditiveIncreaseKbps * k), r)
         == c.(target := c.target as int + AdditiveIncreaseKbps * (k + 1))
  {
    GoodStep(c.(target := c.target as int + AdditiveIncreaseKbps * k), r);
  }

  /** Good reports in a row, for every bounds: fewer than ceil((max - target) / 500) of them leave the target below
      the maximum; that many reach it exactly when the last step does not wrap 32 bits or there is no room between
      the bounds; and with no wrap possible it stays there. */
  lemma GoodReportsReachMax(c: Controller, calls: seq<Call>)
    requires InRange(c) && AllGood(calls)
    ensures |calls| < ReportsToMax(c) ==>
      Run(c, calls).target as int == c.target as int + AdditiveIncreaseKbps * |calls| < c.max as int
    ensures |calls| == ReportsToMax(c) ==>
      (Run(c, calls).target == c.max <==>
        || calls == [] || c.min == c.max
        || c.target as int + AdditiveIncreaseKbps * |calls| < TwoTo32)
    ensures |calls| >= ReportsToMax(c) && c.max <= NoWrap ==> Run(c, calls).target == c.max
  {
    hide Good, OnFeedback, Increase;
    var n: int := ReportsToMax(c);
    assert AdditiveIncreaseKbps * (n - 1) < c.max as int - c.target as int <= AdditiveIncreaseKbps * n;
    if |calls| < n {
      assert AdditiveIncreaseKbps * |calls| <= AdditiveIncreaseKbps * (n - 1);
      GoodReportsClimb(c, calls);
    } else if |calls| == n && calls != [] {
      var before := calls[..n - 1];
      GoodReportsClimb(c, before);
      GoodStep(Run(c, before), Last(calls).report);
    }
    if c.max <= NoWrap {
      GoodReportsSaturate(c, calls);
    }
  }

  /** With no wrap possible, k good reports add 500 k up to the maximum. */
  lemma {:induction false} GoodReportsSaturate(c: Controller, calls: seq<Call>)
    requires InRange(c) && c.max <= NoWrap && AllGood(calls)
    ensures Run(c, calls)
         == c.(target := Min(c.target as int + AdditiveIncreaseKbps * |calls|, c.max as int))
  {
    hide OnFeedback, Good, Increase;
    if calls != [] {
      GoodReportsSaturate(c, calls[..|calls| - 1]);
      GoodStep(Run(c, calls[..|calls| - 1]), Last(calls).report);
    }
  }

  /** start * (17/20)^k */
  function Decayed(start: real, k: nat): real {
    if k == 0 then start else 17.0 / 20.0 * Decayed(start, k - 1)
  }

  lemma {:induction false} DecayIsMonotone(x: real, y: real, k: nat)
    requires x <= y
    ensures Decayed(x, k) <= Decayed(y, k)
  {
    if k > 0 {
      DecayIsMonotone(x, y, k - 1);
    }
  }

  lemma DecreaseIsDecay(x: uint32, bound: real)
    requires x as real <= bound
    ensures Decrease(x) as real <= 17.0 / 20.0 * bound
  {
    assert 20 * Decrease(x) as int <= 17 * x as int;
    assert 20.0 * Decrease(x) as real <= 17.0 * x as real;
  }

  /** k overuse reports in a row leave the target at the minimum or at most target * (17/20)^k. */
  lemma {:induction false} OveruseDecaysFrom(c: Controller, calls: seq<Call>)
    requires InRange(c)
    requires forall i :: 0 <= i < |calls| ==> IsOveruse(calls[i])
    ensures Run(c, calls).min == c.min && Run(c, calls).max == c.max && InRange(Run(c, calls))
    ensures Run(c, calls).target == c.min
         || Run(c, calls).target as real <= Decayed(c.target as real, |calls|)
  {
    if calls != [] {
      var before := calls[..|calls| - 1];
      OveruseDecaysFrom(c, before);
      OveruseStep(Run(c, before), Last(calls).report);
      if Run(c, before).target != c.min {
        DecreaseIsDecay(Run(c, before).target, Decayed(c.target as real, |before|));
      }
    }
  }

  lemma OveruseStep(c: Controller, r: Report)
    requires InRange(c) && Overuse(r)
    ensures OnFeedback(c, r) == c.(target := if Decrease(c.target) < c.min then c.min else Decrease(c.target))
    ensures c.target == c.min ==> OnFeedback(c, r) == c
    ensures InRange(OnFeedback(c, r))
  {
  }

  /** k overuse reports in a row leave the target at most max(min, max * (17/20)^k). */
  lemma OveruseDecaysGeometrically(c: Controller, calls: seq<Call>)
    requires InRange(c)
    requires forall i :: 0 <= i < |calls| ==> IsOveruse(calls[i])
    ensures Run(c, calls).target == c.min || Run(c, calls).target as real <= Decayed(c.max as real, |calls|)
  {
    OveruseDecaysFrom(c, calls);
    DecayIsMonotone(c.target as real, c.max as real, |calls|);
  }

  class StubCongestionController {
    var minKbps: uint32
    var maxKbps: uint32
    var targetKbps: uint32

    function Abs(): Controller
      reads this
    {
      Controller(minKbps, maxKbps, targetKbps)
    }

    predicate Valid()
      reads this
    {
      InRange(Abs())
    }

    constructor ()
      ensures Abs() == InitialController && Valid()
    {
      minKbps, maxKbps, targetKbps := 500, 50000, 8000;
    }

    method OnFeedbackReport(r: Report)
      requires Valid()
      modifies this`targetKbps
      ensures Valid() && Abs() == OnFeedback(old(Abs()), r)
    {
      if Overuse(r) {
        targetKbps := targetKbps as int * 17 / 20;
      } else if LowLoss(r) {
        targetKbps := (targetKbps as int + AdditiveIncreaseKbps) % TwoTo32;
      }
      targetKbps := Clamp(targetKbps, minKbps, maxKbps);
    }

    method SetBitrateBounds(min: uint32, max: uint32)
      modifies this
      ensures Valid() && Abs() == SetBounds(old(Abs()), min, max)
    {
      minKbps := min;
      maxKbps := if max < min then min else max;
      targetKbps := Clamp(targetKbps, minKbps, maxKbps);
    }

    /** A controller driven through any finite sequence of calls ends in the state the runs above speak of. */
    method Serve(calls: seq<Call>)
      requires Valid()
      modifies this
      ensures Valid() && Abs() == Run(old(Abs()), calls)
    {
      for i := 0 to |calls|
        invariant Valid() && Abs() == Run(old(Abs()), calls[..i])
      {
        assert calls[..i + 1][..i] == calls[..i];
        match calls[i] {
          case Feedback(r) => OnFeedbackReport(r);
          case Bounds(min, max) => SetBitrateBounds(min, max);
        }
      }
      assert calls[..|calls|] == calls;
    }
  }
}
