/** The bandwidth estimate: cut by congestion, raised step by step, halved when reports stop coming. */
module Bandwidth {
  const MIN_BTL := 12500
  const PROBE_EXTRA := 2

  /** A report from the other side, with what the sender knows about itself. Ratios are fractions. */
  datatype Report = Report(p50Ms: nat, late: real, loss: real, ce: real, limited: bool, overload: bool,
                           emptying: bool, received: real)

  datatype State = State(btl: nat, seed: nat, propUs: nat, delay: real, step: nat, extra: nat, congested: bool,
                         lastCut: real, calibrated: bool, stalled: bool)

  function Greater(a: nat, b: nat): nat { if a > b then a else b }

  function Least(a: real, b: real): real { if a < b then a else b }

  function Most(a: real, b: real): real { if a > b then a else b }

  /** A product cut to a whole number of bytes. */
  function Scaled(btl: nat, factor: real): nat
    requires factor >= 0.0
  {
    (btl as real * factor).Floor
  }

  function Fresh(initial: nat): State {
    var btl := Greater(if initial == 0 then 1 else initial, MIN_BTL);
    State(btl, btl, 0, 0.0, 0, 0, false, 1.0, false, false)
  }

  // ---------- The three signals ----------

  function PropUs(s: State, r: Report): nat {
    if s.propUs == 0 || r.p50Ms * 1000 < s.propUs then r.p50Ms * 1000 else s.propUs
  }

  /** Queueing delay in milliseconds, smoothed. */
  function Delay(s: State, r: Report): real {
    var p50, prop := r.p50Ms * 1000, PropUs(s, r);
    0.7 * s.delay + 0.3 * (if p50 > prop then (p50 - prop) as real / 1000.0 else 0.0)
  }

  predicate Congested(s: State, r: Report) {
    || (Delay(s, r) > 20.0 && !r.limited)
    || (!r.limited && (r.late > 0.02 || r.loss > 0.02))
    || r.ce > 0.01
  }

  predicate Recovered(s: State, r: Report) {
    Delay(s, r) < 10.0 && r.late < 0.005 && r.loss < 0.005 && !r.limited
  }

  function CutFactor(r: Report): (f: real)
    ensures 0.5 <= f <= 0.9
  {
    var strength := if r.limited then r.ce else Most(Most(r.late, r.loss), r.ce);
    if strength >= 0.50 then 0.50
    else if strength >= 0.20 then 0.65
    else if strength >= 0.05 then 0.75
    else 0.90
  }

  /** Heavier congestion cuts at least as much; the cut halves exactly when something reaches one half, and takes a
      tenth exactly when all stays below a twentieth. */
  lemma HeavierCutsMore(r: Report, q: Report)
    requires r.limited == q.limited && r.late <= q.late && r.loss <= q.loss && r.ce <= q.ce
    ensures CutFactor(q) <= CutFactor(r)
    ensures CutFactor(r) == 0.5 <==> r.ce >= 0.5 || (!r.limited && (r.late >= 0.5 || r.loss >= 0.5))
    ensures CutFactor(r) <= 0.65 <==> r.ce >= 0.2 || (!r.limited && (r.late >= 0.2 || r.loss >= 0.2))
    ensures CutFactor(r) == 0.9 <==> r.ce < 0.05 && (r.limited || (r.late < 0.05 && r.loss < 0.05))
    ensures CutFactor(r) in {0.5, 0.65, 0.75, 0.9}
  {}

  /** What a raise may reach: the seed, and what the other side receives and a fifth more, but never less
      than the estimate held. */
  function Ceiling(s: State, r: Report): real {
    if r.received > 0.0 && !r.limited then Least(s.seed as real, Most(s.btl as real, r.received * 1.2))
    else s.seed as real
  }

  function Raised(s: State, r: Report): nat
    requires Ceiling(s, r) >= 0.0
  {
    Greater(Least(s.btl as real * 1.5, Ceiling(s, r)).Floor, MIN_BTL)
  }

  predicate Recovers(s: State, r: Report) {
    !Congested(s, r) && !r.emptying && (r.limited || Recovered(s, r))
  }

  predicate Cuts(s: State, r: Report) {
    Congested(s, r) && !r.emptying && r.overload
  }

  lemma CeilingPositive(s: State, r: Report)
    ensures Ceiling(s, r) >= 0.0
  {}

  function OnReport(s: State, r: Report): State {
    var heard := s.(stalled := false, propUs := PropUs(s, r), delay := Delay(s, r), congested := Congested(s, r));
    CeilingPositive(s, r);
    if Cuts(s, r) then
      heard.(btl := Greater(Scaled(s.btl, CutFactor(r)), MIN_BTL), step := 0, extra := 0,
             lastCut := if CutFactor(r) <= 0.80 then CutFactor(r) else s.lastCut)
    else if Recovers(s, r) then
      if s.step == 0 then heard.(btl := Raised(s, r), extra := if r.ce < 0.01 then PROBE_EXTRA else 0, step := 1)
      else if s.step == 1 then heard.(btl := Raised(s, r), extra := 0, step := 2)
      else heard.(step := 0)
    else heard
  }

  function OnTimeout(s: State): State {
    if s.stalled then s
    else s.(stalled := true, btl := Greater(Scaled(s.btl, 0.5), MIN_BTL), step := 0, extra := 0)
  }

  /** The first measured capacity, in bits per second, caps the estimate, without a lower limit. */
  function OnProbe(s: State, bps: nat): State {
    if s.calibrated || bps == 0 then s
    else s.(calibrated := true, btl := var cap := Greater(bps / 8, 1); if s.btl > cap then cap else s.btl)
  }

  datatype Event = Heard(report: Report) | TimedOut | Probed(bps: nat)

  function Step(s: State, e: Event): State {
    match e
    case Heard(r) => OnReport(s, r)
    case TimedOut => OnTimeout(s)
    case Probed(bps) => OnProbe(s, bps)
  }

  function Run(s: State, events: seq<Event>): State {
    if events == [] then s else Step(Run(s, events[..|events| - 1]), events[|events| - 1])
  }

  // ---------- The queueing delay ----------

  function Repeated(r: Report, n: nat): seq<Event> { seq(n, _ => Heard(r)) }

  function PowerOf7(n: nat): real { if n == 0 then 1.0 else 0.7 * PowerOf7(n - 1) }

  /** What the report says beyond the shortest way, in milliseconds. */
  function Excess(s: State, r: Report): real { (r.p50Ms * 1000 - s.propUs) as real / 1000.0 }

  /** Under a delay that stays, the smoothed delay closes in on it by three tenths a report. */
  lemma {:induction false} DelayCloses(s: State, r: Report, n: nat)
    requires 0 < s.propUs < r.p50Ms * 1000 && s.delay == 0.0
    ensures var t := Run(s, Repeated(r, n));
            t.propUs == s.propUs && t.delay == Excess(s, r) * (1.0 - PowerOf7(n))
  {
    hide OnReport, Delay, PropUs, Excess;
    if n == 0 {
      assert Repeated(r, n) == [];
      assert Excess(s, r) * (1.0 - 1.0) == 0.0;
    } else {
      DelayCloses(s, r, n - 1);
      RepeatedNext(s, r, n);
      var t := Run(s, Repeated(r, n - 1));
      HeardDelay(t, r);
      SameExcess(s, t, r);
      Closer(Excess(s, r), PowerOf7(n - 1));
    }
  }

  lemma RepeatedNext(s: State, r: Report, n: nat)
    requires n > 0
    ensures Run(s, Repeated(r, n)) == OnReport(Run(s, Repeated(r, n - 1)), r)
  {
    hide OnReport;
    assert Repeated(r, n)[..n - 1] == Repeated(r, n - 1) && Repeated(r, n)[n - 1] == Heard(r);
  }

  lemma SameExcess(s: State, t: State, r: Report)
    requires t.propUs == s.propUs
    ensures Excess(t, r) == Excess(s, r)
  {}

  lemma HeardDelay(s: State, r: Report)
    requires 0 < s.propUs < r.p50Ms * 1000
    ensures OnReport(s, r).propUs == s.propUs && OnReport(s, r).delay == 0.7 * s.delay + 0.3 * Excess(s, r)
  {}

  lemma Closer(x: real, p: real)
    ensures 0.7 * (x * (1.0 - p)) + 0.3 * x == x * (1.0 - 0.7 * p)
  {}

  /** So a link that only queues, by a steady excess, counts as congested after n reports exactly when that excess
      times 1 - 0.7^n exceeds twenty milliseconds. */
  lemma SteadyDelayCongestsIff(s: State, r: Report, n: nat)
    requires 0 < s.propUs < r.p50Ms * 1000 && s.delay == 0.0 && n > 0
    requires !r.limited && r.late <= 0.02 && r.loss <= 0.02 && r.ce <= 0.01
    ensures Run(s, Repeated(r, n)).congested <==> Excess(s, r) * (1.0 - PowerOf7(n)) > 20.0
  {
    hide OnReport, PowerOf7, Excess;
    DelayCloses(s, r, n);
    RepeatedNext(s, r, n);
    HeardCongested(Run(s, Repeated(r, n - 1)), r);
  }

  lemma HeardCongested(s: State, r: Report)
    requires !r.limited && r.late <= 0.02 && r.loss <= 0.02 && r.ce <= 0.01
    ensures OnReport(s, r).congested <==> OnReport(s, r).delay > 20.0
  {}

  // ---------- One event ----------

  lemma ScaledBelow(btl: nat, factor: real)
    requires 0.0 <= factor <= 0.9
    ensures Scaled(btl, factor) <= btl && (btl > 0 ==> Scaled(btl, factor) < btl)
  {
    assert btl as real * factor <= btl as real * 0.9;
  }

  lemma RaisedBounds(s: State, r: Report)
    requires s.btl <= s.seed && MIN_BTL <= s.seed
    ensures Ceiling(s, r) >= 0.0 && s.btl <= Raised(s, r) <= s.seed && MIN_BTL <= Raised(s, r)
  {
    var c := Least(s.btl as real * 1.5, Ceiling(s, r));
    assert s.btl as real <= c <= s.seed as real;
  }

  /** A cut report lowers the estimate exactly when it is above the minimum, and raises it exactly when a
      low calibration had put it below. */
  lemma CutMoves(s: State, r: Report)
    requires Cuts(s, r)
    ensures OnReport(s, r).btl < s.btl <==> s.btl > MIN_BTL
    ensures OnReport(s, r).btl > s.btl <==> s.btl < MIN_BTL
    ensures OnReport(s, r).btl >= Scaled(s.btl, 0.5)
  {
    ScaledBelow(s.btl, CutFactor(r));
    assert s.btl as real * 0.5 <= s.btl as real * CutFactor(r);
  }

  /** While the queues are being emptied a report moves the smoothed signals and nothing else. */
  lemma EmptyingFreezes(s: State, r: Report)
    requires r.emptying
    ensures var t := OnReport(s, r);
            t == s.(stalled := t.stalled, propUs := t.propUs, delay := t.delay, congested := t.congested)
  {}

  /** A recovery step never lowers the estimate. */
  lemma RecoveryNeverLowers(s: State, r: Report)
    requires s.btl <= s.seed && MIN_BTL <= s.seed && !Cuts(s, r)
    ensures OnReport(s, r).btl >= s.btl
    ensures !Recovers(s, r) ==> OnReport(s, r).btl == s.btl
  {
    RaisedBounds(s, r);
  }

  // ---------- Runs ----------

  /** A probe below 100 kbit/s is the only thing that takes the estimate below its minimum. */
  predicate LowProbe(e: Event) {
    e.Probed? && 0 < e.bps < 8 * MIN_BTL
  }

  ghost predicate Bounded(s: State) {
    s.btl <= s.seed && MIN_BTL <= s.seed
  }

  lemma StepBounded(s: State, e: Event)
    requires Bounded(s)
    ensures Bounded(Step(s, e)) && Step(s, e).seed == s.seed
    ensures MIN_BTL <= s.btl && !LowProbe(e) ==> MIN_BTL <= Step(s, e).btl
  {
    match e
    case Heard(r) =>
      RaisedBounds(s, r);
      ScaledBelow(s.btl, CutFactor(r));
    case TimedOut => ScaledBelow(s.btl, 0.5);
    case Probed(bps) =>
  }

  /** On every run the estimate never exceeds the seed, and stays at the minimum or above unless the one
      calibration was a low one. */
  lemma {:induction false} RunBounded(initial: nat, events: seq<Event>)
    ensures var t := Run(Fresh(initial), events);
            && Bounded(t) && t.seed == Greater(initial, MIN_BTL)
            && ((forall e :: e in events ==> !LowProbe(e)) ==> MIN_BTL <= t.btl)
  {
    if events != [] {
      var n := |events| - 1;
      RunBounded(initial, events[..n]);
      StepBounded(Run(Fresh(initial), events[..n]), events[n]);
      hide Step;
      assert forall e :: e in events[..n] ==> e in events;
    }
  }

  /** A first calibration takes the estimate below the minimum exactly when it measures less than that. */
  lemma LowProbeSinks(s: State, bps: nat)
    requires !s.calibrated && MIN_BTL <= s.btl
    ensures OnProbe(s, bps).btl < MIN_BTL <==> LowProbe(Probed(bps))
  {}

  /** After any events a measurement changes the estimate's state only if none came before: the first one counts. */
  lemma {:induction false} OneCalibration(s: State, events: seq<Event>)
    ensures Run(s, events).calibrated <==> s.calibrated || exists e :: e in events && e.Probed? && e.bps > 0
    ensures forall bps: nat :: OnProbe(Run(s, events), bps) != Run(s, events) <==>
              bps > 0 && !s.calibrated && forall e :: e in events ==> !(e.Probed? && e.bps > 0)
  {
    if events != [] {
      var n := |events| - 1;
      OneCalibration(s, events[..n]);
      assert events == events[..n] + [events[n]];
      StepCalibrated(Run(s, events[..n]), events[n]);
    }
    hide Step;
  }

  lemma StepCalibrated(s: State, e: Event)
    ensures Step(s, e).calibrated <==> s.calibrated || (e.Probed? && e.bps > 0)
  {
  }

  /** Between two reports the first timeout halves the estimate, and no other one changes anything, whatever
      measurements come between. */
  lemma HalvedOnce(s: State, events: seq<Event>)
    requires forall e :: e in events ==> !e.Heard?
    ensures var t := Run(s, events);
            Run(s, events + [TimedOut]) ==
            if s.stalled || TimedOut in events then t
            else t.(stalled := true, btl := Greater(Scaled(t.btl, 0.5), MIN_BTL), step := 0, extra := 0)
  {
    StalledIff(s, events);
    assert (events + [TimedOut])[..|events|] == events;
  }

  lemma {:induction false} StalledIff(s: State, events: seq<Event>)
    requires forall e :: e in events ==> !e.Heard?
    ensures Run(s, events).stalled <==> s.stalled || TimedOut in events
  {
    if events != [] {
      var n := |events| - 1;
      assert events == events[..n] + [events[n]];
      StalledIff(s, events[..n]);
      assert events[n] in events;
    }
  }

  // ---------- Recovery ----------

  /** Reports that let the estimate climb freely. */
  ghost predicate Clears(s: State, r: Report) {
    Recovers(s, r) && (r.received <= 0.0 || r.limited)
  }

  lemma ClearRaises(s: State, r: Report)
    requires Bounded(s) && Clears(s, r) && s.step < 2
    ensures var t := OnReport(s, r);
            && t.step == s.step + 1
            && t.btl == (if s.btl as real * 1.5 < s.seed as real
                         then Greater(Scaled(s.btl, 1.5), MIN_BTL) else s.seed)
  {}

  /** Two raises in three reports: each round multiplies the estimate by two and a quarter, but for the
      fractions of a byte, until it is back at the seed. */
  lemma RoundClimbs(s: State, a: Report, b: Report, c: Report)
    requires Bounded(s) && s.step == 0 && s.btl >= MIN_BTL
    requires Clears(s, a) && Clears(OnReport(s, a), b) && Clears(OnReport(OnReport(s, a), b), c)
    ensures var t := OnReport(OnReport(OnReport(s, a), b), c);
            && t.step == 0
            && (t.btl == s.seed || t.btl as real >= s.btl as real * 2.25 - 2.5)
  {
    var s1 := OnReport(s, a);
    var s2 := OnReport(s1, b);
    ClearRaises(s, a);
    StepBounded(s, Heard(a));
    ClearRaises(s1, b);
    hide OnReport, Clears, Bounded;
    LastOfRound(s2, c);
    assert Scaled(s.btl, 1.5) as real >= s.btl as real * 1.5 - 1.0;
    assert Scaled(s1.btl, 1.5) as real >= s1.btl as real * 1.5 - 1.0;
  }

  lemma LastOfRound(s: State, r: Report)
    requires Clears(s, r) && s.step == 2
    ensures OnReport(s, r).step == 0 && OnReport(s, r).btl == s.btl
  {}

  /** What a raise reaches depends on the estimate and the seed alone. */
  lemma SameCeiling(s: State, t: State, r: Report)
    requires s.btl == t.btl && s.seed == t.seed
    ensures Ceiling(s, r) == Ceiling(t, r) >= 0.0 && Raised(s, r) == Raised(t, r)
  {}

  // ---------- The estimator object ----------

  class Estimator {
    var btl: nat
    var seed: nat
    var propUs: nat
    var delay: real
    var step: nat
    var extra: nat
    var congested: bool
    var lastCut: real
    var calibrated: bool
    var stalled: bool

    function AsState(): State
      reads this
    {
      State(btl, seed, propUs, delay, step, extra, congested, lastCut, calibrated, stalled)
    }

    constructor (initial: nat)
      ensures AsState() == Fresh(initial)
    {
      btl := Greater(if initial == 0 then 1 else initial, MIN_BTL);
      seed := Greater(if initial == 0 then 1 else initial, MIN_BTL);
      propUs, delay, step, extra, congested, lastCut, calibrated, stalled := 0, 0.0, 0, 0, false, 1.0, false, false;
    }

    /** Takes the signals in and judges them. */
    method Sense(r: Report) returns (recovered: bool)
      modifies `stalled, `propUs, `delay, `congested
      ensures var s := old(AsState());
              && !stalled && propUs == PropUs(s, r) && delay == Delay(s, r) && congested == Congested(s, r)
              && recovered == Recovered(s, r)
    {
      stalled := false;
      var p50 := r.p50Ms * 1000;
      if propUs == 0 || p50 < propUs {
        propUs := p50;
      }
      var queued := if p50 > propUs then (p50 - propUs) as real / 1000.0 else 0.0;
      delay := 0.7 * delay + 0.3 * queued;
      congested := (delay > 20.0 && !r.limited) || (!r.limited && (r.late > 0.02 || r.loss > 0.02)) || r.ce > 0.01;
      recovered := delay < 10.0
        && (if r.limited then r.ce < 0.01 else r.late < 0.005 && r.loss < 0.005) && !r.limited;
    }

    method Hear(r: Report)
      modifies this
      ensures AsState() == OnReport(old(AsState()), r)
    {
      hide Congested, Recovered, Delay, PropUs, CutFactor, Scaled, Ceiling, Raised;
      ghost var s := AsState();
      var recovered := Sense(r);
      if congested {
        if r.emptying {
        } else if r.overload {
          var factor := CutFactor(r);
          btl := Greater(Scaled(btl, factor), MIN_BTL);
          if factor <= 0.80 {
            lastCut := factor;
          }
          step, extra := 0, 0;
        }
      } else if !r.emptying && (r.limited || recovered) {
        SameCeiling(s, AsState(), r);
        Raise(r);
      }
    }

    method Raise(r: Report)
      modifies `btl, `step, `extra
      ensures Ceiling(old(AsState()), r) >= 0.0
      ensures var s := old(AsState());
              && btl == (if s.step < 2 then Raised(s, r) else s.btl)
              && step == (if s.step < 2 then s.step + 1 else 0)
              && extra == (if s.step == 0 then (if r.ce < 0.01 then PROBE_EXTRA else 0)
                           else if s.step == 1 then 0 else s.extra)
    {
      CeilingPositive(AsState(), r);
      if step == 0 {
        btl := Greater(Least(btl as real * 1.5, Ceiling(AsState(), r)).Floor, MIN_BTL);
        extra := if r.ce < 0.01 then PROBE_EXTRA else 0;
        step := 1;
      } else if step == 1 {
        btl := Greater(Least(btl as real * 1.5, Ceiling(AsState(), r)).Floor, MIN_BTL);
        extra := 0;
        step := 2;
      } else {
        step := 0;
      }
    }

    method TimeOut()
      modifies this
      ensures AsState() == OnTimeout(old(AsState()))
    {
      if stalled {
        return;
      }
      stalled := true;
      btl := Greater(Scaled(btl, 0.5), MIN_BTL);
      step, extra := 0, 0;
    }

    method Calibrate(bps: nat)
      modifies this
      ensures AsState() == OnProbe(old(AsState()), bps)
    {
      if calibrated || bps == 0 {
        return;
      }
      calibrated := true;
      var cap := bps / 8;
      if cap == 0 {
        cap := 1;
      }
      if btl > cap {
        btl := cap;
      }
    }
  }
}
