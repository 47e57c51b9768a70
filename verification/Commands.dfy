/** Commands are handed over in order; a gap is waited for, then passed. */
module Commands {
  import Common
  import opened OrderedSets

  const MAX_WAIT_RTT := 3

  /** Times are in microseconds. */
  datatype View<P> = View(initialized: bool, next: nat, held: map<nat, P>, gapSince: int)

  function Waited(rttUs: nat): nat { MAX_WAIT_RTT * (if rttUs > 0 then rttUs else 10000) }

  /** Held numbers from the given one up to the first that is missing. */
  function RunEnd<P>(next: nat, held: map<nat, P>): (c: nat)
    ensures next <= c && forall k :: next <= k < c ==> k in held
  {
    FirstFree(next, held.Keys)
  }

  function Taken<P>(next: nat, held: map<nat, P>): seq<(nat, P)> {
    seq(RunEnd(next, held) - next, i requires 0 <= i < RunEnd(next, held) - next => (next + i, held[next + i]))
  }

  function Left<P>(next: nat, held: map<nat, P>): map<nat, P> {
    map k | k in held && !(next <= k < RunEnd(next, held)) :: held[k]
  }

  /** Hands over the held run at the cursor. */
  function Drained<P>(v: View<P>): View<P> {
    v.(next := RunEnd(v.next, v.held), held := Left(v.next, v.held))
  }

  /** A due gap is passed, and the run behind it handed over. */
  function Expired<P>(v: View<P>, rttUs: nat, now: int): (View<P>, seq<(nat, P)>) {
    if v.held == map[] || now - v.gapSince < Waited(rttUs) then (v, [])
    else
      var at := v.(next := Least(v.held.Keys));
      var after := Drained(at);
      (if after.held != map[] then after.(gapSince := now) else after, Taken(at.next, at.held))
  }

  function Handled<P>(v: View<P>, s: nat, payload: P, rttUs: nat, now: int): (View<P>, seq<(nat, P)>) {
    if s == 0 then (v, [])
    else
      var w := if v.initialized then v else v.(initialized := true, next := s);
      if s < w.next then (w, [])
      else if s == w.next then (Drained(w.(next := s + 1)), [(s, payload)] + Taken(s + 1, w.held))
      else
        var since := if w.held == map[] then now else w.gapSince;
        var held := if s in w.held then w.held else w.held[s := payload];
        Expired(w.(held := held, gapSince := since), rttUs, now)
  }

  // ---------- Runs ----------

  datatype Event<P> =
    | Arrives(seqNo: nat, payload: P, rttUs: nat, now: int)
    | Flushed(rttUs: nat, now: int)

  function Step<P>(v: View<P>, e: Event<P>): (View<P>, seq<(nat, P)>) {
    match e
    case Arrives(s, payload, rtt, now) => Handled(v, s, payload, rtt, now)
    case Flushed(rtt, now) => Expired(v, rtt, now)
  }

  function Start<P>(): View<P> { View(false, 0, map[], 0) }

  function Run<P>(events: seq<Event<P>>): View<P> {
    if events == [] then Start() else Step(Run(events[..|events| - 1]), events[|events| - 1]).0
  }

  function Delivered<P>(events: seq<Event<P>>): seq<(nat, P)> {
    if events == [] then []
    else Delivered(events[..|events| - 1]) + Step(Run(events[..|events| - 1]), events[|events| - 1]).1
  }

  ghost predicate CameWith<P>(events: seq<Event<P>>, s: nat, payload: P) {
    exists e :: e in events && e.Arrives? && e.seqNo == s && e.payload == payload
  }

  ghost predicate Rising<P>(log: seq<(nat, P)>) {
    forall i, j :: 0 <= i < j < |log| ==> log[i].0 < log[j].0
  }

  /** Everything held lies beyond the cursor, everything handed over before it, each with its own payload. */
  ghost predicate Ordered<P>(v: View<P>, log: seq<(nat, P)>, events: seq<Event<P>>) {
    && (!v.initialized ==> v.held == map[] && log == [])
    && (forall k :: k in v.held ==> v.next < k && CameWith(events, k, v.held[k]))
    && Rising(log)
    && (forall x :: x in log ==> x.0 < v.next && CameWith(events, x.0, x.1))
  }

  lemma TakenRises<P>(next: nat, held: map<nat, P>)
    ensures Rising(Taken(next, held))
    ensures forall x :: x in Taken(next, held) ==> next <= x.0 < RunEnd(next, held) && x.0 in held && held[x.0] == x.1
    ensures forall k :: k in Left(next, held) ==> k in held && Left(next, held)[k] == held[k] && k != RunEnd(next, held)
    ensures (forall k :: k in held ==> next <= k) ==> forall k :: k in Left(next, held) ==> RunEnd(next, held) < k
  {}

  lemma LogGrows<P>(log: seq<(nat, P)>, more: seq<(nat, P)>, next: nat)
    requires Rising(log) && Rising(more)
    requires (forall x :: x in log ==> x.0 < next) && (forall x :: x in more ==> next <= x.0)
    ensures Rising(log + more)
  {
    forall i, j | 0 <= i < j < |log + more| ensures (log + more)[i].0 < (log + more)[j].0 {
      if i < |log| <= j {
        assert log[i] in log && more[j - |log|] in more;
      }
    }
  }

  /** Taking a run at next, past what was handed over, keeps the order. */
  lemma TakingOrdered<P>(v: View<P>, log: seq<(nat, P)>, events: seq<Event<P>>, next: nat)
    requires v.initialized && Rising(log)
    requires forall x :: x in log ==> x.0 < next && CameWith(events, x.0, x.1)
    requires forall k :: k in v.held ==> next <= k && CameWith(events, k, v.held[k])
    ensures Ordered(Drained(v.(next := next)), log + Taken(next, v.held), events)
  {
    TakenRises(next, v.held);
    LogGrows(log, Taken(next, v.held), next);
    hide Taken, Left, RunEnd;
    forall x | x in log + Taken(next, v.held) ensures x.0 < RunEnd(next, v.held) && CameWith(events, x.0, x.1) {
      assert x in log || x in Taken(next, v.held);
    }
  }

  lemma ExpiryOrdered<P>(v: View<P>, log: seq<(nat, P)>, events: seq<Event<P>>, rttUs: nat, now: int)
    requires Ordered(v, log, events)
    ensures var (w, out) := Expired(v, rttUs, now); Ordered(w, log + out, events)
  {
    if v.held == map[] || now - v.gapSince < Waited(rttUs) {
      assert log + [] == log;
    } else {
      assert v.held.Keys != {};
      TakingOrdered(v, log, events, Least(v.held.Keys));
    }
  }

  lemma MoreEvents<P>(v: View<P>, log: seq<(nat, P)>, events: seq<Event<P>>, e: Event<P>)
    requires Ordered(v, log, events)
    ensures Ordered(v, log, events + [e])
  {
    forall s: nat, p: P | CameWith(events, s, p) ensures CameWith(events + [e], s, p) {
      var f :| f in events && f.Arrives? && f.seqNo == s && f.payload == p;
      assert f in events + [e];
    }
  }

  lemma ArrivalOrdered<P>(v: View<P>, log: seq<(nat, P)>, events: seq<Event<P>>, s: nat, payload: P, rttUs: nat,
      now: int)
    requires Ordered(v, log, events) && CameWith(events, s, payload)
    ensures var (w, out) := Handled(v, s, payload, rttUs, now); Ordered(w, log + out, events)
  {
    assert log + [] == log;
    hide Ordered, Expired, Drained, Taken;
    if s != 0 {
      var w := if v.initialized then v else v.(initialized := true, next := s);
      StartsOrdered(v, log, events, s);
      if s == w.next {
        NextOrdered(w, log, events, payload);
      } else if s > w.next {
        var since := if w.held == map[] then now else w.gapSince;
        var held := if s in w.held then w.held else w.held[s := payload];
        HeldOrdered(w, log, events, s, payload, since);
        ExpiryOrdered(w.(held := held, gapSince := since), log, events, rttUs, now);
      }
    }
  }

  /** The first number sets the cursor. */
  lemma StartsOrdered<P>(v: View<P>, log: seq<(nat, P)>, events: seq<Event<P>>, s: nat)
    requires Ordered(v, log, events)
    ensures var w := if v.initialized then v else v.(initialized := true, next := s); Ordered(w, log, events)
  {
    hide CameWith;
  }

  lemma NextOrdered<P>(v: View<P>, log: seq<(nat, P)>, events: seq<Event<P>>, payload: P)
    requires v.initialized && Ordered(v, log, events) && CameWith(events, v.next, payload)
    ensures Ordered(Drained(v.(next := v.next + 1)), log + ([(v.next, payload)] + Taken(v.next + 1, v.held)), events)
  {
    hide CameWith, Drained, Taken;
    LogGrows(log, [(v.next, payload)], v.next);
    assert forall x :: x in log + [(v.next, payload)] ==> x in log || x == (v.next, payload);
    TakingOrdered(v, log + [(v.next, payload)], events, v.next + 1);
    assert log + [(v.next, payload)] + Taken(v.next + 1, v.held) == log
        + ([(v.next, payload)] + Taken(v.next + 1, v.held));
  }

  lemma HeldOrdered<P>(v: View<P>, log: seq<(nat, P)>, events: seq<Event<P>>, s: nat, payload: P, since: int)
    requires v.initialized && Ordered(v, log, events) && CameWith(events, s, payload) && s > v.next
    ensures Ordered(v.(held := if s in v.held then v.held else v.held[s := payload], gapSince := since), log, events)
  {
    hide CameWith;
  }

  /** On every run the numbers handed over strictly rise, each with a payload it came with, and everything
      held lies beyond the cursor. */
  lemma {:induction false} RunOrdered<P>(events: seq<Event<P>>)
    ensures Ordered(Run(events), Delivered(events), events)
  {
    if events != [] {
      var n := |events| - 1;
      var before, e := events[..n], events[n];
      RunOrdered(before);
      MoreEvents(Run(before), Delivered(before), before, e);
      assert before + [e] == events;
      hide Ordered, Handled, Expired;
      match e
      case Arrives(s, payload, rtt, now) =>
        assert CameWith(events, s, payload) by { assert e in events; }
        ArrivalOrdered(Run(before), Delivered(before), events, s, payload, rtt, now);
      case Flushed(rtt, now) =>
        ExpiryOrdered(Run(before), Delivered(before), events, rtt, now);
    }
  }

  // ---------- Without expiry ----------

  /** The gap, if there is one, is not yet due. */
  predicate NotDue<P>(v: View<P>, rttUs: nat, now: int) {
    v.held == map[] || now - v.gapSince < Waited(rttUs)
  }

  /** The event passes no gap. */
  predicate Patient<P>(v: View<P>, e: Event<P>) {
    match e
    case Arrives(s, payload, rtt, now) =>
      s > v.next && v.initialized && v.held != map[] ==> now - v.gapSince < Waited(rtt)
    case Flushed(rtt, now) => NotDue(v, rtt, now)
  }

  ghost predicate PatientRun<P>(events: seq<Event<P>>) {
    events != [] ==>
      PatientRun(events[..|events| - 1]) && Patient(Run(events[..|events| - 1]), events[|events| - 1])
  }

  /** The numbers that have come, zero aside. */
  function Come<P>(events: seq<Event<P>>): set<nat> {
    if events == [] then {}
    else
      var e := events[|events| - 1];
      Come(events[..|events| - 1]) + if e.Arrives? && e.seqNo != 0 then {e.seqNo} else {}
  }

  /** The first number seen. */
  function First<P>(events: seq<Event<P>>): nat {
    if events == [] then 0
    else
      var f, e := First(events[..|events| - 1]), events[|events| - 1];
      if f == 0 && e.Arrives? then e.seqNo else f
  }

  function Numbers<P>(log: seq<(nat, P)>): seq<nat> {
    seq(|log|, i requires 0 <= i < |log| => log[i].0)
  }

  function Count(from: nat, to: nat): seq<nat>
    requires from <= to
  {
    seq(to - from, i requires 0 <= i < to - from => from + i)
  }

  /** What is held is what has come beyond the cursor, and all before it has been handed over in one run. */
  ghost predicate Contiguous<P>(v: View<P>, log: seq<(nat, P)>, come: set<nat>, first: nat) {
    if !v.initialized then first == 0 && come == {} && log == [] && v.held == map[]
    else && 0 < first < v.next && Numbers(log) == Count(first, v.next) && v.next !in come
         && (forall k: nat :: first <= k < v.next ==> k in come)
         && (forall k: nat :: v.next <= k ==> (k in come <==> k in v.held))
         && (forall k :: k in v.held ==> v.next < k)
  }

  lemma NumbersTaken<P>(log: seq<(nat, P)>, first: nat, next: nat, held: map<nat, P>)
    requires first <= next && Numbers(log) == Count(first, next)
    ensures Numbers(log + Taken(next, held)) == Count(first, RunEnd(next, held))
  {
    var all := log + Taken(next, held);
    assert |log| == |Numbers(log)| == next - first;
    forall i | 0 <= i < |all| ensures all[i].0 == first + i {
      if i < |log| {
        assert Numbers(log)[i] == Count(first, next)[i];
      }
    }
  }

  /** A number at the cursor is handed over, with the run behind it. */
  lemma NextContiguous<P>(v: View<P>, log: seq<(nat, P)>, come: set<nat>, first: nat, payload: P)
    requires v.initialized && Contiguous(v, log, come, first)
    ensures Contiguous(Drained(v.(next := v.next + 1)), log + ([(v.next, payload)] + Taken(v.next + 1, v.held)),
                       come + {v.next}, first)
  {
    hide Numbers, Count, Taken, Drained;
    var more := log + [(v.next, payload)];
    NumbersMore(log, first, v.next, payload);
    NumbersTaken(more, first, v.next + 1, v.held);
    assert more + Taken(v.next + 1, v.held) == log + ([(v.next, payload)] + Taken(v.next + 1, v.held));
    DrainedHeld(v, come);
    DrainedNext(v);
  }

  lemma NumbersMore<P>(log: seq<(nat, P)>, first: nat, next: nat, payload: P)
    requires first <= next && Numbers(log) == Count(first, next)
    ensures Numbers(log + [(next, payload)]) == Count(first, next + 1)
  {
    assert |log| == |Numbers(log)|;
    forall i | 0 <= i < |log| ensures log[i].0 == first + i {
      assert Numbers(log)[i] == Count(first, next)[i];
    }
  }

  lemma DrainedNext<P>(v: View<P>)
    ensures Drained(v.(next := v.next + 1)).next == RunEnd(v.next + 1, v.held)
    ensures Drained(v.(next := v.next + 1)).initialized == v.initialized
  {}

  lemma DrainedHeld<P>(v: View<P>, come: set<nat>)
    requires forall k: nat :: v.next <= k ==> (k in come <==> k in v.held)
    requires v.next !in come && forall k :: k in v.held ==> v.next < k
    ensures var w := Drained(v.(next := v.next + 1));
            && v.next < w.next && w.next !in come
            && (forall k: nat :: v.next < k < w.next ==> k in come)
            && (forall k: nat :: w.next <= k ==> (k in come <==> k in w.held))
            && (forall k :: k in w.held ==> w.next < k)
  {}

  lemma StepContiguous<P>(v: View<P>, log: seq<(nat, P)>, come: set<nat>, first: nat, e: Event<P>)
    requires Contiguous(v, log, come, first) && Patient(v, e)
    ensures var (w, out) := Step(v, e);
            var more := if e.Arrives? && e.seqNo != 0 then {e.seqNo} else {};
            Contiguous(w, log + out, come + more, if first == 0 && e.Arrives? then e.seqNo else first)
  {
    hide Contiguous, Drained, Taken;
    assert log + [] == log && come + {} == come;
    match e
    case Flushed(rtt, now) =>
    case Arrives(s, payload, rtt, now) =>
      ContiguousParts(v, log, come, first);
      if s == 0 {
      } else if !v.initialized {
        FirstContiguous(v, s, payload);
        assert log + ([(s, payload)] + Taken(s + 1, v.held)) == [(s, payload)] + Taken(s + 1, v.held);
        assert come + {s} == {s};
      } else if s < v.next {
        EarlierIgnored(v, log, come, first, s);
      } else if s == v.next {
        NextContiguous(v, log, come, first, payload);
      } else {
        var since := if v.held == map[] then now else v.gapSince;
        var held := if s in v.held then v.held else v.held[s := payload];
        HeldContiguous(v, log, come, first, s, held, since);
      }
  }

  lemma ContiguousParts<P>(v: View<P>, log: seq<(nat, P)>, come: set<nat>, first: nat)
    requires Contiguous(v, log, come, first)
    ensures !v.initialized ==> first == 0 && come == {} && log == [] && v.held == map[]
    ensures v.initialized ==> first > 0
  {}

  /** A number beyond the cursor is held. */
  lemma HeldContiguous<P>(v: View<P>, log: seq<(nat, P)>, come: set<nat>, first: nat, s: nat, held: map<nat, P>,
      since: int)
    requires v.initialized && Contiguous(v, log, come, first) && s > v.next
    requires held.Keys == v.held.Keys + {s}
    ensures Contiguous(v.(held := held, gapSince := since), log, come + {s}, first)
  {
    hide Numbers, Count;
  }

  lemma FirstContiguous<P>(v: View<P>, s: nat, payload: P)
    requires !v.initialized && v.held == map[] && s > 0
    ensures Contiguous(Drained(v.(initialized := true, next := s + 1)), [(s, payload)] + Taken(s + 1, v.held), {s}, s)
  {
    FirstFreeIs(s + 1, v.held.Keys, s + 1);
    assert Taken(s + 1, v.held) == [];
    assert [(s, payload)] + [] == [(s, payload)];
    assert Numbers([(s, payload)]) == Count(s, s + 1);
  }

  /** A number already handed over, or from before the first, changes nothing. */
  lemma EarlierIgnored<P>(v: View<P>, log: seq<(nat, P)>, come: set<nat>, first: nat, s: nat)
    requires v.initialized && Contiguous(v, log, come, first) && s < v.next
    ensures Contiguous(v, log, come + {s}, first)
  {}

  /** As long as no gap is passed, exactly the unbroken run from the first number seen has been handed over,
      up to the first number that has not come. */
  lemma {:induction false} PatientRunContiguous<P>(events: seq<Event<P>>)
    requires PatientRun(events)
    ensures Contiguous(Run(events), Delivered(events), Come(events), First(events))
  {
    if events != [] {
      var n := |events| - 1;
      PatientRunContiguous(events[..n]);
      hide Contiguous, Step, Patient;
      StepContiguous(Run(events[..n]), Delivered(events[..n]), Come(events[..n]), First(events[..n]), events[n]);
    }
  }

  lemma DeliveredUpToFirstGap<P>(events: seq<Event<P>>)
    requires PatientRun(events) && First(events) != 0
    ensures var end := FirstFree(First(events), Come(events));
            Numbers(Delivered(events)) == Count(First(events), end)
  {
    PatientRunContiguous(events);
    var v := Run(events);
    FirstFreeIs(First(events), Come(events), v.next);
  }

  // ---------- Expiry ----------

  /** A due expiry always hands something over: it strictly shrinks what is held and moves the cursor. */
  lemma DueExpiryShrinks<P>(v: View<P>, rttUs: nat, now: int)
    requires !NotDue(v, rttUs, now) && forall k :: k in v.held ==> v.next < k
    ensures var (w, out) := Expired(v, rttUs, now);
            && |w.held| < |v.held| && w.held.Keys < v.held.Keys && w.next > v.next
            && out != [] && out[0].0 == Least(v.held.Keys)
  {
    assert v.held.Keys != {};
    var at := Least(v.held.Keys);
    assert at in v.held && at in v.held.Keys;
    var (w, out) := Expired(v, rttUs, now);
    assert RunEnd(at, v.held) > at by {
      assert RunEnd(at, v.held) !in v.held.Keys;
    }
    assert w.held.Keys <= v.held.Keys - {at};
    Common.SubsetSize(w.held.Keys, v.held.Keys - {at});
    assert |v.held.Keys - {at}| == |v.held.Keys| - 1;
  }

  /** Nothing is given up before three round trips, or thirty milliseconds while none is known, have passed. */
  lemma DueIff<P>(v: View<P>, rttUs: nat, now: int)
    requires v.held != map[] && forall k :: k in v.held ==> v.next < k
    ensures Expired(v, rttUs, now) != (v, []) <==> now - v.gapSince >= if rttUs == 0 then 30000 else 3 * rttUs
  {
    assert NotDue(v, rttUs, now) <==> now - v.gapSince < if rttUs == 0 then 30000 else 3 * rttUs;
    if NotDue(v, rttUs, now) {
      hide Waited;
    } else {
      hide Expired, Waited, NotDue;
      DueExpiryShrinks(v, rttUs, now);
    }
  }

  // ---------- How long a gap is waited for ----------

  ghost predicate Ticking<P>(events: seq<Event<P>>) {
    forall i: nat, j: nat | i < j < |events| :: events[i].now <= events[j].now
  }

  /** The cursor stands before the same gap, with something held behind it. */
  predicate SameGap<P>(v: View<P>, w: View<P>) {
    v.held != map[] && w.held != map[] && v.next == w.next
  }

  /** When the gap that the cursor stands before showed. */
  function Shown<P>(events: seq<Event<P>>): int {
    if events == [] then 0
    else if SameGap(Run(events[..|events| - 1]), Run(events)) then Shown(events[..|events| - 1])
    else events[|events| - 1].now
  }

  /** It showed because an arrival filled the gap before it. */
  function Refilled<P>(events: seq<Event<P>>): bool {
    if events == [] then false
    else
      var before, e := Run(events[..|events| - 1]), events[|events| - 1];
      if SameGap(before, Run(events)) then Refilled(events[..|events| - 1])
      else e.Arrives? && before.held != map[] && e.seqNo == before.next
  }

  /** The wait is counted from when the gap showed, or, after a refill, from no later than that. */
  ghost predicate Counted<P>(v: View<P>, shown: int, refilled: bool, clock: int) {
    v.held != map[] ==> v.gapSince <= shown <= clock && (!refilled ==> v.gapSince == shown)
  }

  /** What one event does to the gap and its time. */
  lemma StepCounted<P>(v: View<P>, e: Event<P>, shown: int, refilled: bool, clock: int)
    requires Counted(v, shown, refilled, clock) && clock <= e.now
    requires forall k :: k in v.held ==> v.next < k
    requires !v.initialized ==> v.held == map[]
    ensures var w := Step(v, e).0;
            Counted(w, if SameGap(v, w) then shown else e.now,
                    if SameGap(v, w) then refilled else e.Arrives? && v.held != map[] && e.seqNo == v.next, e.now)
  {
    hide RunEnd, Taken, Left;
    match e
    case Flushed(rtt, now) => ExpiredCounted(v, shown, refilled, clock, rtt, now);
    case Arrives(s, payload, rtt, now) =>
      if s == v.next && v.initialized {
        if v.held == map[] {
          NothingLeft(s + 1, v.held);
        }
      } else if s > v.next && v.initialized {
        var held := if s in v.held then v.held else v.held[s := payload];
        if v.held == map[] {
          JustShown(v.(held := held, gapSince := now), rtt, now);
        } else {
          ExpiredCounted(v.(held := held), shown, refilled, clock, rtt, now);
        }
      } else if !v.initialized && s != 0 {
        NothingLeft(s + 1, v.held);
      }
  }

  lemma NothingLeft<P>(next: nat, held: map<nat, P>)
    requires held == map[]
    ensures Left(next, held) == map[]
  {
  }

  /** A gap that has just shown is not due. */
  lemma JustShown<P>(v: View<P>, rttUs: nat, now: int)
    requires v.gapSince == now
    ensures Expired(v, rttUs, now).0 == v
  {
  }

  lemma ExpiredCounted<P>(v: View<P>, shown: int, refilled: bool, clock: int, rttUs: nat, now: int)
    requires Counted(v, shown, refilled, clock) && clock <= now && forall k :: k in v.held ==> v.next < k
    ensures var w := Expired(v, rttUs, now).0;
            && Counted(w, if SameGap(v, w) then shown else now, SameGap(v, w) && refilled, now)
            && (NotDue(v, rttUs, now) ==> w == v)
            && (!NotDue(v, rttUs, now) ==> w.next > v.next)
  {
    hide Taken, Left;
    if !NotDue(v, rttUs, now) {
      assert v.held.Keys != {};
      assert Least(v.held.Keys) in v.held;
    }
  }

  lemma {:induction false} RunCounted<P>(events: seq<Event<P>>)
    requires Ticking(events)
    ensures events != [] ==> Counted(Run(events), Shown(events), Refilled(events), events[|events| - 1].now)
  {
    if events != [] {
      var n := |events| - 1;
      var before := events[..n];
      RunCounted(before);
      RunOrdered(before);
      var clock := if n > 0 then events[n - 1].now else events[n].now;
      hide Step, Ordered, CameWith;
      HeldBehind(before);
      StepCounted(Run(before), events[n], Shown(before), Refilled(before), clock);
    }
  }

  lemma HeldBehind<P>(events: seq<Event<P>>)
    ensures (forall k :: k in Run(events).held ==> Run(events).next < k)
    ensures !Run(events).initialized ==> Run(events).held == map[]
  {
    RunOrdered(events);
    hide Run, CameWith;
  }

  /** A flush passes the gap before it has waited three round-trip times since it showed. */
  ghost predicate PassesEarly<P>(events: seq<Event<P>>, rttUs: nat, now: int) {
    && events != [] && events[|events| - 1].now <= now
    && !NotDue(Run(events), rttUs, now) && now - Shown(events) < Waited(rttUs)
  }

  /** After any events, some flush may do that exactly when the wait is counted from before the gap showed; which it
      is not unless the gap showed because the one before it was filled. */
  lemma EarlyIff<P>(events: seq<Event<P>>)
    requires Ticking(events) && events != [] && Run(events).held != map[]
    ensures (exists rttUs: nat, now: int :: PassesEarly(events, rttUs, now)) <==> Run(events).gapSince < Shown(events)
    ensures !Refilled(events) ==> forall rttUs: nat, now: int :: !PassesEarly(events, rttUs, now)
  {
    RunCounted(events);
    hide Run, Shown, Refilled;
    var since, clock := Run(events).gapSince, events[|events| - 1].now;
    if since < Shown(events) {
      var rtt: nat := clock - since;
      assert PassesEarly(events, rtt, since + Waited(rtt));
    }
  }

  lemma RunNext<P>(events: seq<Event<P>>, e: Event<P>)
    ensures Run(events + [e]) == Step(Run(events), e).0
    ensures Shown(events + [e]) == if SameGap(Run(events), Run(events + [e])) then Shown(events) else e.now
  {
    assert (events + [e])[..|events|] == events;
  }

  /** With a round-trip time of 10 milliseconds, commands 1 and 3 at 0, 5 at 29 and 2 at 29.5: a flush at 30
      milliseconds passes number 4, missed for half a millisecond. */
  lemma EarlyExample<P>(p: P)
    ensures var events := [] + [Arrives(1, p, 10000, 0)] + [Arrives(3, p, 10000, 0)] + [Arrives(5, p, 10000, 29000)]
                          + [Arrives(2, p, 10000, 29500)];
            && Run(events).next == 4 && Run(events).held.Keys == {5} && Shown(events) == 29500
            && PassesEarly(events, 10000, 30000)
  {
    var e1, e3, e5, e2: Event<P> :=
      Arrives(1, p, 10000, 0), Arrives(3, p, 10000, 0), Arrives(5, p, 10000, 29000), Arrives(2, p, 10000, 29500);
    RunNext([], e1);
    RunNext([] + [e1], e3);
    RunNext([] + [e1] + [e3], e5);
    RunNext([] + [e1] + [e3] + [e5], e2);
    hide Run, Shown;
    FirstFreeIs(2, {}, 2);
    assert Step(Start(), e1).0 == View(true, 2, map[], 0);
    assert Step(View(true, 2, map[], 0), e3).0 == View(true, 2, map[3 := p], 0);
    assert Step(View(true, 2, map[3 := p], 0), e5).0 == View(true, 2, map[3 := p, 5 := p], 0);
    FirstFreeIs(3, {3, 5}, 4);
    assert map[3 := p, 5 := p].Keys == {3, 5};
    assert Left(3, map[3 := p, 5 := p]) == map[5 := p];
    assert Step(View(true, 2, map[3 := p, 5 := p], 0), e2).0 == View(true, 4, map[5 := p], 0);
  }

  // ---------- The channel of a peer ----------

  class CommandChannel<P> {
    var initialized: bool
    var next: nat
    var held: map<nat, P>
    var gapSince: int

    function AsView(): View<P>
      reads this
    {
      View(initialized, next, held, gapSince)
    }

    constructor ()
      ensures AsView() == Start()
    {
      initialized, next, held, gapSince := false, 0, map[], 0;
    }

    method Reset()
      modifies this
      ensures AsView() == Start()
    {
      initialized, next, held, gapSince := false, 0, map[], 0;
    }

    method Drain() returns (out: seq<(nat, P)>)
      modifies `next, `held
      ensures AsView() == Drained(old(AsView()))
      ensures out == Taken(old(next), old(held))
    {
      ghost var from, all := next, held;
      out := [];
      while next in held
        invariant from <= next <= RunEnd(from, all)
        invariant held == map k | k in all && !(from <= k < next) :: all[k]
        invariant |out| == next - from
        invariant forall i :: 0 <= i < |out| ==> from + i in all && out[i] == (from + i, all[from + i])
        decreases |held|
      {
        out := out + [(next, held[next])];
        assert next < RunEnd(from, all) by {
          assert RunEnd(from, all) !in all.Keys;
        }
        held := held - {next};
        next := next + 1;
      }
    }

    method Expire(rttUs: nat, now: int) returns (out: seq<(nat, P)>)
      modifies `next, `held, `gapSince
      ensures (AsView(), out) == Expired(old(AsView()), rttUs, now)
    {
      hide Taken, Left, RunEnd;
      if held == map[] {
        return [];
      }
      if now - gapSince < Waited(rttUs) {
        return [];
      }
      assert held.Keys != {};
      next := Least(held.Keys);
      out := Drain();
      if held != map[] {
        gapSince := now;
      }
    }

    method Handle(s: nat, payload: P, rttUs: nat, now: int) returns (out: seq<(nat, P)>)
      modifies this
      ensures (AsView(), out) == Handled(old(AsView()), s, payload, rttUs, now)
    {
      hide Taken, Left, RunEnd;
      if s == 0 {
        return [];
      }
      if !initialized {
        next := s;
        initialized := true;
      }
      if s < next {
        return [];
      }
      if s == next {
        next := next + 1;
        var run := Drain();
        out := [(s, payload)] + run;
      } else {
        if held == map[] {
          gapSince := now;
        }
        if s !in held {
          held := held[s := payload];
        }
        out := Expire(rttUs, now);
      }
    }
  }
}
