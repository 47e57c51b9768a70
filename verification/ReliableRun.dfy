/** Whole runs of a sender and a receiver that exchange numbered packets and reports over a network that
    loses, repeats, reorders and delays both. */
module ReliableRun {
  import opened OrderedSets
  import opened SequenceTracking
  import opened Retransmission

  datatype Message = Message(ack: nat, listed: seq<nat>)

  datatype Event<P> =
    | PacketSent(seqNo: nat, packet: P, now: int)
    | PacketArrives(seqNo: nat, channel: nat, now: int)
    | HeartbeatArrives(rttUs: nat)
    | ReportMade(now: int)
    | ReportArrives(index: nat, now: int)

  /** Both sides, every report made so far, and what has happened to each number: got holds those received since
      the first one tracked, skipped those the cursor was taken past, gaveUp those behind the cursor that were
      missing longer than the give-up time, sent the packets sent under each number, exhausted the numbers the sender
      dropped after the last resend.  The round-trip time is the one of the latest heartbeat, and a gap is late to the
      last report if found before its horizon.  The wire is every packet put on it, sent and sent again, in order. */
  datatype World<P> = World(
    view: View, first: nat, got: set<nat>, skipped: set<nat>, gaveUp: set<nat>, reports: seq<Message>,
    pending: map<nat, Pending<P>>, sent: map<nat, P>, exhausted: set<nat>, rttUs: nat, horizon: int,
    wire: seq<OnWire<P>>)

  function Init<P>(): World<P> {
    World(START, 0, {}, {}, {}, [], map[], map[], {}, 0, 0, [])
  }

  function Exhausted<P>(pending: map<nat, Pending<P>>): set<nat> {
    set s | s in pending && pending[s].retries >= MAX_RETRIES
  }

  function OnArrival<P>(w: World<P>, seqNo: nat, channel: nat, now: int): World<P> {
    w.(view := Arrived(w.view, seqNo, channel, now),
       first := if seqNo != 0 && !w.view.initialized then seqNo else w.first,
       got := if seqNo != 0 then w.got + {seqNo} else w.got)
  }

  /** The report made of a state. */
  function ReportOf(v: View, policy: Policy, intervalMs: nat, now: int): Message {
    var lost := LostList(v, policy, intervalMs, now);
    Message(Reported(v, policy, intervalMs, now).Ack(), lost[..ListedCount(|lost|)])
  }

  function OnReport<P>(w: World<P>, policy: Policy, intervalMs: nat, now: int): World<P> {
    var after := Reported(w.view, policy, intervalMs, now);
    var passed := Passable(w.view, policy, intervalMs, now);
    w.(view := after,
       skipped := w.skipped + Under(passed, after.next),
       gaveUp := w.gaveUp + Under(With(w.view, policy, intervalMs, now, GivenUp), w.view.next),
       reports := w.reports + [ReportOf(w.view, policy, intervalMs, now)],
       horizon := now - policy.LossThresholdUs())
  }

  function OnHandling<P>(w: World<P>, r: Message, now: int): World<P> {
    var lost := Numbers(r.listed);
    w.(pending := Handled(w.pending, r.ack, lost, now),
       exhausted := w.exhausted + Exhausted(w.pending),
       wire := w.wire + Resends(w.pending, Sorted(Wanted(w.pending, lost))))
  }

  function Step<P>(w: World<P>, e: Event<P>, policy: Policy, intervalMs: nat): World<P> {
    match e
    case PacketSent(s, packet, now) =>
      w.(pending := w.pending[s := Pending(packet, 0, now)], sent := w.sent[s := packet],
         wire := w.wire + [OnWire(s, packet)])
    case PacketArrives(s, channel, now) => OnArrival(w, s, channel, now)
    case HeartbeatArrives(rttUs) => w.(rttUs := rttUs)
    case ReportMade(now) => OnReport(w, policy.(rttUs := w.rttUs), intervalMs, now)
    case ReportArrives(i, now) => if i < |w.reports| then OnHandling(w, w.reports[i], now) else w
  }

  function After<P>(events: seq<Event<P>>, policy: Policy, intervalMs: nat): World<P> {
    if events == [] then Init()
    else Step(After(events[..|events| - 1], policy, intervalMs), events[|events| - 1], policy, intervalMs)
  }

  // ---------- Any mix of channels ----------

  /** The cursor is the least number from the first one on that was neither received nor skipped, and from
      the cursor on exactly the received numbers are held. */
  ghost predicate Cursor(first: nat, next: nat, held: set<nat>, got: set<nat>, skipped: set<nat>) {
    && 0 < first < next && first in got
    && next !in got && next !in skipped
    && (forall k: nat :: first <= k < next ==> k in got || k in skipped)
    && (forall k: nat :: next <= k ==> (k in held <==> k in got))
    && (forall k :: k in skipped ==> k < next)
  }

  ghost predicate Tracks<P>(w: World<P>) {
    && Sound(w.view)
    && (if w.view.initialized then Cursor(w.first, w.view.next, w.view.held, w.got, w.skipped)
        else w.got == {} && w.skipped == {} && w.view.next == 0)
  }

  /** A received number, or numbers given up, take the cursor to the next free one. */
  lemma CursorMoves(first: nat, next: nat, held: set<nat>, got: set<nat>, skipped: set<nat>, come: set<nat>,
      passed: set<nat>)
    requires Cursor(first, next, held, got, skipped)
    ensures next <= FirstFree(next, held + come + passed)
    ensures var c := FirstFree(next, held + come + passed);
            Cursor(first, c, Outside(held + come, next, c), got + come,
                   skipped + Under(passed, c))
  {
    var c := FirstFree(next, held + come + passed);
    forall k: nat | first <= k < c
      ensures k in got + come || k in skipped + Under(passed, c)
    {
      assert next <= k ==> k in held + come + passed;
    }
  }

  lemma ArrivalTracks<P>(w: World<P>, seqNo: nat, channel: nat, now: int)
    requires Tracks(w)
    ensures Tracks(OnArrival(w, seqNo, channel, now))
    ensures w.view.next <= OnArrival(w, seqNo, channel, now).view.next
  {
    if seqNo != 0 && w.view.initialized {
      CursorMoves(w.first, w.view.next, w.view.held, w.got, w.skipped, {seqNo}, {});
      assert w.view.held + {seqNo} + {} == w.view.held + {seqNo};
      assert w.skipped + Under({}, OnArrival(w, seqNo, channel, now).view.next) == w.skipped;
    }
  }

  lemma ReportTracks<P>(w: World<P>, policy: Policy, intervalMs: nat, now: int)
    requires Tracks(w)
    ensures Tracks(OnReport(w, policy, intervalMs, now))
    ensures w.view.next <= OnReport(w, policy, intervalMs, now).view.next
  {
    var v := w.view;
    ReportedSound(v, policy, intervalMs, now);
    ReportedCursor(v, policy, intervalMs, now);
    NoneBeforeFirst(v, policy, intervalMs, now);
    hide Reported, ReportOf, Passable, With, LostList, Sound, Cursor, FirstFree, Under, Outside, Policy.LossThresholdUs;
    if v.initialized {
      var passed := Passable(v, policy, intervalMs, now);
      GapsPassed(w.first, v.next, v.held, w.got, w.skipped, passed);
    }
  }

  /** The cursor moves past gaps alone. */
  lemma GapsPassed(first: nat, next: nat, held: set<nat>, got: set<nat>, skipped: set<nat>, passed: set<nat>)
    requires Cursor(first, next, held, got, skipped)
    ensures next <= FirstFree(next, held + passed)
    ensures var c := FirstFree(next, held + passed);
            Cursor(first, c, Outside(held, next, c), got, skipped + Under(passed, c))
  {
    assert held + {} == held && got + {} == got;
    hide Cursor, Outside, Under, FirstFree;
    CursorMoves(first, next, held, got, skipped, {}, passed);
  }

  lemma NoneBeforeFirst(v: View, policy: Policy, intervalMs: nat, now: int)
    requires Sound(v)
    ensures !v.initialized ==> Passable(v, policy, intervalMs, now) == {}
  {
  }

  // ---------- Every channel reliable ----------

  /** Numbers are fresh, data travels on channels that retransmit, no report meets more gaps than it can carry,
      and between two reports the loss threshold grows no more than the clock. */
  ghost predicate Legal<P>(w: World<P>, e: Event<P>, policy: Policy, intervalMs: nat) {
    && (e.PacketSent? ==> e.seqNo > 0 && e.seqNo !in w.sent)
    && (e.PacketArrives? ==> policy.Reliable(e.channel))
    && (e.ReportMade? ==>
          && WithinCaps(w.view, policy.(rttUs := w.rttUs), intervalMs, e.now)
          && KeepsUp(w, policy.(rttUs := w.rttUs), intervalMs, e.now))
  }

  function Shorter(a: int, b: int): int { if a < b then a else b }

  /** What was found before the horizon is late to a report made now, or is given up by it. */
  predicate Kept(horizon: int, policy: Policy, intervalMs: nat, now: int) {
    horizon <= now - Shorter(policy.LossThresholdUs(), GiveUpUs(intervalMs))
  }

  predicate KeepsUp<P>(w: World<P>, policy: Policy, intervalMs: nat, now: int) {
    w.reports == [] || Kept(w.horizon, policy, intervalMs, now)
  }

  ghost predicate WithinCaps(v: View, policy: Policy, intervalMs: nat, now: int) {
    && |Staying(v, policy, intervalMs, now)| <= MAX_MISSING
    && |With(v, policy, intervalMs, now, Overdue)| <= MAX_LISTED
  }

  ghost predicate AllReliable(v: View, policy: Policy) {
    forall g :: g in v.missing ==> policy.Reliable(v.ChannelOf(g))
  }

  ghost predicate Late(v: View, horizon: int, g: nat) {
    g in v.missing && v.missing[g] < horizon
  }

  /** A skipped number arrived, was given up, or was late to the last report. */
  ghost predicate Accounted<P>(w: World<P>, policy: Policy) {
    && AllReliable(w.view, policy)
    && (w.reports == [] ==> w.skipped == {})
    && (forall k :: k in w.skipped ==> k in w.got || k in w.gaveUp || Late(w.view, w.horizon, k))
  }

  ghost predicate Settles<P>(w: World<P>, r: Message, k: nat) {
    k in w.got || k in w.gaveUp || k in r.listed
  }

  /** What a report acknowledges was received, is listed, or was given up. */
  ghost predicate Honest<P>(w: World<P>, r: Message) {
    if w.view.initialized then forall k: nat :: w.first <= k <= r.ack ==> Settles(w, r, k)
    else r.ack == 0 && r.listed == []
  }

  ghost predicate ReportsHonest<P>(w: World<P>) {
    forall i :: 0 <= i < |w.reports| ==> Honest(w, w.reports[i])
  }

  /** A sent number the receiver tracks is still kept unless it arrived, was given up, or was resent in vain. */
  ghost predicate Safe<P>(w: World<P>) {
    && (forall k :: k in w.sent ==> 0 < k)
    && (forall k :: k in w.sent && (w.view.initialized ==> w.first <= k) ==>
          k in w.pending || k in w.got || k in w.gaveUp || k in w.exhausted)
  }

  ghost predicate Inv<P>(w: World<P>, policy: Policy) {
    Tracks(w) && Accounted(w, policy) && ReportsHonest(w) && Safe(w)
  }

  lemma ArrivalAccounted<P>(w: World<P>, policy: Policy, seqNo: nat, channel: nat, now: int)
    requires Tracks(w) && Accounted(w, policy)
    requires policy.Reliable(channel)
    ensures Accounted(OnArrival(w, seqNo, channel, now), policy)
  {
    hide FirstFree;
  }

  lemma ArrivalHonest<P>(w: World<P>, policy: Policy, seqNo: nat, channel: nat, now: int)
    requires Tracks(w) && ReportsHonest(w) && Safe(w)
    ensures ReportsHonest(OnArrival(w, seqNo, channel, now)) && Safe(OnArrival(w, seqNo, channel, now))
  {
    hide FirstFree, Cursor, Marked, Recolored;
    var x := OnArrival(w, seqNo, channel, now);
    assert x.reports == w.reports && w.got <= x.got && x.gaveUp == w.gaveUp;
    forall i | 0 <= i < |x.reports| ensures Honest(x, x.reports[i]) {
      assert Honest(w, w.reports[i]);
      if w.view.initialized {
        forall k: nat | x.first <= k <= x.reports[i].ack ensures Settles(x, x.reports[i], k) {
          assert Settles(w, w.reports[i], k);
        }
      }
    }
  }

  /** A reliable gap past the threshold is listed and stays, or is given up. */
  lemma LateGap(v: View, policy: Policy, intervalMs: nat, now: int, g: nat)
    requires Late(v, now - Shorter(policy.LossThresholdUs(), GiveUpUs(intervalMs)), g)
    requires policy.Reliable(v.ChannelOf(g))
    ensures g in With(v, policy, intervalMs, now, GivenUp) ||
            (g in With(v, policy, intervalMs, now, Overdue) && g in Staying(v, policy, intervalMs, now)
             && Late(v, now - policy.LossThresholdUs(), g))
  {
  }

  lemma PassableLate(v: View, policy: Policy, intervalMs: nat, now: int, g: nat)
    requires forall m :: m in v.missing ==> policy.Reliable(v.ChannelOf(m))
    requires g in Passable(v, policy, intervalMs, now)
    ensures Late(v, now - policy.LossThresholdUs(), g)
  {
  }

  /** A gap behind the cursor that is late enough is asked for and stays late, or is given up. */
  lemma LateSettled<P>(w: World<P>, policy: Policy, intervalMs: nat, now: int, k: nat)
    requires AllReliable(w.view, policy) && WithinCaps(w.view, policy, intervalMs, now) && k < w.view.next
    requires Late(w.view, now - Shorter(policy.LossThresholdUs(), GiveUpUs(intervalMs)), k)
    ensures var x := OnReport(w, policy, intervalMs, now);
            k in x.gaveUp || (k in With(w.view, policy, intervalMs, now, Overdue) && Late(x.view, x.horizon, k))
  {
    assert policy.Reliable(w.view.ChannelOf(k));
    LateGap(w.view, policy, intervalMs, now, k);
    hide Reported, LostList, With, Staying, Passable, Policy.Reliable, Policy.LossThresholdUs, View.ChannelOf;
    ReportedMissing(w.view, policy, intervalMs, now);
  }

  /** So is a gap that a report passes. */
  lemma PassedSettled<P>(w: World<P>, policy: Policy, intervalMs: nat, now: int, k: nat)
    requires AllReliable(w.view, policy) && WithinCaps(w.view, policy, intervalMs, now)
    requires k in Passable(w.view, policy, intervalMs, now)
    ensures var x := OnReport(w, policy, intervalMs, now);
            k in With(w.view, policy, intervalMs, now, Overdue) && Late(x.view, x.horizon, k)
  {
    PassableLate(w.view, policy, intervalMs, now, k);
    PassableStays(w.view, policy, intervalMs, now, k);
    hide Reported, LostList, With, Staying, Passable, Policy.Reliable, Policy.LossThresholdUs, View.ChannelOf;
    ReportedMissing(w.view, policy, intervalMs, now);
  }

  lemma PassableStays(v: View, policy: Policy, intervalMs: nat, now: int, g: nat)
    requires AllReliable(v, policy) && g in Passable(v, policy, intervalMs, now)
    ensures g in With(v, policy, intervalMs, now, Overdue) && g in Staying(v, policy, intervalMs, now)
  {
  }

  /** What a report skips, and what was skipped before, is settled by it. */
  lemma SkippedSettled<P>(w: World<P>, policy: Policy, intervalMs: nat, now: int, k: nat)
    requires Tracks(w) && Accounted(w, policy) && WithinCaps(w.view, policy, intervalMs, now)
    requires KeepsUp(w, policy, intervalMs, now)
    requires k in OnReport(w, policy, intervalMs, now).skipped
    ensures var x := OnReport(w, policy, intervalMs, now);
            k in x.got || k in x.gaveUp ||
            (k in With(w.view, policy, intervalMs, now, Overdue) && Late(x.view, x.horizon, k))
  {
    hide Reported, LostList, FirstFree, With, Staying, Passable, WithinCaps, AllReliable, Sound, Policy.LossThresholdUs;
    if k in Passable(w.view, policy, intervalMs, now) {
      PassedSettled(w, policy, intervalMs, now, k);
    } else {
      assert k in w.skipped && k < w.view.next;
      if k !in w.got && k !in w.gaveUp {
        LateSettled(w, policy, intervalMs, now, k);
      }
    }
  }

  lemma ReportReliable(v: View, policy: Policy, intervalMs: nat, now: int)
    requires AllReliable(v, policy)
    ensures AllReliable(Reported(v, policy, intervalMs, now), policy)
  {
    hide Reported;
    ReportedMissing(v, policy, intervalMs, now);
  }

  lemma ReportAccounted<P>(w: World<P>, policy: Policy, intervalMs: nat, now: int)
    requires Tracks(w) && Accounted(w, policy) && WithinCaps(w.view, policy, intervalMs, now)
    requires KeepsUp(w, policy, intervalMs, now)
    ensures Accounted(OnReport(w, policy, intervalMs, now), policy)
  {
    ReportReliable(w.view, policy, intervalMs, now);
    var x := OnReport(w, policy, intervalMs, now);
    forall k | k in x.skipped ensures k in x.got || k in x.gaveUp || Late(x.view, x.horizon, k) {
      SkippedSettled(w, policy, intervalMs, now, k);
    }
    hide Reported, LostList, AllReliable;
  }

  lemma ListComplete(v: View, policy: Policy, intervalMs: nat, now: int, k: nat)
    requires WithinCaps(v, policy, intervalMs, now) && k in With(v, policy, intervalMs, now, Overdue)
    ensures var lost := LostList(v, policy, intervalMs, now);
            k in lost[..ListedCount(|lost|)]
  {
    hide With, Staying;
    var lost := LostList(v, policy, intervalMs, now);
    assert |lost| <= MAX_LISTED && ListedCount(|lost|) == |lost|;
    hide LostList, ListedCount;
    assert lost[..|lost|] == lost;
  }

  /** The new report: everything from the first number to the acknowledgement is settled. */
  lemma NewReportHonest<P>(w: World<P>, policy: Policy, intervalMs: nat, now: int)
    requires Tracks(w) && Accounted(w, policy)
    requires WithinCaps(w.view, policy, intervalMs, now) && KeepsUp(w, policy, intervalMs, now)
    ensures var x := OnReport(w, policy, intervalMs, now);
            Honest(x, x.reports[|w.reports|])
  {
    var v := w.view;
    var x := OnReport(w, policy, intervalMs, now);
    var r := x.reports[|w.reports|];
    ReportTracks(w, policy, intervalMs, now);
    ReportedCursor(v, policy, intervalMs, now);
    NoneOverdueBeforeFirst(v, policy, intervalMs, now);
    if v.initialized {
      forall k: nat | x.first <= k <= r.ack ensures Settles(x, r, k) {
        if k !in x.got {
          assert k in x.skipped;
          SkippedSettled(w, policy, intervalMs, now, k);
          if k in With(v, policy, intervalMs, now, Overdue) {
            ListComplete(v, policy, intervalMs, now, k);
          }
        }
      }
    }
    hide Reported, LostList, Sorted, FirstFree, With, Passable, Outside;
  }

  lemma NoneOverdueBeforeFirst(v: View, policy: Policy, intervalMs: nat, now: int)
    requires Sound(v)
    ensures !v.initialized ==> Sorted(With(v, policy, intervalMs, now, Overdue)) == []
  {
  }

  lemma ReportKeeps<P>(w: World<P>, policy: Policy, intervalMs: nat, now: int)
    requires Inv(w, policy) && WithinCaps(w.view, policy, intervalMs, now) && KeepsUp(w, policy, intervalMs, now)
    ensures Inv(OnReport(w, policy, intervalMs, now), policy)
  {
    hide OnReport, Tracks, Accounted, WithinCaps, Honest, Safe, Grown;
    var x := OnReport(w, policy, intervalMs, now);
    ReportTracks(w, policy, intervalMs, now);
    ReportAccounted(w, policy, intervalMs, now);
    NewReportHonest(w, policy, intervalMs, now);
    TracksSound(w);
    ReportGrows(w, policy, intervalMs, now);
    SafeGrows(w, x);
    forall i | 0 <= i < |x.reports| ensures Honest(x, x.reports[i]) {
      if i < |w.reports| {
        assert x.reports[i] == w.reports[i];
        HonestGrows(w, x, w.reports[i]);
      }
    }
  }

  lemma TracksSound<P>(w: World<P>)
    requires Tracks(w)
    ensures Sound(w.view)
  {
  }

  /** The receiver has learned no less. */
  ghost predicate Grown<P>(w: World<P>, x: World<P>) {
    && w.first == x.first && w.view.initialized == x.view.initialized
    && w.got <= x.got && w.gaveUp <= x.gaveUp
    && w.pending == x.pending && w.sent == x.sent && w.exhausted == x.exhausted
  }

  lemma ReportGrows<P>(w: World<P>, policy: Policy, intervalMs: nat, now: int)
    requires Sound(w.view)
    ensures var x := OnReport(w, policy, intervalMs, now);
            && Grown(w, x) && |x.reports| == |w.reports| + 1
            && forall i :: 0 <= i < |w.reports| ==> x.reports[i] == w.reports[i]
  {
    hide Reported, LostList, With, FirstFree, Passable, Under, Outside, Sound;
    ReportedCursor(w.view, policy, intervalMs, now);
  }

  lemma HonestGrows<P>(w: World<P>, x: World<P>, r: Message)
    requires Grown(w, x) && Honest(w, r)
    ensures Honest(x, r)
  {
    if w.view.initialized {
      forall k: nat | x.first <= k <= r.ack ensures Settles(x, r, k) {
        assert Settles(w, r, k);
      }
    }
  }

  lemma SafeGrows<P>(w: World<P>, x: World<P>)
    requires Grown(w, x) && Safe(w)
    ensures Safe(x)
  {
  }

  /** An honest report, however old, makes the sender drop nothing that is still wanted. */
  lemma HandlingSafe<P>(w: World<P>, r: Message, now: int)
    requires Safe(w) && Honest(w, r)
    ensures Safe(OnHandling(w, r, now))
  {
    var x := OnHandling(w, r, now);
    forall k | k in x.sent && (x.view.initialized ==> x.first <= k)
      ensures k in x.pending || k in x.got || k in x.gaveUp || k in x.exhausted
    {
      if k in w.pending && k !in x.pending && k !in x.exhausted {
        assert k <= r.ack && k !in r.listed;
        assert Settles(w, r, k);
      }
    }
  }

  lemma HandlingKeeps<P>(w: World<P>, policy: Policy, i: nat, now: int)
    requires Inv(w, policy) && i < |w.reports|
    ensures Inv(OnHandling(w, w.reports[i], now), policy)
  {
    assert Honest(w, w.reports[i]);
    HandlingSafe(w, w.reports[i], now);
    var x := OnHandling(w, w.reports[i], now);
    hide Handled, Exhausted, Cursor, Sound, AllReliable, Safe;
    ReceiverUntouched(w, x, policy);
  }

  /** What concerns the receiver depends on nothing of the sender's. */
  lemma ReceiverUntouched<P>(w: World<P>, x: World<P>, policy: Policy)
    requires Tracks(w) && Accounted(w, policy) && ReportsHonest(w) && x.horizon == w.horizon
    requires x.view == w.view && x.first == w.first && x.got == w.got && x.skipped == w.skipped
    requires x.gaveUp == w.gaveUp && x.reports == w.reports
    ensures Tracks(x) && Accounted(x, policy) && ReportsHonest(x)
  {
    hide Sound, Cursor, AllReliable;
    forall i | 0 <= i < |x.reports| ensures Honest(x, x.reports[i]) {
      assert Honest(w, w.reports[i]);
      forall k: nat | Settles(w, w.reports[i], k) ensures Settles(x, x.reports[i], k) {
      }
    }
  }

  /** Which channels are reliable does not depend on the round-trip time. */
  lemma SameChannels<P>(w: World<P>, policy: Policy, current: Policy)
    requires current == policy.(rttUs := current.rttUs)
    ensures Inv(w, policy) ==> Inv(w, current)
  {
    hide Tracks, ReportsHonest, Safe;
  }

  lemma StepKeeps<P>(w: World<P>, e: Event<P>, policy: Policy, intervalMs: nat)
    requires Inv(w, policy) && Legal(w, e, policy, intervalMs)
    ensures Inv(Step(w, e, policy, intervalMs), policy)
  {
    match e
    case PacketSent(s, packet, now) =>
      var x := Step(w, e, policy, intervalMs);
      hide Accounted, Tracks, ReportsHonest;
      ReceiverUntouched(w, x, policy);
    case PacketArrives(s, channel, now) =>
      ArrivalTracks(w, s, channel, now);
      ArrivalAccounted(w, policy, s, channel, now);
      ArrivalHonest(w, policy, s, channel, now);
    case HeartbeatArrives(rttUs) =>
      hide Accounted, Tracks, ReportsHonest;
      ReceiverUntouched(w, Step(w, e, policy, intervalMs), policy);
    case ReportMade(now) =>
      var current := policy.(rttUs := w.rttUs);
      SameChannels(w, policy, current);
      ReportKeeps(w, current, intervalMs, now);
      SameChannels(OnReport(w, current, intervalMs, now), current, policy);
    case ReportArrives(i, now) =>
      if i < |w.reports| {
        HandlingKeeps(w, policy, i, now);
      }
  }

  // ---------- Whole runs ----------

  lemma AnyStepTracks<P>(w: World<P>, e: Event<P>, policy: Policy, intervalMs: nat)
    requires Tracks(w)
    ensures Tracks(Step(w, e, policy, intervalMs))
    ensures w.view.next <= Step(w, e, policy, intervalMs).view.next
  {
    match e
    case PacketArrives(s, channel, now) => ArrivalTracks(w, s, channel, now);
    case ReportMade(now) => ReportTracks(w, policy.(rttUs := w.rttUs), intervalMs, now);
    case _ =>
  }

  /** On any events at all: every mix of channels, any clock. */
  lemma {:induction false} EveryRunTracks<P>(events: seq<Event<P>>, policy: Policy, intervalMs: nat)
    ensures Tracks(After(events, policy, intervalMs))
  {
    if events != [] {
      EveryRunTracks(events[..|events| - 1], policy, intervalMs);
      AnyStepTracks(After(events[..|events| - 1], policy, intervalMs), events[|events| - 1], policy, intervalMs);
    }
  }

  /** The cursor never moves back. */
  lemma {:induction false} CursorNeverFalls<P>(events: seq<Event<P>>, n: nat, policy: Policy, intervalMs: nat)
    requires n <= |events|
    ensures After(events[..n], policy, intervalMs).view.next <= After(events, policy, intervalMs).view.next
  {
    hide Step, Tracks;
    if n == |events| {
      assert events[..n] == events;
    } else {
      var before := events[..|events| - 1];
      assert before[..n] == events[..n];
      CursorNeverFalls(before, n, policy, intervalMs);
      EveryRunTracks(before, policy, intervalMs);
      AnyStepTracks(After(before, policy, intervalMs), events[|events| - 1], policy, intervalMs);
    }
  }

  ghost predicate LegalRun<P>(events: seq<Event<P>>, policy: Policy, intervalMs: nat) {
    events != [] ==>
      && LegalRun(events[..|events| - 1], policy, intervalMs)
      && Legal(After(events[..|events| - 1], policy, intervalMs), events[|events| - 1], policy, intervalMs)
  }

  lemma {:induction false} RunKeeps<P>(events: seq<Event<P>>, policy: Policy, intervalMs: nat)
    requires LegalRun(events, policy, intervalMs)
    ensures Inv(After(events, policy, intervalMs), policy)
  {
    if events != [] {
      RunKeeps(events[..|events| - 1], policy, intervalMs);
      StepKeeps(After(events[..|events| - 1], policy, intervalMs), events[|events| - 1], policy, intervalMs);
    }
  }

  // ---------- What goes out ----------

  /** No number is sent twice. */
  ghost predicate FreshRun<P>(events: seq<Event<P>>, policy: Policy, intervalMs: nat) {
    events != [] ==>
      && FreshRun(events[..|events| - 1], policy, intervalMs)
      && (events[|events| - 1].PacketSent? ==>
            events[|events| - 1].seqNo !in After(events[..|events| - 1], policy, intervalMs).sent)
  }

  lemma {:induction false} LegalIsFresh<P>(events: seq<Event<P>>, policy: Policy, intervalMs: nat)
    requires LegalRun(events, policy, intervalMs)
    ensures FreshRun(events, policy, intervalMs)
  {
    hide After;
    if events != [] {
      LegalIsFresh(events[..|events| - 1], policy, intervalMs);
    }
  }

  /** How often the packet of a number has gone out. */
  ghost function Copies<P>(w: World<P>, k: nat): nat
    requires k in w.sent
  {
    multiset(w.wire)[OnWire(k, w.sent[k])]
  }

  /** A kept packet has gone out once and once for every resend, one sent in vain eleven times, and nothing goes out
      but the packet sent under its number. */
  ghost predicate Counted<P>(w: World<P>) {
    && (forall k :: k in w.pending ==> k in w.sent && KeptRight(w, k))
    && (forall k :: k in w.exhausted ==> k in w.sent && k !in w.pending && Copies(w, k) == 11)
    && (forall i :: 0 <= i < |w.wire| ==>
          w.wire[i].seqNo in w.sent && w.wire[i].packet == w.sent[w.wire[i].seqNo])
  }

  ghost predicate KeptRight<P>(w: World<P>, k: nat)
    requires k in w.pending && k in w.sent
  {
    && w.pending[k].packet == w.sent[k] && w.pending[k].retries <= 10
    && Copies(w, k) == 1 + w.pending[k].retries
  }

  lemma NotYetOut<P>(w: World<P>, s: nat, packet: P)
    requires Counted(w) && s !in w.sent
    ensures multiset(w.wire)[OnWire(s, packet)] == 0
  {
    assert OnWire(s, packet) !in w.wire;
  }

  lemma SendingCounts<P>(w: World<P>, s: nat, packet: P, now: int, policy: Policy, intervalMs: nat)
    requires Counted(w) && s !in w.sent
    ensures Counted(Step(w, PacketSent(s, packet, now), policy, intervalMs))
  {
    var x := Step(w, PacketSent(s, packet, now), policy, intervalMs);
    NotYetOut(w, s, packet);
    assert multiset(x.wire) == multiset(w.wire) + multiset{OnWire(s, packet)};
    forall k | k in w.sent ensures Copies(x, k) == Copies(w, k) {}
  }

  /** Among what a report sends again each wanted number is once. */
  lemma {:induction false} ResentOnce<P>(pending: map<nat, Pending<P>>, order: seq<nat>, k: nat)
    requires StrictlyAscending(order) && k in pending && forall s :: s in order ==> s in pending
    ensures multiset(Resends(pending, order))[OnWire(k, pending[k].packet)] == if k in order then 1 else 0
  {
    if order == [] {
      assert Resends(pending, order) == [];
    } else {
      var last := |order| - 1;
      var rest := order[..last];
      ResentOnce(pending, rest, k);
      assert order == rest + [order[last]];
      assert Resends(pending, order) == Resends(pending, rest) + [OnWire(order[last], pending[order[last]].packet)];
      assert order[last] !in rest;
    }
  }

  lemma HandlingCopies<P>(w: World<P>, r: Message, now: int, k: nat)
    requires k in w.sent && (k in w.pending ==> w.pending[k].packet == w.sent[k])
    ensures Copies(OnHandling(w, r, now), k)
         == Copies(w, k) + if k in w.pending && k in r.listed && w.pending[k].retries < 10 then 1 else 0
  {
    hide Sorted, Handled;
    var order := Sorted(Wanted(w.pending, Numbers(r.listed)));
    var resent := Resends(w.pending, order);
    assert multiset(w.wire + resent) == multiset(w.wire) + multiset(resent);
    if k in w.pending {
      ResentOnce(w.pending, order, k);
    } else {
      NotResent(w.pending, order, OnWire(k, w.sent[k]));
    }
  }

  lemma HandlingWire<P>(w: World<P>, r: Message, now: int)
    requires Counted(w)
    ensures var x := OnHandling(w, r, now);
            forall i :: 0 <= i < |x.wire| ==>
              x.wire[i].seqNo in w.sent && x.wire[i].packet == w.sent[x.wire[i].seqNo]
  {
    hide Handled, Sorted, Copies;
    var order := Sorted(Wanted(w.pending, Numbers(r.listed)));
    var resent := Resends(w.pending, order);
    forall i | 0 <= i < |resent| ensures resent[i].seqNo in w.sent && resent[i].packet == w.sent[resent[i].seqNo] {
      assert order[i] in order;
    }
  }

  lemma HandlingKept<P>(w: World<P>, r: Message, now: int, k: nat)
    requires Counted(w) && k in OnHandling(w, r, now).pending
    ensures k in w.sent && KeptRight(OnHandling(w, r, now), k)
  {
    assert k in w.pending && KeptRight(w, k);
    HandlingCopies(w, r, now, k);
    hide Copies, Resends, Sorted, Counted;
  }

  lemma HandlingExhausted<P>(w: World<P>, r: Message, now: int, k: nat)
    requires Counted(w) && k in OnHandling(w, r, now).exhausted
    ensures k in w.sent && k !in OnHandling(w, r, now).pending && Copies(OnHandling(w, r, now), k) == 11
  {
    assert k in w.sent && (k in w.pending ==> KeptRight(w, k));
    HandlingCopies(w, r, now, k);
    hide Copies, Resends, Sorted;
  }

  lemma HandlingCounts<P>(w: World<P>, r: Message, now: int)
    requires Counted(w)
    ensures Counted(OnHandling(w, r, now))
  {
    var x := OnHandling(w, r, now);
    HandlingWire(w, r, now);
    assert x.sent == w.sent;
    hide Copies, OnHandling, KeptRight;
    forall k | k in x.pending ensures k in w.sent && KeptRight(x, k) {
      HandlingKept(w, r, now, k);
    }
    forall k | k in x.exhausted ensures k in w.sent && k !in x.pending && Copies(x, k) == 11 {
      HandlingExhausted(w, r, now, k);
    }
  }

  lemma NotResent<P>(pending: map<nat, Pending<P>>, order: seq<nat>, o: OnWire<P>)
    requires o.seqNo !in pending && forall s :: s in order ==> s in pending
    ensures multiset(Resends(pending, order))[o] == 0
  {
    assert o !in Resends(pending, order);
  }

  lemma {:induction false} RunCounts<P>(events: seq<Event<P>>, policy: Policy, intervalMs: nat)
    requires FreshRun(events, policy, intervalMs)
    ensures Counted(After(events, policy, intervalMs))
  {
    if events != [] {
      var w, e := After(events[..|events| - 1], policy, intervalMs), events[|events| - 1];
      RunCounts(events[..|events| - 1], policy, intervalMs);
      StepCounts(w, e, policy, intervalMs);
    }
  }

  lemma StepCounts<P>(w: World<P>, e: Event<P>, policy: Policy, intervalMs: nat)
    requires Counted(w) && (e.PacketSent? ==> e.seqNo !in w.sent)
    ensures Counted(Step(w, e, policy, intervalMs))
  {
    hide Counted;
    match e
    case PacketSent(s, packet, now) => SendingCounts(w, s, packet, now, policy, intervalMs);
    case ReportArrives(i, now) =>
      if i < |w.reports| {
        hide OnHandling;
        HandlingCounts(w, w.reports[i], now);
      }
    case _ => SenderUntouched(w, Step(w, e, policy, intervalMs));
  }

  lemma SenderUntouched<P>(w: World<P>, x: World<P>)
    requires Counted(w)
    requires x.pending == w.pending && x.sent == w.sent && x.exhausted == w.exhausted && x.wire == w.wire
    ensures Counted(x)
  {
    forall k | k in x.sent ensures Copies(x, k) == Copies(w, k) {}
    hide Copies;
  }

  /** In a run that sends no number twice every packet kept has gone out once and once for every resend, every one
      given up as exhausted eleven times, and nothing else has gone out. */
  lemma GoneOut<P>(events: seq<Event<P>>, policy: Policy, intervalMs: nat, k: nat)
    requires FreshRun(events, policy, intervalMs)
    ensures var w := After(events, policy, intervalMs);
            && (k in w.pending ==>
                  && k in w.sent && w.pending[k].packet == w.sent[k] && w.pending[k].retries <= 10
                  && Copies(w, k) == 1 + w.pending[k].retries)
            && (k in w.exhausted ==> k in w.sent && Copies(w, k) == 11)
            && (k < |w.wire| ==> w.wire[k].seqNo in w.sent && w.wire[k].packet == w.sent[w.wire[k].seqNo])
  {
    RunCounts(events, policy, intervalMs);
  }

  ghost predicate SentIn<P>(events: seq<Event<P>>, k: nat, packet: P) {
    exists j :: 0 <= j < |events| && events[j].PacketSent? && events[j].seqNo == k && events[j].packet == packet
  }

  /** What counts as sent under a number is the packet of an event that sent it. */
  lemma {:induction false} SentByEvent<P>(events: seq<Event<P>>, policy: Policy, intervalMs: nat, k: nat)
    requires k in After(events, policy, intervalMs).sent
    ensures SentIn(events, k, After(events, policy, intervalMs).sent[k])
  {
    var before, e := events[..|events| - 1], events[|events| - 1];
    var w := After(before, policy, intervalMs);
    var packet := After(events, policy, intervalMs).sent[k];
    if e.PacketSent? && e.seqNo == k {
      assert events[|events| - 1].packet == packet;
    } else {
      SentByEvent(before, policy, intervalMs, k);
      var j :| 0 <= j < |before| && before[j].PacketSent? && before[j].seqNo == k && before[j].packet == packet;
      assert events[j] == before[j];
    }
  }

  /** The number goes out with the packet sent under it, behind all that was on the wire, and is counted. */
  ghost predicate GoesOut<P>(w: World<P>, x: World<P>, k: nat, now: int)
    requires k in w.pending && k in w.sent
  {
    && |w.wire| <= |x.wire| && x.wire[..|w.wire|] == w.wire
    && OnWire(k, w.sent[k]) in x.wire[|w.wire|..]
    && k in x.pending && x.pending[k] == Pending(w.sent[k], w.pending[k].retries + 1, now)
  }

  /** Whenever a report is handled, each number it lists that is kept and was sent again fewer than ten times goes
      out. */
  lemma ListedGoesOut<P>(events: seq<Event<P>>, i: nat, now: int, policy: Policy, intervalMs: nat, k: nat)
    requires FreshRun(events, policy, intervalMs)
    ensures var w := After(events, policy, intervalMs);
            var x := After(events + [ReportArrives(i, now)], policy, intervalMs);
            i < |w.reports| && k in w.reports[i].listed && k in w.pending && w.pending[k].retries < 10
            ==> k in w.sent && GoesOut(w, x, k, now)
  {
    hide Counted, GoesOut, FreshRun;
    var w := After(events, policy, intervalMs);
    var e: Event<P> := ReportArrives(i, now);
    assert (events + [e])[..|events|] == events;
    RunCounts(events, policy, intervalMs);
    if i < |w.reports| && k in w.reports[i].listed && k in w.pending && w.pending[k].retries < 10 {
      assert After(events + [e], policy, intervalMs) == OnHandling(w, w.reports[i], now);
      hide After, OnHandling;
      WantedGoesOut(w, w.reports[i], now, k);
    }
  }

  lemma WantedGoesOut<P>(w: World<P>, r: Message, now: int, k: nat)
    requires Counted(w) && k in r.listed && k in w.pending && w.pending[k].retries < 10
    ensures k in w.sent && GoesOut(w, OnHandling(w, r, now), k, now)
  {
    hide Sorted;
    var order := Sorted(Wanted(w.pending, Numbers(r.listed)));
    var resent := Resends(w.pending, order);
    assert (w.wire + resent)[|w.wire|..] == resent;
    assert k in order;
    var j :| 0 <= j < |order| && order[j] == k;
    assert resent[j] == OnWire(k, w.sent[k]);
  }

  // ---------- What is promised ----------

  /** With every channel reliable and no report over its limits, each number from the first one tracked to a
      reported acknowledgement was received, is in that report's loss list, or was given up behind the cursor. */
  lemma AcknowledgedIsSettled<P>(events: seq<Event<P>>, policy: Policy, intervalMs: nat, i: nat, k: nat)
    requires LegalRun(events, policy, intervalMs)
    ensures var w := After(events, policy, intervalMs);
            i < |w.reports| && w.view.initialized && w.first <= k <= w.reports[i].ack ==>
              k in w.got || k in w.reports[i].listed || k in w.gaveUp
  {
    RunKeeps(events, policy, intervalMs);
    var w := After(events, policy, intervalMs);
    if i < |w.reports| && w.view.initialized && w.first <= k <= w.reports[i].ack {
      assert Honest(w, w.reports[i]);
      assert Settles(w, w.reports[i], k);
    }
  }

  /** Then the sender never drops a packet that is still wanted, whatever reports it handles, however late
      and however often: every number sent from the first one tracked on is still kept, or was received, or
      was given up by the receiver after its cursor had passed it, or went out eleven times. */
  lemma NothingWantedIsDropped<P>(events: seq<Event<P>>, policy: Policy, intervalMs: nat, k: nat)
    requires LegalRun(events, policy, intervalMs)
    ensures var w := After(events, policy, intervalMs);
            k in w.sent && (w.view.initialized ==> w.first <= k) ==>
              k in w.pending || k in w.got || k in w.gaveUp || (k in w.exhausted && Copies(w, k) == 11)
  {
    RunKeeps(events, policy, intervalMs);
    LegalIsFresh(events, policy, intervalMs);
    RunCounts(events, policy, intervalMs);
  }

  // ---------- The objects of both sides ----------

  /** The receiver's and the sender's object, driven by the events, go through the states of the run. */
  method Replay<P>(events: seq<Event<P>>, policy: Policy, intervalMs: nat)
    returns (receiver: PeerSequences, sender: Sender<P>, reports: seq<Message>, wire: seq<OnWire<P>>)
    requires policy.rttUs == 0
    ensures var w := After(events, policy, intervalMs);
            && receiver.AsView() == w.view && receiver.policy == policy.(rttUs := w.rttUs)
            && sender.pending == w.pending && reports == w.reports && wire == w.wire
  {
    hide Arrived, Reported, LostList, ListedCount, Handled, Sound, Under, With, Passable, Sorted, Wanted, Resends,
        Keeps, Answers;
    receiver := new PeerSequences(policy);
    sender := new Sender<P>();
    reports, wire := [], [];
    assert events[..0] == [];
    for i := 0 to |events|
      invariant fresh(receiver) && fresh(sender) && receiver.Valid()
      invariant var w := After(events[..i], policy, intervalMs);
                && receiver.AsView() == w.view && receiver.policy == policy.(rttUs := w.rttUs)
                && sender.pending == w.pending && reports == w.reports && wire == w.wire
    {
      assert events[..i + 1][..i] == events[..i];
      match events[i]
      case PacketSent(s, packet, now) =>
        sender.Send(s, packet, now);
        wire := wire + [OnWire(s, packet)];
      case PacketArrives(s, channel, now) => receiver.Arrive(s, channel, now);
      case HeartbeatArrives(rttUs) => receiver.HearHeartbeat(rttUs);
      case ReportMade(now) =>
        var ack, listed := receiver.Report(intervalMs, now);
        reports := reports + [Message(ack, listed)];
      case ReportArrives(n, now) =>
        if n < |reports| {
          var resent := sender.Handle(reports[n].ack, reports[n].listed, now);
          wire := wire + resent;
        }
    }
    assert events[..|events|] == events;
  }
}
