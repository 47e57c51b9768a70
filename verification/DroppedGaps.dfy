/** What a report makes the sender drop, and that the conditions of the run theorems are the right ones. */
module DroppedGaps {
  import Common
  import opened OrderedSets
  import opened SequenceTracking
  import opened Retransmission
  import opened ReliableRun

  /** The report acknowledges the number without asking for it. */
  predicate Drops(r: Message, k: nat) {
    k <= r.ack && k !in r.listed
  }

  /** That is exactly when a packet not yet sent again is dropped. */
  lemma FreshDroppedIff<P>(w: World<P>, r: Message, k: nat, now: int)
    requires k in w.pending && w.pending[k].retries == 0
    ensures Drops(r, k) <==> k !in OnHandling(w, r, now).pending
  {
  }

  // ---------- Any state of the receiver ----------

  lemma AckIs(v: View, policy: Policy, intervalMs: nat, now: int, k: nat)
    requires Sound(v) && v.initialized && 0 < v.next <= k
    ensures k <= ReportOf(v, policy, intervalMs, now).ack <==>
            forall h: nat | v.next <= h <= k :: h in v.held + Passable(v, policy, intervalMs, now)
  {
    hide Reported, Passable, LostList;
    ReportedCursor(v, policy, intervalMs, now);
    var c := FirstFree(v.next, v.held + Passable(v, policy, intervalMs, now));
    assert v.next <= c;
  }

  lemma ListedIs(v: View, policy: Policy, intervalMs: nat, now: int, k: nat)
    ensures var overdue := With(v, policy, intervalMs, now, Overdue);
            k in ReportOf(v, policy, intervalMs, now).listed
            <==> k in overdue && |Under(overdue, k)| < ListedCount(|overdue|)
  {
    hide With, Reported, Sorted, Under;
    var overdue := With(v, policy, intervalMs, now, Overdue);
    AmongFirstIff(overdue, ListedCount(|overdue|), k);
  }

  /** In any state a gap is dropped exactly when everything up to it can be passed, and either its channel does
      not retransmit or too many overdue numbers lie below it. */
  lemma GapDroppedIff(v: View, policy: Policy, intervalMs: nat, now: int, k: nat)
    requires Sound(v) && v.initialized && 0 < v.next <= k && k in v.missing && k !in v.held
    ensures var overdue := With(v, policy, intervalMs, now, Overdue);
            Drops(ReportOf(v, policy, intervalMs, now), k) <==>
            && (forall h: nat | v.next <= h <= k :: h in v.held + Passable(v, policy, intervalMs, now))
            && (!policy.Reliable(v.ChannelOf(k)) || |Under(overdue, k)| >= ListedCount(|overdue|))
  {
    hide Reported, Sorted, Under, ReportOf, ListedCount;
    AckIs(v, policy, intervalMs, now, k);
    ListedIs(v, policy, intervalMs, now, k);
    if forall h: nat | v.next <= h <= k :: h in v.held + Passable(v, policy, intervalMs, now) {
      assert k in v.held + Passable(v, policy, intervalMs, now);
    }
  }

  // ---------- A burst of losses, and a gap shown by another channel ----------

  /** Numbers 2 to n + 1 lost in a row. */
  function Burst(n: nat, at: int, channel: nat, revealing: nat): View {
    Arrived(Arrived(START, 1, channel, at), n + 2, revealing, at)
  }

  /** The state the receiver is left in. */
  ghost predicate AfterBurst(v: View, n: nat, at: int, channel: nat) {
    && Sound(v) && v.initialized && v.next == 2 && v.held == {n + 2}
    && (forall g: nat :: g in v.missing <==> 2 <= g <= n + 1)
    && (forall g :: g in v.missing ==> v.missing[g] == at && v.ChannelOf(g) == channel)
  }

  lemma BurstLost(n: nat, at: int, channel: nat, revealing: nat)
    requires n > 0
    ensures AfterBurst(Burst(n, at, channel, revealing), n, at, revealing)
  {
    var u := Arrived(START, 1, channel, at);
    FirstFreeIs(2, {n + 2}, 2);
    assert u.held + {n + 2} == {n + 2};
  }

  lemma {:induction false} RangeSize(s: set<nat>, from: nat, n: nat)
    requires forall g: nat :: g in s <==> from <= g < from + n
    ensures |s| == n
    decreases n
  {
    if n == 0 {
      assert s == {};
    } else {
      assert from in s;
      RangeSize(s - {from}, from + 1, n - 1);
    }
  }

  lemma BurstOverdue(v: View, n: nat, at: int, channel: nat, policy: Policy, intervalMs: nat, now: int)
    requires AfterBurst(v, n, at, channel)
    requires policy.Reliable(channel) && policy.LossThresholdUs() < now - at <= GiveUpUs(intervalMs)
    ensures With(v, policy, intervalMs, now, Overdue) == v.missing.Keys
    ensures Passable(v, policy, intervalMs, now) == v.missing.Keys
  {
  }

  /** When the burst is overdue the report keeps the first 256 and drops the others. */
  lemma BurstGapDroppedIff(n: nat, at: int, channel: nat, policy: Policy, intervalMs: nat, now: int, k: nat)
    requires 2 <= k <= n + 1 && policy.Reliable(channel)
    requires policy.LossThresholdUs() < now - at <= GiveUpUs(intervalMs)
    ensures Drops(ReportOf(Burst(n, at, channel, channel), policy, intervalMs, now), k) <==> k >= 2 + ListedCount(n)
  {
    hide With, Passable, Reported, ReportOf, Burst, ListedCount;
    var v := Burst(n, at, channel, channel);
    BurstLost(n, at, channel, channel);
    BurstOverdue(v, n, at, channel, policy, intervalMs, now);
    GapDroppedIff(v, policy, intervalMs, now, k);
    RangeSize(v.missing.Keys, 2, n);
    RangeSize(Under(v.missing.Keys, k), 2, k - 2);
  }

  /** A burst that is overdue loses packets exactly when it is longer than a report can list. */
  lemma LongBurstDropsIff(n: nat, at: int, channel: nat, policy: Policy, intervalMs: nat, now: int)
    requires n > 0 && policy.Reliable(channel)
    requires policy.LossThresholdUs() < now - at <= GiveUpUs(intervalMs)
    ensures var r := ReportOf(Burst(n, at, channel, channel), policy, intervalMs, now);
            (exists k: nat :: 2 <= k <= n + 1 && Drops(r, k)) <==> n > MAX_LISTED
  {
    hide ReportOf, Burst, Drops;
    forall k: nat | 2 <= k <= n + 1
      ensures Drops(ReportOf(Burst(n, at, channel, channel), policy, intervalMs, now), k) <==> k >= 2 + ListedCount(n)
    {
      BurstGapDroppedIff(n, at, channel, policy, intervalMs, now, k);
    }
    if n > MAX_LISTED {
      assert Drops(ReportOf(Burst(n, at, channel, channel), policy, intervalMs, now), n + 1);
    }
  }

  /** A gap is judged by the channel of the packet that showed it: the sender drops it, at any time, exactly when
      that channel does not retransmit, whatever channel the lost packet travelled on. */
  lemma ForeignChannelDropsIff(at: int, channel: nat, revealing: nat, policy: Policy, intervalMs: nat, now: int)
    ensures Drops(ReportOf(Burst(1, at, channel, revealing), policy, intervalMs, now), 2)
            <==> !policy.Reliable(revealing)
  {
    BurstLost(1, at, channel, revealing);
    OneGapDroppedIff(Burst(1, at, channel, revealing), at, revealing, policy, intervalMs, now);
    hide *;
  }

  lemma OnlyGap(v: View, at: int, channel: nat, policy: Policy, intervalMs: nat, now: int)
    requires AfterBurst(v, 1, at, channel)
    ensures v.initialized && Sound(v) && v.next == 2 && v.missing.Keys == {2} && v.missing[2] == at && v.held == {3}
    ensures v.ChannelOf(2) == channel
    ensures With(v, policy, intervalMs, now, Overdue) <= {2} && Passable(v, policy, intervalMs, now) <= {2}
    ensures policy.Reliable(channel) ==>
              Passable(v, policy, intervalMs, now) == With(v, policy, intervalMs, now, Overdue)
    ensures !policy.Reliable(channel) ==> Passable(v, policy, intervalMs, now) == {2}
    ensures 2 !in With(v, policy, intervalMs, now, Skipped) + With(v, policy, intervalMs, now, GivenUp) ==>
              Staying(v, policy, intervalMs, now) == {2}
  {
  }

  lemma OneGapDroppedIff(v: View, at: int, channel: nat, policy: Policy, intervalMs: nat, now: int)
    requires AfterBurst(v, 1, at, channel)
    ensures Drops(ReportOf(v, policy, intervalMs, now), 2) <==> !policy.Reliable(channel)
  {
    hide AfterBurst, Reported, ReportOf, Drops, With, Passable, Sound, Policy.Reliable, View.ChannelOf, Staying, Under;
    var overdue := With(v, policy, intervalMs, now, Overdue);
    OnlyGap(v, at, channel, policy, intervalMs, now);
    GapDroppedIff(v, policy, intervalMs, now, 2);
    OneRanked(overdue);
    var passable := v.held + Passable(v, policy, intervalMs, now);
    assert (forall h: nat | 2 <= h <= 2 :: h in passable) <==> 2 in passable;
  }

  /** The only overdue number is listed. */
  lemma OneRanked(overdue: set<nat>)
    requires overdue <= {2}
    ensures 2 in overdue ==> |Under(overdue, 2)| < ListedCount(|overdue|)
  {
    if 2 in overdue {
      assert overdue == {2} && Under(overdue, 2) == {};
    }
  }

  // ---------- A round-trip time that grows ----------

  /** What a report passes and asks for stays missing as it was. */
  lemma AskedStays(v: View, policy: Policy, intervalMs: nat, now: int, g: nat)
    requires Sound(v) && v.initialized && g in With(v, policy, intervalMs, now, Overdue)
    requires |Staying(v, policy, intervalMs, now)| <= MAX_MISSING
    ensures var u := Reported(v, policy, intervalMs, now);
            && Sound(u) && u.initialized && g in u.missing && u.missing[g] == v.missing[g]
            && u.ChannelOf(g) == v.ChannelOf(g) && policy.Reliable(u.ChannelOf(g))
  {
    assert g in Staying(v, policy, intervalMs, now) && policy.Reliable(v.ChannelOf(g));
    hide Reported, With, Sound, Staying, View.ChannelOf, Policy.Reliable;
    ReportedMissing(v, policy, intervalMs, now);
    ReportedSound(v, policy, intervalMs, now);
    ReportedCursor(v, policy, intervalMs, now);
  }

  lemma AckBehindCursor(u: View, policy: Policy, intervalMs: nat, now: int, g: nat)
    requires Sound(u) && u.initialized && g < u.next
    ensures g <= ReportOf(u, policy, intervalMs, now).ack
  {
    hide Reported, LostList, Passable;
    ReportedCursor(u, policy, intervalMs, now);
  }

  lemma UnaskedIff(u: View, policy: Policy, intervalMs: nat, now: int, g: nat)
    requires g in u.missing && policy.Reliable(u.ChannelOf(g))
    ensures g !in With(u, policy, intervalMs, now, Overdue) && g !in With(u, policy, intervalMs, now, GivenUp)
            <==> u.missing[g] >= now - Shorter(policy.LossThresholdUs(), GiveUpUs(intervalMs))
    ensures g in With(u, policy, intervalMs, now, Overdue) ==> g !in With(u, policy, intervalMs, now, GivenUp)
  {
    hide Policy.Reliable, View.ChannelOf, Policy.LossThresholdUs;
  }

  /** A gap that an earlier report asked for and passed: the next report drops it exactly when it does not ask
      again, and loses it exactly when its threshold has not been reached again and it is not given up. */
  lemma AskedThenDroppedIff(v: View, early: Policy, late: Policy, intervalMs: nat, t0: int, t1: int, g: nat)
    requires Sound(v) && v.initialized && late == early.(rttUs := late.rttUs)
    requires g in With(v, early, intervalMs, t0, Overdue) && g < Reported(v, early, intervalMs, t0).next
    requires |Staying(v, early, intervalMs, t0)| <= MAX_MISSING
    requires |With(Reported(v, early, intervalMs, t0), late, intervalMs, t1, Overdue)| <= MAX_LISTED
    ensures var u := Reported(v, early, intervalMs, t0);
            && g in u.missing && g in v.missing
            && (Drops(ReportOf(u, late, intervalMs, t1), g) <==> g !in With(u, late, intervalMs, t1, Overdue))
            && (Drops(ReportOf(u, late, intervalMs, t1), g) && g !in With(u, late, intervalMs, t1, GivenUp)
                <==> v.missing[g] >= t1 - Shorter(late.LossThresholdUs(), GiveUpUs(intervalMs)))
  {
    var u := Reported(v, early, intervalMs, t0);
    AskedStays(v, early, intervalMs, t0, g);
    assert late.Reliable(u.ChannelOf(g)) && g in v.missing;
    hide Reported, ReportOf, With, Staying, Sound, View.ChannelOf, Policy.Reliable, Policy.LossThresholdUs, ListedCount;
    AckBehindCursor(u, late, intervalMs, t1, g);
    UnaskedIff(u, late, intervalMs, t1, g);
    ListedIs(u, late, intervalMs, t1, g);
    if g in With(u, late, intervalMs, t1, Overdue) {
      ListedWhenFew(u, late, intervalMs, t1, g);
    }
  }

  lemma ListedWhenFew(v: View, policy: Policy, intervalMs: nat, now: int, g: nat)
    requires g in With(v, policy, intervalMs, now, Overdue)
    requires |With(v, policy, intervalMs, now, Overdue)| <= MAX_LISTED
    ensures g in ReportOf(v, policy, intervalMs, now).listed
  {
    var overdue := With(v, policy, intervalMs, now, Overdue);
    ListedIs(v, policy, intervalMs, now, g);
    hide With, ReportOf, Under;
    assert |Under(overdue, g)| < |overdue| by { FewerBelow(overdue, g); }
  }

  lemma FewerBelow(s: set<nat>, g: nat)
    requires g in s
    ensures |Under(s, g)| < |s|
  {
    assert Under(s, g) <= s - {g};
    Common.SubsetSize(Under(s, g), s - {g});
  }

  /** Number 2 is lost, found missing at the given time, and not given up; but the second of two reports makes the
      sender drop it. */
  ghost predicate Loses(at: int, channel: nat, early: Policy, late: Policy, intervalMs: nat, t0: int, t1: int) {
    var v := Burst(1, at, channel, channel);
    var u := Reported(v, early, intervalMs, t0);
    && 2 !in With(v, early, intervalMs, t0, GivenUp) && 2 !in With(u, late, intervalMs, t1, GivenUp)
    && Drops(ReportOf(u, late, intervalMs, t1), 2)
  }

  lemma OnlyGapAsked(v: View, at: int, channel: nat, policy: Policy, intervalMs: nat, now: int)
    requires AfterBurst(v, 1, at, channel) && policy.Reliable(channel)
    requires 2 in With(v, policy, intervalMs, now, Overdue)
    ensures Reported(v, policy, intervalMs, now).next == 4
  {
    OnlyGap(v, at, channel, policy, intervalMs, now);
    hide Reported, Passable, With;
    ReportedCursor(v, policy, intervalMs, now);
    FirstFreeIs(2, v.held + Passable(v, policy, intervalMs, now), 4);
  }

  lemma OnlyGapWaits(v: View, at: int, channel: nat, policy: Policy, intervalMs: nat, now: int)
    requires AfterBurst(v, 1, at, channel) && policy.Reliable(channel)
    requires 2 !in With(v, policy, intervalMs, now, Overdue) && 2 !in With(v, policy, intervalMs, now, GivenUp)
    ensures AfterBurst(Reported(v, policy, intervalMs, now), 1, at, channel)
  {
    OnlyGap(v, at, channel, policy, intervalMs, now);
    assert v.ChannelOf(2) == channel;
    hide Reported, Passable, With, Staying, View.ChannelOf;
    ReportedSound(v, policy, intervalMs, now);
    ReportedMissing(v, policy, intervalMs, now);
    ReportedCursor(v, policy, intervalMs, now);
    assert v.held + {} == v.held;
    FirstFreeIs(2, v.held, 2);
  }

  lemma LosesAsked(v: View, at: int, channel: nat, early: Policy, late: Policy, intervalMs: nat, t0: int, t1: int)
    requires AfterBurst(v, 1, at, channel) && 2 in With(v, early, intervalMs, t0, Overdue)
    requires early.Reliable(channel) && late == early.(rttUs := late.rttUs)
    ensures var u := Reported(v, early, intervalMs, t0);
            Drops(ReportOf(u, late, intervalMs, t1), 2) && 2 !in With(u, late, intervalMs, t1, GivenUp)
            <==> at >= t1 - Shorter(late.LossThresholdUs(), GiveUpUs(intervalMs))
  {
    hide Reported, ReportOf, With, Staying, Policy.Reliable, Policy.LossThresholdUs;
    OnlyGapAsked(v, at, channel, early, intervalMs, t0);
    FewAsked(v, at, channel, early, late, intervalMs, t0, t1);
    AskedThenDroppedIff(v, early, late, intervalMs, t0, t1, 2);
  }

  lemma LosesIff(at: int, channel: nat, early: Policy, late: Policy, intervalMs: nat, t0: int, t1: int)
    requires early.Reliable(channel) && late == early.(rttUs := late.rttUs) && t0 <= t1
    ensures Loses(at, channel, early, late, intervalMs, t0, t1) <==>
            t1 - Shorter(late.LossThresholdUs(), GiveUpUs(intervalMs)) <= at < t0 - early.LossThresholdUs()
  {
    hide Reported, ReportOf, With, Staying, Burst, Policy.LossThresholdUs;
    var v := Burst(1, at, channel, channel);
    BurstLost(1, at, channel, channel);
    assert late.Reliable(channel) && v.ChannelOf(2) == channel;
    OnlyGap(v, at, channel, early, intervalMs, t0);
    UnaskedIff(v, early, intervalMs, t0, 2);
    FateTimes(v, early, intervalMs, t0, 2);
    if 2 in With(v, early, intervalMs, t0, Overdue) {
      LosesAsked(v, at, channel, early, late, intervalMs, t0, t1);
    } else if 2 !in With(v, early, intervalMs, t0, GivenUp) {
      OnlyGapWaits(v, at, channel, early, intervalMs, t0);
      OneGapDroppedIff(Reported(v, early, intervalMs, t0), at, channel, late, intervalMs, t1);
    }
  }

  lemma FateTimes(v: View, policy: Policy, intervalMs: nat, now: int, g: nat)
    requires g in v.missing
    ensures g in With(v, policy, intervalMs, now, Overdue) ==> v.missing[g] < now - policy.LossThresholdUs()
    ensures g in With(v, policy, intervalMs, now, GivenUp) ==> v.missing[g] < now - GiveUpUs(intervalMs)
  {
    hide Policy.LossThresholdUs, Policy.Reliable, View.ChannelOf;
  }

  lemma FewAsked(v: View, at: int, channel: nat, early: Policy, late: Policy, intervalMs: nat, t0: int, t1: int)
    requires AfterBurst(v, 1, at, channel) && early.Reliable(channel)
    requires 2 in With(v, early, intervalMs, t0, Overdue)
    ensures |Staying(v, early, intervalMs, t0)| <= MAX_MISSING
    ensures |With(Reported(v, early, intervalMs, t0), late, intervalMs, t1, Overdue)| <= MAX_LISTED
  {
    OnlyGap(v, at, channel, early, intervalMs, t0);
    ReportedMissing(v, early, intervalMs, t0);
    hide Reported;
    var u := Reported(v, early, intervalMs, t0);
    assert With(u, late, intervalMs, t1, Overdue) <= {2};
    Common.SubsetSize(With(u, late, intervalMs, t1, Overdue), {2});
    Common.SubsetSize(Staying(v, early, intervalMs, t0), {2});
  }

  /** Two reports lose a packet, for some time at which its gap was found, exactly when the condition on runs fails:
      something late to the first is neither late to the second nor given up by it. */
  lemma GrowingThresholdLosesIff(channel: nat, early: Policy, late: Policy, intervalMs: nat, t0: int, t1: int)
    requires early.Reliable(channel) && late == early.(rttUs := late.rttUs) && t0 <= t1
    ensures (exists at: int :: Loses(at, channel, early, late, intervalMs, t0, t1))
            <==> !Kept(t0 - early.LossThresholdUs(), late, intervalMs, t1)
  {
    hide Loses;
    forall at: int
      ensures Loses(at, channel, early, late, intervalMs, t0, t1) <==>
              t1 - Shorter(late.LossThresholdUs(), GiveUpUs(intervalMs)) <= at < t0 - early.LossThresholdUs()
    {
      LosesIff(at, channel, early, late, intervalMs, t0, t1);
    }
    if !Kept(t0 - early.LossThresholdUs(), late, intervalMs, t1) {
      var at := t1 - Shorter(late.LossThresholdUs(), GiveUpUs(intervalMs));
      assert Loses(at, channel, early, late, intervalMs, t0, t1);
    }
  }

  lemma AfterNext<P>(events: seq<Event<P>>, e: Event<P>, policy: Policy, intervalMs: nat)
    ensures After(events + [e], policy, intervalMs) == Step(After(events, policy, intervalMs), e, policy, intervalMs)
  {
    assert (events + [e])[..|events|] == events;
  }

  /** Packets 1 to 3 are sent, and the second of them is lost. */
  function OneLost<P>(packet: P, channel: nat, at: int): seq<Event<P>> {
    [PacketSent(1, packet, at)] + [PacketSent(2, packet, at)] + [PacketSent(3, packet, at)]
    + [PacketArrives(1, channel, at)] + [PacketArrives(3, channel, at)]
  }

  function ReportsFollow<P>(early: nat, late: nat, t0: int, t1: int): seq<Event<P>> {
    [HeartbeatArrives(early)] + [ReportMade(t0)] + [HeartbeatArrives(late)] + [ReportMade(t1)] + [ReportArrives(1, t1)]
  }

  lemma AfterOneLost<P>(packet: P, channel: nat, at: int, policy: Policy, intervalMs: nat)
    ensures var w := After(OneLost(packet, channel, at), policy, intervalMs);
            && w.view == Burst(1, at, channel, channel) && w.first == 1 && w.got == {1, 3} && w.sent.Keys == {1, 2, 3}
            && w.reports == [] && w.gaveUp == {} && w.exhausted == {}
            && 2 in w.pending && w.pending[2].retries == 0
  {
    hide Arrived;
    var e1, e2, e3: Event<P> := PacketSent(1, packet, at), PacketSent(2, packet, at), PacketSent(3, packet, at);
    var a1, a3: Event<P> := PacketArrives(1, channel, at), PacketArrives(3, channel, at);
    AfterNext([], e1, policy, intervalMs);
    AfterNext([] + [e1], e2, policy, intervalMs);
    AfterNext([] + [e1] + [e2], e3, policy, intervalMs);
    AfterNext([] + [e1] + [e2] + [e3], a1, policy, intervalMs);
    AfterNext([] + [e1] + [e2] + [e3] + [a1], a3, policy, intervalMs);
    assert [] + [e1] + [e2] + [e3] + [a1] + [a3] == OneLost(packet, channel, at);
    hide After;
    FirstArrival(channel, at);
  }

  lemma FirstArrival(channel: nat, at: int)
    ensures !START.initialized && Arrived(START, 1, channel, at).initialized
  {
  }

  lemma AfterReports<P>(before: seq<Event<P>>, early: nat, late: nat, t0: int, t1: int, policy: Policy, intervalMs: nat)
    requires After(before, policy, intervalMs).reports == []
    ensures var w := After(before, policy, intervalMs);
            var x := After(before + ReportsFollow(early, late, t0, t1), policy, intervalMs);
            var p0, p1 := policy.(rttUs := early), policy.(rttUs := late);
            var u := Reported(w.view, p0, intervalMs, t0);
            && x.sent == w.sent && x.first == w.first && x.got == w.got
            && x.gaveUp <= w.gaveUp + With(w.view, p0, intervalMs, t0, GivenUp) + With(u, p1, intervalMs, t1, GivenUp)
            && (forall s :: s in x.exhausted ==> s in w.exhausted || (s in w.pending && w.pending[s].retries > 0))
            && x.pending == OnHandling(w, ReportOf(u, p1, intervalMs, t1), t1).pending
  {
    hide Reported, ReportOf, With, Handled;
    var h0, r0: Event<P> := HeartbeatArrives(early), ReportMade(t0);
    var h1, r1, a: Event<P> := HeartbeatArrives(late), ReportMade(t1), ReportArrives(1, t1);
    AfterNext(before, h0, policy, intervalMs);
    AfterNext(before + [h0], r0, policy, intervalMs);
    AfterNext(before + [h0] + [r0], h1, policy, intervalMs);
    AfterNext(before + [h0] + [r0] + [h1], r1, policy, intervalMs);
    AfterNext(before + [h0] + [r0] + [h1] + [r1], a, policy, intervalMs);
    assert before + [h0] + [r0] + [h1] + [r1] + [a] == before + ReportsFollow(early, late, t0, t1);
    hide After;
  }

  /** A packet still wanted is dropped: sent, tracked, not received, not given up, not sent in vain. */
  ghost predicate Lost<P>(w: World<P>, k: nat) {
    && k in w.sent && w.first <= k && k !in w.pending
    && k !in w.got && k !in w.gaveUp && k !in w.exhausted
  }

  lemma LostInRun<P>(packet: P, channel: nat, at: int, early: nat, late: nat, t0: int, t1: int, policy: Policy,
      intervalMs: nat)
    requires Loses(at, channel, policy.(rttUs := early), policy.(rttUs := late), intervalMs, t0, t1)
    ensures Lost(After(OneLost(packet, channel, at) + ReportsFollow(early, late, t0, t1), policy, intervalMs), 2)
  {
    hide Reported, ReportOf, With, Burst, After, OneLost, ReportsFollow, OnHandling, Drops;
    var p0, p1 := policy.(rttUs := early), policy.(rttUs := late);
    AfterOneLost(packet, channel, at, policy, intervalMs);
    AfterReports(OneLost(packet, channel, at), early, late, t0, t1, policy, intervalMs);
    var w := After(OneLost(packet, channel, at), policy, intervalMs);
    var u := Reported(w.view, p0, intervalMs, t0);
    FreshDroppedIff(w, ReportOf(u, p1, intervalMs, t1), 2, t1);
  }

  /** Whenever two reports break the condition on runs, some run that makes them loses a packet that is wanted. */
  lemma GrowingRttLosesPacket<P>(packet: P, channel: nat, early: nat, late: nat, t0: int, t1: int, policy: Policy,
      intervalMs: nat) returns (at: int)
    requires policy.Reliable(channel) && t0 <= t1
    requires !Kept(t0 - policy.(rttUs := early).LossThresholdUs(), policy.(rttUs := late), intervalMs, t1)
    ensures at <= t0
    ensures Lost(After(OneLost(packet, channel, at) + ReportsFollow(early, late, t0, t1), policy, intervalMs), 2)
  {
    hide After, Loses, Lost, Kept, Policy.LossThresholdUs;
    var p0, p1 := policy.(rttUs := early), policy.(rttUs := late);
    at := t1 - Shorter(p1.LossThresholdUs(), GiveUpUs(intervalMs));
    LosesSometime(channel, p0, p1, intervalMs, t0, t1);
    LostInRun(packet, channel, at, early, late, t0, t1, policy, intervalMs);
  }

  lemma LosesSometime(channel: nat, early: Policy, late: Policy, intervalMs: nat, t0: int, t1: int)
    requires early.Reliable(channel) && late == early.(rttUs := late.rttUs) && t0 <= t1
    requires !Kept(t0 - early.LossThresholdUs(), late, intervalMs, t1)
    ensures var at := t1 - Shorter(late.LossThresholdUs(), GiveUpUs(intervalMs));
            at <= t0 && Loses(at, channel, early, late, intervalMs, t0, t1)
  {
    hide Loses, Policy.LossThresholdUs;
    LosesIff(t1 - Shorter(late.LossThresholdUs(), GiveUpUs(intervalMs)), channel, early, late, intervalMs, t0, t1);
  }

  /** For one: a report with no round-trip time known yet, then a heartbeat that says 200 milliseconds. */
  lemma GrowingRttExample(channel: nat, policy: Policy, intervalMs: nat)
    requires policy.Reliable(channel) && intervalMs >= 25
    ensures Loses(0, channel, policy.(rttUs := 0), policy.(rttUs := 200000), intervalMs, 100001, 299999)
  {
    hide Loses;
    LosesIff(0, channel, policy.(rttUs := 0), policy.(rttUs := 200000), intervalMs, 100001, 299999);
  }

  // ---------- Gaps given up before the cursor has passed them ----------

  /** A report forgets a gap that the cursor still stands before exactly when the gap is older than the give-up time:
      it is then neither asked for nor skipped. */
  lemma ForgottenUnskippedIff(v: View, policy: Policy, intervalMs: nat, now: int, g: nat)
    requires Sound(v) && v.initialized && g in v.missing && v.next <= g && g !in v.held
    requires policy.Reliable(v.ChannelOf(g)) && |Staying(v, policy, intervalMs, now)| <= MAX_MISSING
    ensures var u := Reported(v, policy, intervalMs, now);
            g !in u.missing && u.next <= g <==> now - v.missing[g] > GiveUpUs(intervalMs)
    ensures var u := Reported(v, policy, intervalMs, now);
            u.next <= g ==> u.initialized && g !in u.held
  {
    hide Reported, With, Passable, Staying, FirstFree, Sound, Policy.LossThresholdUs, Policy.Reliable, View.ChannelOf;
    UnpassedIff(v, policy, intervalMs, now, g);
    ReportedCursor(v, policy, intervalMs, now);
    ReportedMissing(v, policy, intervalMs, now);
    var u, passed := Reported(v, policy, intervalMs, now), v.held + Passable(v, policy, intervalMs, now);
    assert g in u.missing <==> g in Staying(v, policy, intervalMs, now);
    assert u.next == FirstFree(v.next, passed);
    if now - v.missing[g] > GiveUpUs(intervalMs) {
      assert g !in passed;
    }
  }

  lemma UnpassedIff(v: View, policy: Policy, intervalMs: nat, now: int, g: nat)
    requires g in v.missing && policy.Reliable(v.ChannelOf(g))
    ensures g !in Staying(v, policy, intervalMs, now) <==> now - v.missing[g] > GiveUpUs(intervalMs)
    ensures g !in Staying(v, policy, intervalMs, now) ==> g !in Passable(v, policy, intervalMs, now)
  {
  }

  /** The next packet beyond it finds it anew, with the time and the channel of that packet. */
  lemma ForgottenFoundAnew(u: View, g: nat, seqNo: nat, channel: nat, now: int)
    requires u.initialized && u.next <= g < seqNo && g !in u.held && g !in u.missing
    ensures var w := Arrived(u, seqNo, channel, now);
            g in w.missing && w.missing[g] == now && w.ChannelOf(g) == channel && w.next <= g
  {
    assert g in u.Gaps(seqNo);
    var c := FirstFree(u.next, u.held + {seqNo});
    assert g !in u.held + {seqNo};
  }

  /** Reports every 100 milliseconds, the first of them late: number 2, missing since time 0, is forgotten at 1.3
      seconds with the cursor before it, and found anew by packet 4. */
  lemma ForgottenExample(channel: nat, policy: Policy)
    requires policy.Reliable(channel)
    ensures var u := Reported(Burst(1, 0, channel, channel), policy, 100, 1300000);
            && 2 !in u.missing && u.next <= 2
            && !Drops(ReportOf(Burst(1, 0, channel, channel), policy, 100, 1300000), 2)
            && 2 in Arrived(u, 4, channel, 1300001).missing
            && Arrived(u, 4, channel, 1300001).missing[2] == 1300001
  {
    hide Reported, ReportOf, Burst, Arrived, Drops, With;
    var v := Burst(1, 0, channel, channel);
    BurstLost(1, 0, channel, channel);
    OnlyGap(v, 0, channel, policy, 100, 1300000);
    OneGapDroppedIff(v, 0, channel, policy, 100, 1300000);
    FewStay(v, 0, channel, policy, 100, 1300000);
    ForgottenUnskippedIff(v, policy, 100, 1300000, 2);
    ForgottenFoundAnew(Reported(v, policy, 100, 1300000), 2, 4, channel, 1300001);
  }

  lemma FewStay(v: View, at: int, channel: nat, policy: Policy, intervalMs: nat, now: int)
    requires AfterBurst(v, 1, at, channel)
    ensures |Staying(v, policy, intervalMs, now)| <= MAX_MISSING
  {
    OnlyGap(v, at, channel, policy, intervalMs, now);
    assert Staying(v, policy, intervalMs, now) <= {2};
    Common.SubsetSize(Staying(v, policy, intervalMs, now), {2});
  }

  /** A gap can be asked for at some time exactly when the loss threshold lies below the give-up time. */
  lemma AskedForIff(v: View, policy: Policy, intervalMs: nat, g: nat)
    requires g in v.missing && policy.Reliable(v.ChannelOf(g))
    ensures (exists now :: g in With(v, policy, intervalMs, now, Overdue))
            <==> policy.LossThresholdUs() < GiveUpUs(intervalMs)
  {
    if policy.LossThresholdUs() < GiveUpUs(intervalMs) {
      assert g in With(v, policy, intervalMs, v.missing[g] + policy.LossThresholdUs() + 1, Overdue);
    }
  }

  /** On a link too slow for the report interval nothing is ever listed and the cursor does not pass a gap. */
  lemma SlowLinkNeverSkips(v: View, policy: Policy, intervalMs: nat, now: int)
    requires Sound(v) && AllReliable(v, policy) && policy.LossThresholdUs() >= GiveUpUs(intervalMs)
    ensures LostList(v, policy, intervalMs, now) == []
    ensures Reported(v, policy, intervalMs, now).next == v.next
  {
    NothingPassable(v, policy, intervalMs, now);
    hide Reported, Passable, With, Sorted;
    ReportedCursor(v, policy, intervalMs, now);
    if v.initialized {
      assert v.held + {} == v.held;
      FirstFreeIs(v.next, v.held, v.next);
    }
  }

  lemma NothingPassable(v: View, policy: Policy, intervalMs: nat, now: int)
    requires AllReliable(v, policy) && policy.LossThresholdUs() >= GiveUpUs(intervalMs)
    ensures Passable(v, policy, intervalMs, now) == {}
    ensures LostList(v, policy, intervalMs, now) == []
  {
    assert With(v, policy, intervalMs, now, Overdue) == {};
  }

  /** A gap filled at or beyond the cursor stays in the table, and is asked for although it has arrived. */
  lemma FilledGapStaysIff(v: View, seqNo: nat, channel: nat, now: int)
    requires v.initialized && seqNo > 0
    ensures seqNo in Arrived(v, seqNo, channel, now).missing <==> seqNo in v.missing && seqNo >= v.next
  {
    hide FirstFree;
  }

  /** The first packet to arrive sets the base: what was sent before it is dropped unheard. */
  lemma BeforeFirstIsDropped(first: nat, k: nat, channel: nat, now: int, policy: Policy, intervalMs: nat)
    requires 0 < k < first
    ensures Drops(ReportOf(Arrived(START, first, channel, now), policy, intervalMs, now), k)
  {
    var v := Arrived(START, first, channel, now);
    assert Passable(v, policy, intervalMs, now) == {} && With(v, policy, intervalMs, now, Overdue) == {};
    hide Reported, Passable, With, Sorted;
    ReportedCursor(v, policy, intervalMs, now);
    FirstFreeIs(first + 1, v.held + {}, first + 1);
  }
}
