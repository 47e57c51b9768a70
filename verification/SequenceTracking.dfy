/** What one peer keeps about the sequence numbers it has seen, and the reports it makes of them. */
module SequenceTracking {
  import opened OrderedSets

  const MAX_RETRIES := 10
  const MAX_MISSING := 4096
  const MAX_LISTED := 256

  /** Which channels retransmit and whether the other side does is fixed by the handshake; the round-trip time is
      the one of its latest heartbeat, zero before the first. */
  datatype Policy = Policy(channelReliable: seq<bool>, peerRetransmits: bool, rttUs: nat) {
    predicate Reliable(channel: nat) {
      channel < 8 && channel < |channelReliable| && channelReliable[channel] && peerRetransmits
    }

    /** The 32-bit product wraps; a round-trip time below ten milliseconds waits a fixed time. */
    function LossThresholdUs(): nat {
      var rtt := if rttUs > 0 then rttUs else 10000;
      if rtt < 10000 then 100000 else rtt * 7 % 0x1_0000_0000 / 2
    }
  }

  /** Three and a half round-trip times, exactly as long as seven of them fit 32 bits; 100 milliseconds for a trip below
      ten, and 35 while none is known. */
  lemma ThresholdIs(policy: Policy)
    ensures policy.rttUs == 0 ==> policy.LossThresholdUs() == 35000
    ensures 0 < policy.rttUs < 10000 ==> policy.LossThresholdUs() == 100000
    ensures policy.rttUs >= 10000 ==>
              (2 * policy.LossThresholdUs() <= 7 * policy.rttUs <= 2 * policy.LossThresholdUs() + 1
               <==> policy.rttUs < 613566757)
  {
  }

  function GiveUpUs(intervalMs: nat): nat { intervalMs * (MAX_RETRIES + 2) * 1000 }

  /** The fields of the peer that concern sequence numbers. Times are in microseconds. */
  datatype View = View(initialized: bool, next: nat, held: set<nat>, missing: map<nat, int>, channels: map<nat, nat>) {
    function ChannelOf(g: nat): nat {
      if g in channels then channels[g] else 0
    }

    function Ack(): nat {
      if initialized && next > 0 then next - 1 else 0
    }

    function Gaps(seqNo: nat): set<nat> {
      set g | next <= g < seqNo && g !in held
    }

    /** The cursor moves to c and what it passes is forgotten. */
    function MovedTo(c: nat, holding: set<nat>): View {
      this.(next := c, held := Outside(holding, next, c))
    }
  }

  const START := View(false, 0, {}, map[], map[])

  /** The cursor stands on a number that is not held; nothing is held before the first packet. */
  predicate Sound(v: View) {
    if v.initialized then v.next !in v.held else v.held == {} && v.missing == map[]
  }

  /** A gap already known keeps the time it was found at. */
  function Marked(missing: map<nat, int>, gaps: set<nat>, now: int): map<nat, int> {
    map g | g in missing.Keys + gaps :: if g in missing then missing[g] else now
  }

  /** A gap takes the channel of the last packet that showed it. */
  function Recolored(channels: map<nat, nat>, gaps: set<nat>, channel: nat): map<nat, nat> {
    map g | g in channels.Keys + gaps :: if g in gaps then channel else channels[g]
  }

  /** The state after a packet numbered seqNo on a channel; number 0 is not tracked. */
  function Arrived(v: View, seqNo: nat, channel: nat, now: int): View {
    if seqNo == 0 then v
    else if !v.initialized then v.(initialized := true, next := seqNo + 1)
    else
      var c := FirstFree(v.next, v.held + {seqNo});
      var moved := v.MovedTo(c, v.held + {seqNo});
      if seqNo >= v.next then
        moved.(missing := Marked(v.missing, v.Gaps(seqNo), now),
               channels := Recolored(v.channels, v.Gaps(seqNo), channel))
      else
        moved.(missing := v.missing - {seqNo},
               channels := if seqNo in v.missing then v.channels - {seqNo} else v.channels)
  }

  // ---------- Reports ----------

  /** What a report does with a missing number. */
  datatype Fate = Skipped | GivenUp | Overdue | Waiting

  function FateOf(v: View, policy: Policy, intervalMs: nat, now: int, g: nat): Fate
    requires g in v.missing
  {
    if !policy.Reliable(v.ChannelOf(g)) then Skipped
    else if now - v.missing[g] > GiveUpUs(intervalMs) then GivenUp
    else if now - v.missing[g] > policy.LossThresholdUs() then Overdue
    else Waiting
  }

  function With(v: View, policy: Policy, intervalMs: nat, now: int, fate: Fate): set<nat> {
    set g | g in v.missing && FateOf(v, policy, intervalMs, now, g) == fate
  }

  /** Above the limit the oldest entries go. */
  function Capped(missing: map<nat, int>): map<nat, int>
    decreases |missing|
  {
    if |missing| > MAX_MISSING then Capped(missing - {Least(missing.Keys)}) else missing
  }

  /** The numbers a report may take the cursor past. */
  function Passable(v: View, policy: Policy, intervalMs: nat, now: int): set<nat> {
    With(v, policy, intervalMs, now, Skipped) + With(v, policy, intervalMs, now, Overdue)
  }

  /** The state once the numbers in done have been judged. */
  function Judged(v: View, policy: Policy, intervalMs: nat, now: int, done: set<nat>): View {
    var skipped := With(v, policy, intervalMs, now, Skipped);
    var forgotten := done * (skipped + With(v, policy, intervalMs, now, GivenUp));
    var passed := done * (skipped + With(v, policy, intervalMs, now, Overdue));
    v.MovedTo(if v.initialized then FirstFree(v.next, v.held + passed) else v.next, v.held)
     .(missing := v.missing - forgotten, channels := v.channels - forgotten)
  }

  function JudgedOne(v: View, policy: Policy, intervalMs: nat, now: int, g: nat): View
    requires g in v.missing
  {
    var fate := FateOf(v, policy, intervalMs, now, g);
    var passing := (fate.Skipped? || fate.Overdue?) && v.initialized && g == v.next;
    var c := if passing then FirstFree(g + 1, v.held) else v.next;
    var w := v.(next := c, held := Outside(v.held, v.next + 1, c));
    if fate.Skipped? || fate.GivenUp? then w.(missing := v.missing - {g}, channels := v.channels - {g}) else w
  }

  /** The state after a report. */
  function Reported(v: View, policy: Policy, intervalMs: nat, now: int): View {
    var all := Judged(v, policy, intervalMs, now, v.missing.Keys);
    var left := Capped(all.missing);
    all.(missing := left, channels := all.channels - (all.missing.Keys - left.Keys))
  }

  /** Every overdue number, in ascending order. */
  function LostList(v: View, policy: Policy, intervalMs: nat, now: int): seq<nat> {
    Sorted(With(v, policy, intervalMs, now, Overdue))
  }

  /** The count is cut to sixteen bits and then to 256; the numbers beyond it stay out of the payload. */
  function ListedCount(n: nat): (k: nat)
    ensures k <= n
  {
    var low := n % 0x1_0000;
    if low > MAX_LISTED then MAX_LISTED else low
  }

  lemma NoGaps(v: View)
    ensures v.Gaps(v.next) == {}
    ensures forall now: int :: Marked(v.missing, {}, now) == v.missing
    ensures forall channel: nat :: Recolored(v.channels, {}, channel) == v.channels
  {}

  lemma NextGap(v: View, g: nat)
    requires v.next <= g
    ensures v.Gaps(g + 1) == if g in v.held then v.Gaps(g) else v.Gaps(g) + {g}
  {}

  lemma MarkedMore(missing: map<nat, int>, gaps: set<nat>, now: int, g: nat)
    ensures var m := Marked(missing, gaps, now);
            Marked(missing, gaps + {g}, now) == if g in m then m else m[g := now]
  {
    var m := Marked(missing, gaps, now);
    assert missing.Keys + (gaps + {g}) == (missing.Keys + gaps) + {g};
  }

  lemma RecoloredMore(channels: map<nat, nat>, gaps: set<nat>, channel: nat, g: nat)
    ensures Recolored(channels, gaps + {g}, channel) == Recolored(channels, gaps, channel)[g := channel]
  {
    assert channels.Keys + (gaps + {g}) == (channels.Keys + gaps) + {g};
  }

  /** Skipping the gaps in ascending order takes the cursor past all of them that it can reach. */
  lemma CursorStep(from: nat, held: set<nat>, passed: set<nat>, g: nat, rest: set<nat>)
    requires forall p :: p in passed ==> p < g
    requires rest == set s | s in held && !(from <= s < FirstFree(from, held + passed))
    ensures var c := FirstFree(from, held + passed);
            FirstFree(from, held + (passed + {g})) == if g == c then FirstFree(g + 1, rest) else c
  {
    var c := FirstFree(from, held + passed);
    if g == c {
      var f := FirstFree(g + 1, rest);
      assert f !in held + (passed + {g});
      forall k | from <= k < f ensures k in held + (passed + {g}) {
        assert k < c ==> k in held + passed;
        assert g + 1 <= k ==> k in rest;
      }
      FirstFreeIs(from, held + (passed + {g}), f);
    } else {
      assert c !in held + (passed + {g});
      forall k | from <= k < c ensures k in held + (passed + {g}) {
        assert k in held + passed;
      }
      FirstFreeIs(from, held + (passed + {g}), c);
    }
  }

  lemma DoneMore(done: set<nat>, g: nat, s: set<nat>)
    ensures (done + {g}) * s == if g in s then done * s + {g} else done * s
  {
  }

  /** Judging leaves the others as they were. */
  lemma FateKept(v: View, policy: Policy, intervalMs: nat, now: int, done: set<nat>, g: nat)
    requires g in v.missing && g !in done
    ensures var was := Judged(v, policy, intervalMs, now, done);
            g in was.missing && FateOf(was, policy, intervalMs, now, g) == FateOf(v, policy, intervalMs, now, g)
  {
  }

  lemma JudgedCursor(v: View, policy: Policy, intervalMs: nat, now: int, done: set<nat>, g: nat)
    requires v.initialized && g in v.missing && g !in done
    requires forall d :: d in done ==> d < g
    ensures var fate := FateOf(v, policy, intervalMs, now, g);
            var was := Judged(v, policy, intervalMs, now, done);
            Judged(v, policy, intervalMs, now, done + {g}).next ==
              if (fate.Skipped? || fate.Overdue?) && g == was.next then FirstFree(g + 1, was.held) else was.next
  {
    hide FirstFree;
    var pass := With(v, policy, intervalMs, now, Skipped) + With(v, policy, intervalMs, now, Overdue);
    DoneMore(done, g, pass);
    if g in pass {
      CursorStep(v.next, v.held, done * pass, g, Judged(v, policy, intervalMs, now, done).held);
    }
  }

  lemma JudgedMaps(v: View, policy: Policy, intervalMs: nat, now: int, done: set<nat>, g: nat)
    requires g in v.missing && g !in done
    ensures var fate := FateOf(v, policy, intervalMs, now, g);
            var was, more := Judged(v, policy, intervalMs, now, done), Judged(v, policy, intervalMs, now, done + {g});
            && more.missing == (if fate.Skipped? || fate.GivenUp? then was.missing - {g} else was.missing)
            && more.channels == (if fate.Skipped? || fate.GivenUp? then was.channels - {g} else was.channels)
  {
    var gone := With(v, policy, intervalMs, now, Skipped) + With(v, policy, intervalMs, now, GivenUp);
    DoneMore(done, g, gone);
  }

  lemma JudgedHeld(v: View, policy: Policy, intervalMs: nat, now: int, done: set<nat>, g: nat)
    requires v.initialized ==> v.next !in v.held
    requires g in v.missing && g !in done
    ensures var was, more := Judged(v, policy, intervalMs, now, done), Judged(v, policy, intervalMs, now, done + {g});
            && was.initialized == more.initialized == v.initialized
            && (was.next <= more.next && was.next !in v.held ==>
                  more.held == set s | s in was.held && !(was.next < s < more.next))
  {
    hide With, FirstFree;
  }

  lemma JudgedMore(v: View, policy: Policy, intervalMs: nat, now: int, done: set<nat>, g: nat)
    requires g in v.missing && g !in done
    requires v.initialized ==> v.next !in v.held
    requires forall d :: d in done ==> d < g
    ensures var was := Judged(v, policy, intervalMs, now, done);
            && g in was.missing
            && Judged(v, policy, intervalMs, now, done + {g}) == JudgedOne(was, policy, intervalMs, now, g)
            && (g in With(v, policy, intervalMs, now, Overdue)
                <==> FateOf(was, policy, intervalMs, now, g) == Overdue)
  {
    FateKept(v, policy, intervalMs, now, done, g);
    JudgedMaps(v, policy, intervalMs, now, done, g);
    JudgedHeld(v, policy, intervalMs, now, done, g);
    if v.initialized {
      JudgedCursor(v, policy, intervalMs, now, done, g);
    }
    CursorFree(v, policy, intervalMs, now, done);
    hide Judged, FateOf;
  }

  lemma CursorFree(v: View, policy: Policy, intervalMs: nat, now: int, done: set<nat>)
    requires v.initialized ==> v.next !in v.held
    ensures var was := Judged(v, policy, intervalMs, now, done);
            && (v.initialized ==> was.next !in v.held)
            && (!v.initialized ==> was.next == v.next && was.held == v.held)
  {
  }

  lemma JudgedNone(v: View, policy: Policy, intervalMs: nat, now: int)
    requires v.initialized ==> v.next !in v.held
    ensures Judged(v, policy, intervalMs, now, {}) == v
    ensures With(v, policy, intervalMs, now, Overdue) <= v.missing.Keys
    ensures Sorted({}) == []
  {
    var w := Judged(v, policy, intervalMs, now, {});
    if v.initialized {
      FirstFreeIs(v.next, v.held, v.next);
      assert v.held + {} == v.held;
    }
    assert w.missing == v.missing && w.channels == v.channels;
    assert w.held == v.held;
  }

  ghost predicate Below(done: set<nat>, todo: set<nat>) {
    forall d, t :: d in done && t in todo ==> d < t
  }

  lemma LeastMovesOver(done: set<nat>, todo: set<nat>)
    requires todo != {} && Below(done, todo)
    ensures var g := Least(todo);
            && g !in done && (forall d :: d in done ==> d < g)
            && Below(done + {g}, todo - {g}) && done + {g} + (todo - {g}) == done + todo
  {
    var g := Least(todo);
    forall d, t | d in done + {g} && t in todo - {g} ensures d < t {
      assert t in todo;
    }
  }

  /** Where the ascending walk stands: done lies below todo, and the list is complete up to there. */
  ghost predicate Walk(v: View, policy: Policy, intervalMs: nat, now: int, done: set<nat>, todo: set<nat>,
      lost: seq<nat>) {
    && Below(done, todo) && done + todo == v.missing.Keys
    && lost + Sorted(todo * With(v, policy, intervalMs, now, Overdue)) == LostList(v, policy, intervalMs, now)
  }

  lemma WalkStarts(v: View, policy: Policy, intervalMs: nat, now: int)
    ensures Walk(v, policy, intervalMs, now, {}, v.missing.Keys, [])
  {
    var overdue := With(v, policy, intervalMs, now, Overdue);
    hide Sorted;
    assert v.missing.Keys * overdue == overdue;
  }

  lemma Regroup<T>(a: seq<T>, x: T, b: seq<T>)
    ensures a + ([x] + b) == a + [x] + b
  {
  }

  lemma ListStep(lost: seq<nat>, todo: set<nat>, chosen: set<nat>, whole: seq<nat>)
    requires todo != {} && lost + Sorted(todo * chosen) == whole
    ensures var g := Least(todo);
            (if g in chosen then lost + [g] else lost) + Sorted((todo - {g}) * chosen) == whole
  {
    var g := Least(todo);
    SortedStep(todo, chosen);
    Regroup(lost, g, Sorted((todo - {g}) * chosen));
    hide *;
  }

  lemma WalkSteps(v: View, policy: Policy, intervalMs: nat, now: int, done: set<nat>, todo: set<nat>, lost: seq<nat>)
    requires todo != {} && Walk(v, policy, intervalMs, now, done, todo, lost)
    ensures var g := Least(todo);
            && g in v.missing && g !in done && (forall d :: d in done ==> d < g)
            && Walk(v, policy, intervalMs, now, done + {g}, todo - {g},
                    if g in With(v, policy, intervalMs, now, Overdue) then lost + [g] else lost)
  {
    var overdue := With(v, policy, intervalMs, now, Overdue);
    ListStep(lost, todo, overdue, LostList(v, policy, intervalMs, now));
    LeastMovesOver(done, todo);
    assert Least(todo) in done + todo;
    hide Sorted, With, LostList, Below;
  }

  lemma WalkEnds(v: View, policy: Policy, intervalMs: nat, now: int, done: set<nat>, lost: seq<nat>)
    requires Walk(v, policy, intervalMs, now, done, {}, lost)
    ensures done == v.missing.Keys && lost == LostList(v, policy, intervalMs, now)
  {
    assert {} * With(v, policy, intervalMs, now, Overdue) == {};
    assert lost + [] == lost;
  }

  lemma {:induction false} CappedKeeps(missing: map<nat, int>)
    ensures var left := Capped(missing);
            && left.Keys <= missing.Keys
            && (forall g :: g in left ==> left[g] == missing[g])
            && |left| == (if |missing| > MAX_MISSING then MAX_MISSING else |missing|)
            && forall g, h :: g in missing && g !in left && h in left ==> g < h
    decreases |missing|
  {
    if |missing| > MAX_MISSING {
      var m := Least(missing.Keys);
      var fewer := missing - {m};
      assert fewer.Keys == missing.Keys - {m} && |fewer.Keys| == |missing.Keys| - 1;
      CappedKeeps(fewer);
      forall g, h | g in missing && g !in Capped(missing) && h in Capped(missing) ensures g < h {
        assert h in fewer && (g == m || g in fewer);
      }
    }
  }

  lemma ReportedSound(v: View, policy: Policy, intervalMs: nat, now: int)
    requires Sound(v)
    ensures Sound(Reported(v, policy, intervalMs, now))
    ensures Reported(v, policy, intervalMs, now).Ack() == Judged(v, policy, intervalMs, now, v.missing.Keys).Ack()
  {
    CursorFree(v, policy, intervalMs, now, v.missing.Keys);
    if !v.initialized {
      CappedKeeps(Judged(v, policy, intervalMs, now, v.missing.Keys).missing);
    }
  }

  lemma ReportedCursor(v: View, policy: Policy, intervalMs: nat, now: int)
    requires Sound(v)
    ensures var r := Reported(v, policy, intervalMs, now);
            && r.initialized == v.initialized
            && r.next == (if v.initialized then FirstFree(v.next, v.held + Passable(v, policy, intervalMs, now))
                else v.next)
            && r.held == Outside(v.held, v.next, r.next)
  {
    var passed := Passable(v, policy, intervalMs, now);
    assert v.missing.Keys * passed == passed;
  }

  /** What stays missing after a report that does not reach the limit. */
  function Staying(v: View, policy: Policy, intervalMs: nat, now: int): set<nat> {
    v.missing.Keys - (With(v, policy, intervalMs, now, Skipped) + With(v, policy, intervalMs, now, GivenUp))
  }

  lemma JudgedMissing(v: View, policy: Policy, intervalMs: nat, now: int)
    ensures var all := Judged(v, policy, intervalMs, now, v.missing.Keys);
            && all.missing.Keys == Staying(v, policy, intervalMs, now)
            && (forall g :: g in all.missing ==> all.missing[g] == v.missing[g])
            && (forall g :: g in all.missing ==> all.ChannelOf(g) == v.ChannelOf(g))
  {
    var gone := With(v, policy, intervalMs, now, Skipped) + With(v, policy, intervalMs, now, GivenUp);
    assert v.missing.Keys * gone == gone;
  }

  lemma ReportedMissing(v: View, policy: Policy, intervalMs: nat, now: int)
    ensures var r := Reported(v, policy, intervalMs, now);
            && r.missing.Keys <= Staying(v, policy, intervalMs, now)
            && (forall g :: g in r.missing ==> r.missing[g] == v.missing[g])
            && (forall g :: g in r.missing ==> r.ChannelOf(g) == v.ChannelOf(g))
            && (|Staying(v, policy, intervalMs, now)| <= MAX_MISSING ==>
                  r.missing.Keys == Staying(v, policy, intervalMs, now))
  {
    JudgedMissing(v, policy, intervalMs, now);
    hide Judged, Staying, Capped;
    var all := Judged(v, policy, intervalMs, now, v.missing.Keys);
    CappedKeeps(all.missing);
    var r := Reported(v, policy, intervalMs, now);
    assert r.missing == Capped(all.missing);
    if |all.missing| <= MAX_MISSING {
      assert |all.missing.Keys| == |all.missing| == |r.missing| == |r.missing.Keys|;
      SubsetOfSameSize(r.missing.Keys, all.missing.Keys);
    }
  }

  lemma SubsetOfSameSize(a: set<nat>, b: set<nat>)
    requires a <= b && |a| == |b|
    ensures a == b
  {
    assert b == a + (b - a);
  }

  // ---------- The peer ----------

  class PeerSequences {
    var policy: Policy
    var initialized: bool
    var next: nat
    var held: set<nat>
    var missing: map<nat, int>
    var channels: map<nat, nat>

    function AsView(): View
      reads this
    {
      View(initialized, next, held, missing, channels)
    }

    constructor (policy: Policy)
      ensures Valid() && AsView() == START && this.policy == policy
    {
      this.policy := policy;
      initialized, next, held, missing, channels := false, 0, {}, map[], map[];
    }

    /** A heartbeat replaces the round-trip time. */
    method HearHeartbeat(rttUs: nat)
      modifies `policy
      ensures policy == old(policy).(rttUs := rttUs)
    {
      policy := policy.(rttUs := rttUs);
    }

    /** Passes the numbers already held. */
    method Advance()
      modifies `next, `held
      ensures AsView() == old(AsView()).MovedTo(FirstFree(old(next), old(held)), old(held))
    {
      ghost var from, all := next, held;
      while next in held
        invariant from <= next && held == set s | s in all && !(from <= s < next)
        invariant forall k :: from <= k < next ==> k in all
        decreases held
      {
        held := held - {next};
        next := next + 1;
      }
      FirstFreeIs(from, all, next);
    }

    /** Every number from the cursor up to seqNo that is not held is missing. */
    method MarkGaps(seqNo: nat, channel: nat, now: int)
      requires next <= seqNo
      modifies `missing, `channels
      ensures missing == Marked(old(missing), old(AsView()).Gaps(seqNo), now)
      ensures channels == Recolored(old(channels), old(AsView()).Gaps(seqNo), channel)
    {
      hide Marked, Recolored, View.Gaps;
      ghost var before := AsView();
      var g := next;
      NoGaps(before);
      while g < seqNo
        invariant before.next <= g <= seqNo
        invariant missing == Marked(before.missing, before.Gaps(g), now)
        invariant channels == Recolored(before.channels, before.Gaps(g), channel)
      {
        NextGap(before, g);
        if g !in held {
          MarkedMore(before.missing, before.Gaps(g), now, g);
          RecoloredMore(before.channels, before.Gaps(g), channel, g);
          if g !in missing {
            missing := missing[g := now];
          }
          channels := channels[g := channel];
        }
        g := g + 1;
      }
    }

    method Arrive(seqNo: nat, channel: nat, now: int)
      requires Valid()
      modifies `initialized, `next, `held, `missing, `channels
      ensures Valid() && AsView() == Arrived(old(AsView()), seqNo, channel, now)
    {
      if seqNo == 0 {
      } else if !initialized {
        next := seqNo + 1;
        initialized := true;
      } else if seqNo >= next {
        MarkGaps(seqNo, channel, now);
        held := held + {seqNo};
        Advance();
      } else {
        if seqNo in missing {
          missing := missing - {seqNo};
          channels := channels - {seqNo};
        }
        held := held + {seqNo};
        Advance();
      }
    }

    /** The cursor passes a gap only when the gap is the very next number. */
    method SkipGap(g: nat)
      modifies `next, `held
      ensures AsView() ==
        if old(initialized) && g == old(next) then
          old(AsView()).(next := g + 1).MovedTo(FirstFree(g + 1, old(held)), old(held))
        else old(AsView())
    {
      if initialized && g == next {
        next := next + 1;
        Advance();
      }
    }

    ghost predicate Valid()
      reads this
    {
      Sound(AsView())
    }

    /** One missing number: forgotten and skipped, forgotten, listed and skipped, or left waiting. */
    method Judge(g: nat, intervalMs: nat, now: int) returns (overdue: bool)
      requires g in missing
      modifies `next, `held, `missing, `channels
      ensures AsView() == JudgedOne(old(AsView()), policy, intervalMs, now, g)
      ensures overdue == (FateOf(old(AsView()), policy, intervalMs, now, g) == Overdue)
    {
      var channel := if g in channels then channels[g] else 0;
      var elapsed := now - missing[g];
      overdue := false;
      if !policy.Reliable(channel) {
        SkipGap(g);
        missing, channels := missing - {g}, channels - {g};
      } else if elapsed > GiveUpUs(intervalMs) {
        missing, channels := missing - {g}, channels - {g};
      } else if elapsed > policy.LossThresholdUs() {
        overdue := true;
        SkipGap(g);
      }
    }

    /** Above the limit the oldest entries go. */
    method Cap()
      modifies `missing, `channels
      ensures missing == Capped(old(missing))
      ensures channels == old(channels) - (old(missing).Keys - missing.Keys)
    {
      while |missing| > MAX_MISSING
        invariant Capped(missing) == Capped(old(missing)) && missing.Keys <= old(missing).Keys
        invariant channels == old(channels) - (old(missing).Keys - missing.Keys)
        decreases |missing|
      {
        var first := Least(missing.Keys);
        ghost var fewer := missing - {first};
        assert fewer.Keys == missing.Keys - {first} && |fewer.Keys| == |missing.Keys| - 1;
        channels := channels - {first};
        missing := missing - {first};
      }
    }

    /** Judges every missing number in ascending order. */
    method JudgeAll(intervalMs: nat, now: int) returns (lost: seq<nat>)
      requires Valid()
      modifies `next, `held, `missing, `channels
      ensures AsView() == Judged(old(AsView()), policy, intervalMs, now, old(missing).Keys)
      ensures lost == LostList(old(AsView()), policy, intervalMs, now)
    {
      hide Judged, JudgedOne, With, FateOf, Sorted, Walk, LostList;
      ghost var before := AsView();
      var todo := missing.Keys;
      ghost var done := {};
      lost := [];
      JudgedNone(before, policy, intervalMs, now);
      WalkStarts(before, policy, intervalMs, now);
      while todo != {}
        invariant Walk(before, policy, intervalMs, now, done, todo, lost)
        invariant AsView() == Judged(before, policy, intervalMs, now, done)
        decreases todo
      {
        var g := Least(todo);
        WalkSteps(before, policy, intervalMs, now, done, todo, lost);
        JudgedMore(before, policy, intervalMs, now, done, g);
        var overdue := Judge(g, intervalMs, now);
        if overdue {
          lost := lost + [g];
        }
        done, todo := done + {g}, todo - {g};
      }
      WalkEnds(before, policy, intervalMs, now, done, lost);
    }

    /** The loss list and the acknowledgement that go out. */
    method Report(intervalMs: nat, now: int) returns (ack: nat, listed: seq<nat>)
      requires Valid()
      modifies `next, `held, `missing, `channels
      ensures Valid() && AsView() == Reported(old(AsView()), policy, intervalMs, now)
      ensures ack == AsView().Ack()
      ensures var lost := LostList(old(AsView()), policy, intervalMs, now);
              listed == lost[..ListedCount(|lost|)]
    {
      hide Judged, With, Capped;
      ReportedSound(AsView(), policy, intervalMs, now);
      var lost := JudgeAll(intervalMs, now);
      Cap();
      ack := if initialized then (if next > 0 then next - 1 else 0) else 0;
      listed := lost[..ListedCount(|lost|)];
    }
  }
}
