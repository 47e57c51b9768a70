/** Whole runs of a receiver over fragments of sent messages, in any order, with any loss and repetition, and with
    the periodic sweep that forgets what is old. */
module MessageRuns {
  import opened Galois
  import opened ReedSolomon
  import opened Vandermonde
  import opened Decoder
  import opened Fragmenter
  import opened Reassembler
  import opened MessageTransfer

  datatype Event = Arrival(packet: Packet, now: int, later: int, link: Link) | Sweep(at: int, deadTimeout: int)

  ghost predicate ArrivalOf(events: seq<Event>, k: nat, id: nat) {
    k < |events| && events[k].Arrival? && events[k].packet.messageId == id
  }

  ghost predicate GenuineEvents(events: seq<Event>, sent: map<nat, Sent>) {
    forall k: nat | k < |events| && events[k].Arrival? ::
      events[k].packet.messageId in sent && Genuine(events[k].packet, sent[events[k].packet.messageId])
  }

  ghost predicate AllSendable(sent: map<nat, Sent>, maxBytes: nat) {
    forall id | id in sent :: 0 < id && sent[id].Sendable(maxBytes)
  }

  // ---------- What a run promises ----------

  /** The k-th event brought a verdict on the message. */
  ghost predicate Decided(events: seq<Event>, log: seq<Verdict>, k: nat, id: nat) {
    k < |log| && ArrivalOf(events, k, id) && log[k] != Pending
  }

  /** A sweep that comes the dead timeout or more after the k-th event. */
  ghost predicate Forgets(events: seq<Event>, k: nat, s: nat) {
    && k < s < |events| && events[k].Arrival? && events[s].Sweep?
    && events[s].at - events[k].now >= events[s].deadTimeout
  }

  /** Some fragment of the message had waited long enough when the k-th event came. */
  ghost predicate Waited(events: seq<Event>, k: nat, id: nat) {
    exists i: nat :: i <= k && Overslept(events, i, k, id)
  }

  ghost predicate Overslept(events: seq<Event>, i: nat, k: nat, id: nat) {
    && ArrivalOf(events, i, id) && ArrivalOf(events, k, id)
    && events[k].later - events[i].now >= LossWait(events[k].link)
  }

  /** What is delivered is what was sent, and what is lost had waited. */
  ghost predicate VerdictRight(events: seq<Event>, k: nat, v: Verdict, sent: map<nat, Sent>) {
    v != Pending ==>
      && k < |events| && events[k].Arrival? && events[k].packet.messageId in sent
      && (v.Delivered? ==> v.message == sent[events[k].packet.messageId].payload)
      && (v.Lost? ==> Waited(events, k, events[k].packet.messageId))
  }

  ghost predicate LogRight(events: seq<Event>, log: seq<Verdict>, sent: map<nat, Sent>) {
    forall k: nat | k < |log| :: VerdictRight(events, k, log[k], sent)
  }

  ghost predicate ForgottenBetween(events: seq<Event>, k: nat, l: nat) {
    exists s: nat :: s < l && Forgets(events, k, s)
  }

  /** Between two verdicts on a message comes a sweep that forgets the first. */
  ghost predicate Separated(events: seq<Event>, log: seq<Verdict>) {
    forall k: nat, l: nat, id: nat | k < l && Decided(events, log, k, id) && Decided(events, log, l, id) ::
      ForgottenBetween(events, k, l)
  }

  /** No sweep forgets anything of the message. */
  ghost predicate Undisturbed(events: seq<Event>, id: nat) {
    forall k: nat, s: nat | ArrivalOf(events, k, id) :: !Forgets(events, k, s)
  }

  /** No fragment of the message comes so late that it may be declared lost. */
  ghost predicate Prompt(events: seq<Event>, id: nat) {
    forall i: nat, k: nat | i <= k :: !Overslept(events, i, k, id)
  }

  ghost predicate Arrives(events: seq<Event>, p: Packet) {
    exists k: nat :: k < |events| && events[k].Arrival? && events[k].packet == p
  }

  /** The pieces of the message that never arrive. */
  ghost function LostPieces(events: seq<Event>, m: Sent, id: nat): set<nat>
    requires m.width > 0
  {
    set i: nat | i < |m.Pieces()| && !Arrives(events, m.PacketNo(id, i))
  }

  /** As many first parities arrive as pieces are lost, no two of which are 256 apart or a multiple of that. */
  ghost predicate Covered(events: seq<Event>, m: Sent, id: nat)
    requires m.width > 0
  {
    var lost := LostPieces(events, m, id);
    && (forall i, j | i in lost && j in lost && i != j :: i % 256 != j % 256)
    && |lost| <= m.parityCount
    && forall i: nat | |m.Pieces()| <= i < |m.Pieces()| + |lost| :: Arrives(events, m.PacketNo(id, i))
  }

  /** The message gets one verdict, no more and no less. */
  ghost predicate DecidedOnce(events: seq<Event>, log: seq<Verdict>, id: nat) {
    exists k: nat :: Decided(events, log, k, id) && forall l: nat | Decided(events, log, l, id) :: l == k
  }

  // ---------- What a run keeps ----------

  /** The age of an entry is that of one of its fragments. */
  ghost predicate Dated(events: seq<Event>, n: nat, id: nat, time: int) {
    exists i: nat :: i < n && ArrivalOf(events, i, id) && events[i].now == time
  }

  ghost predicate EntriesDated(incoming: map<nat, Incoming>, events: seq<Event>, n: nat) {
    forall id | id in incoming :: Dated(events, n, id, incoming[id].firstSeen)
  }

  /** A verdict is remembered until it is forgotten. */
  ghost predicate Remembered(completed: map<nat, int>, events: seq<Event>, log: seq<Verdict>) {
    forall k: nat, id: nat | Decided(events, log, k, id) ::
      (id in completed && completed[id] == events[k].now) || ForgottenBetween(events, k, |log|)
  }

  ghost predicate Finished(completed: map<nat, int>, events: seq<Event>, log: seq<Verdict>, id: nat) {
    exists k: nat :: Decided(events, log, k, id) && id in completed && completed[id] == events[k].now
  }

  ghost predicate Known(completed: map<nat, int>, events: seq<Event>, log: seq<Verdict>) {
    forall id | id in completed :: Finished(completed, events, log, id)
  }

  ghost predicate HeldPacket(incoming: map<nat, Incoming>, completed: map<nat, int>, p: Packet) {
    || p.messageId in completed
    || (p.messageId in incoming && p.index < |incoming[p.messageId].fragments|
        && incoming[p.messageId].fragments[p.index].Some?)
  }

  /** Every fragment of the message that has arrived is held, unless the message is finished. */
  ghost predicate HeldOf(incoming: map<nat, Incoming>, completed: map<nat, int>, events: seq<Event>, n: nat, id: nat,
      maxBytes: nat)
  {
    forall k: nat | k < n && ArrivalOf(events, k, id) && events[k].packet.count <= MaxFragments(maxBytes) ::
      HeldPacket(incoming, completed, events[k].packet)
  }

  ghost predicate UndisturbedHeld(incoming: map<nat, Incoming>, completed: map<nat, int>, events: seq<Event>, n: nat,
      maxBytes: nat)
  {
    forall id | Undisturbed(events, id) :: HeldOf(incoming, completed, events, n, id, maxBytes)
  }

  // ---------- The log ----------

  lemma DecidedMore(events: seq<Event>, log: seq<Verdict>, v: Verdict, k: nat, id: nat)
    ensures Decided(events, log + [v], k, id) <==>
            Decided(events, log, k, id) || (k == |log| && v != Pending && ArrivalOf(events, k, id))
  {
  }

  lemma ForgottenLater(events: seq<Event>, k: nat, l: nat, l': nat)
    requires ForgottenBetween(events, k, l) && l <= l'
    ensures ForgottenBetween(events, k, l')
  {
    var s: nat :| s < l && Forgets(events, k, s);
    assert s < l' && Forgets(events, k, s);
  }

  /** An event without a verdict. */
  lemma LogPending(events: seq<Event>, log: seq<Verdict>, sent: map<nat, Sent>, completed: map<nat, int>)
    requires LogRight(events, log, sent) && Separated(events, log)
    requires Remembered(completed, events, log) && Known(completed, events, log)
    ensures LogRight(events, log + [Pending], sent) && Separated(events, log + [Pending])
    ensures Remembered(completed, events, log + [Pending]) && Known(completed, events, log + [Pending])
  {
    hide Decided, VerdictRight, ForgottenBetween;
    forall k: nat, id: nat
      ensures Decided(events, log + [Pending], k, id) <==> Decided(events, log, k, id)
    {
      DecidedMore(events, log, Pending, k, id);
    }
    forall k: nat, id: nat | Decided(events, log, k, id) && ForgottenBetween(events, k, |log|)
      ensures ForgottenBetween(events, k, |log| + 1)
    {
      ForgottenLater(events, k, |log|, |log| + 1);
    }
    PendingRight(events, |log|, sent);
    forall id | id in completed ensures Finished(completed, events, log + [Pending], id) {
      assert Finished(completed, events, log, id);
    }
  }

  lemma PendingRight(events: seq<Event>, k: nat, sent: map<nat, Sent>)
    ensures VerdictRight(events, k, Pending, sent)
  {
  }

  /** A verdict on a message that was not finished. */
  lemma LogVerdict(events: seq<Event>, log: seq<Verdict>, sent: map<nat, Sent>, completed: map<nat, int>, v: Verdict,
      id: nat)
    requires LogRight(events, log, sent) && Separated(events, log)
    requires Remembered(completed, events, log) && Known(completed, events, log)
    requires ArrivalOf(events, |log|, id) && v != Pending && id !in completed
    requires VerdictRight(events, |log|, v, sent)
    ensures var after := completed[id := events[|log|].now];
            && LogRight(events, log + [v], sent) && Separated(events, log + [v])
            && Remembered(after, events, log + [v]) && Known(after, events, log + [v])
  {
    var n, after := |log|, completed[id := events[|log|].now];
    hide Decided, VerdictRight, ForgottenBetween, ArrivalOf;
    forall k: nat, other: nat
      ensures Decided(events, log + [v], k, other) <==>
              Decided(events, log, k, other) || (k == n && ArrivalOf(events, k, other))
    {
      DecidedMore(events, log, v, k, other);
    }
    OnlyMessage(events, n, id);
    forall k: nat, other: nat | Decided(events, log, k, other) && ForgottenBetween(events, k, n)
      ensures ForgottenBetween(events, k, n + 1)
    {
      ForgottenLater(events, k, n, n + 1);
    }
    EarlierOnly(events, log);
    forall other | other in after ensures Finished(after, events, log + [v], other) {
      if other == id {
        assert Decided(events, log + [v], n, id) && after[id] == events[n].now;
      } else {
        assert Finished(completed, events, log, other);
      }
    }
  }

  lemma OnlyMessage(events: seq<Event>, k: nat, id: nat)
    requires ArrivalOf(events, k, id)
    ensures k < |events| && forall other: nat | ArrivalOf(events, k, other) :: other == id
  {
  }

  lemma EarlierOnly(events: seq<Event>, log: seq<Verdict>)
    ensures forall k: nat, id: nat | Decided(events, log, k, id) :: k < |log| && k < |events|
  {
  }

  /** A sweep forgets the verdicts that are old enough. */
  lemma SweepRemembers(events: seq<Event>, log: seq<Verdict>, completed: map<nat, int>, after: map<nat, int>)
    requires Remembered(completed, events, log) && Known(completed, events, log)
    requires |log| < |events| && events[|log|].Sweep?
    requires after == map id | id in completed && events[|log|].at - completed[id] < events[|log|].deadTimeout ::
                        completed[id]
    ensures Remembered(after, events, log + [Pending]) && Known(after, events, log + [Pending])
  {
    var n := |log|;
    hide ForgottenBetween;
    forall k: nat, id: nat | Decided(events, log + [Pending], k, id)
      ensures (id in after && after[id] == events[k].now) || ForgottenBetween(events, k, n + 1)
    {
      DecidedMore(events, log, Pending, k, id);
      if ForgottenBetween(events, k, n) {
        ForgottenLater(events, k, n, n + 1);
      } else if id !in after {
        ForgottenNow(events, k, n);
      }
    }
    forall id | id in after ensures Finished(after, events, log + [Pending], id) {
      assert Finished(completed, events, log, id);
      var k: nat :| Decided(events, log, k, id) && id in completed && completed[id] == events[k].now;
      DecidedMore(events, log, Pending, k, id);
    }
  }

  lemma ForgottenNow(events: seq<Event>, k: nat, s: nat)
    requires Forgets(events, k, s)
    ensures ForgottenBetween(events, k, s + 1)
  {
  }

  // ---------- What is held ----------

  lemma DatedLater(events: seq<Event>, n: nat, id: nat, time: int)
    requires Dated(events, n, id, time)
    ensures Dated(events, n + 1, id, time)
  {
    var i: nat :| i < n && ArrivalOf(events, i, id) && events[i].now == time;
    assert i < n + 1;
  }

  lemma DatedNow(events: seq<Event>, n: nat, id: nat)
    requires ArrivalOf(events, n, id)
    ensures Dated(events, n + 1, id, events[n].now)
  {
  }

  /** The entry a fragment is put into is as old as the first fragment in it. */
  lemma StoreDated(incoming: map<nat, Incoming>, events: seq<Event>, n: nat, p: Packet)
    requires n < |events| && events[n].Arrival? && events[n].packet == p && EntriesDated(incoming, events, n)
    requires p.index < p.count && p.dataCount <= p.count
    requires p.messageId in incoming ==> WellFormed(incoming[p.messageId])
    ensures Dated(events, n + 1, p.messageId, Store(incoming, p, events[n].now).firstSeen)
    ensures EntriesDated(incoming, events, n + 1)
    ensures EntriesDated(incoming - {p.messageId}, events, n + 1)
    ensures EntriesDated(incoming[p.messageId := Store(incoming, p, events[n].now)], events, n + 1)
  {
    var e := Store(incoming, p, events[n].now);
    assert e.firstSeen == if Opens(incoming, p) then events[n].now else incoming[p.messageId].firstSeen;
    hide Dated, Store, Opens;
    DatedNow(events, n, p.messageId);
    forall id | id in incoming ensures Dated(events, n + 1, id, incoming[id].firstSeen) {
      DatedLater(events, n, id, incoming[id].firstSeen);
    }
  }

  lemma LostWaited(events: seq<Event>, k: nat, id: nat, time: int)
    requires ArrivalOf(events, k, id) && Dated(events, k + 1, id, time)
    requires events[k].later - time >= LossWait(events[k].link)
    ensures Waited(events, k, id)
  {
    var i: nat :| i < k + 1 && ArrivalOf(events, i, id) && events[i].now == time;
    assert Overslept(events, i, k, id);
  }

  lemma HeldMore(incoming: map<nat, Incoming>, completed: map<nat, int>, incoming': map<nat, Incoming>,
                 completed': map<nat, int>, events: seq<Event>, n: nat, maxBytes: nat)
    requires n < |events| && events[n].Arrival? && UndisturbedHeld(incoming, completed, events, n, maxBytes)
    requires forall q :: HeldPacket(incoming, completed, q) ==> HeldPacket(incoming', completed', q)
    requires events[n].packet.count <= MaxFragments(maxBytes) ==> HeldPacket(incoming', completed', events[n].packet)
    ensures UndisturbedHeld(incoming', completed', events, n + 1, maxBytes)
  {
    hide HeldPacket, Undisturbed;
    forall id | Undisturbed(events, id) ensures HeldOf(incoming', completed', events, n + 1, id, maxBytes) {
      assert HeldOf(incoming, completed, events, n, id, maxBytes);
    }
  }

  /** Storing a fragment, finishing a message and ignoring a fragment all keep what is held. */
  lemma StoreKeepsHeld(incoming: map<nat, Incoming>, completed: map<nat, int>, p: Packet, now: int)
    requires p.index < p.count && p.dataCount <= p.count
    requires p.messageId in incoming ==> WellFormed(incoming[p.messageId]) && incoming[p.messageId].messageId != 0
    requires Store(incoming, p, now).totalCount == p.count
    ensures forall q :: HeldPacket(incoming, completed, q) ==>
                          HeldPacket(incoming[p.messageId := Store(incoming, p, now)], completed, q)
    ensures HeldPacket(incoming[p.messageId := Store(incoming, p, now)], completed, p)
  {}

  lemma FinishKeepsHeld(incoming: map<nat, Incoming>, completed: map<nat, int>, p: Packet, now: int)
    ensures forall q :: HeldPacket(incoming, completed, q) ==>
              HeldPacket(incoming - {p.messageId}, completed[p.messageId := now], q)
    ensures HeldPacket(incoming - {p.messageId}, completed[p.messageId := now], p)
  {}

  lemma CompletedHeld(incoming: map<nat, Incoming>, completed: map<nat, int>, p: Packet)
    requires p.messageId in completed
    ensures HeldPacket(incoming, completed, p)
  {}

  lemma TrackedIds(incoming: map<nat, Incoming>, sent: map<nat, Sent>, maxBytes: nat)
    requires Tracked(incoming, sent, maxBytes)
    ensures forall id | id in incoming :: WellFormed(incoming[id]) && incoming[id].messageId == id > 0
  {}

  /** A sweep keeps the entries that are young and those of undisturbed messages. */
  lemma SweepHolds(incoming: map<nat, Incoming>, completed: map<nat, int>, incoming': map<nat, Incoming>,
                   completed': map<nat, int>, events: seq<Event>, log: seq<Verdict>, maxBytes: nat)
    requires |log| < |events| && events[|log|].Sweep?
    requires EntriesDated(incoming, events, |log|) && Known(completed, events, log)
    requires UndisturbedHeld(incoming, completed, events, |log|, maxBytes)
    requires incoming' ==
             map id | id in incoming && events[|log|].at - incoming[id].firstSeen < events[|log|].deadTimeout ::
               incoming[id]
    requires completed' == map id | id in completed && events[|log|].at - completed[id] < events[|log|].deadTimeout ::
                             completed[id]
    ensures EntriesDated(incoming', events, |log| + 1)
    ensures UndisturbedHeld(incoming', completed', events, |log| + 1, maxBytes)
  {
    var n := |log|;
    forall id | id in incoming' ensures Dated(events, n + 1, id, incoming'[id].firstSeen) {
      DatedLater(events, n, id, incoming[id].firstSeen);
    }
    forall id | Undisturbed(events, id) ensures HeldOf(incoming', completed', events, n + 1, id, maxBytes) {
      assert HeldOf(incoming, completed, events, n, id, maxBytes);
      if id in incoming {
        YoungStays(events, n, id, incoming[id].firstSeen);
      }
      if id in completed {
        assert Finished(completed, events, log, id);
        FinishedDated(completed, events, log, id);
        YoungStays(events, n, id, completed[id]);
      }
      assert id in incoming ==> id in incoming' && incoming'[id] == incoming[id];
      assert id in completed ==> id in completed';
    }
  }

  lemma YoungStays(events: seq<Event>, s: nat, id: nat, time: int)
    requires s < |events| && events[s].Sweep? && Undisturbed(events, id) && Dated(events, s, id, time)
    ensures events[s].at - time < events[s].deadTimeout
  {
    var i: nat :| i < s && ArrivalOf(events, i, id) && events[i].now == time;
    assert !Forgets(events, i, s);
  }

  lemma FinishedDated(completed: map<nat, int>, events: seq<Event>, log: seq<Verdict>, id: nat)
    requires Finished(completed, events, log, id)
    ensures id in completed && Dated(events, |log|, id, completed[id])
  {
    var k: nat :| Decided(events, log, k, id) && id in completed && completed[id] == events[k].now;
    assert k < |log| && ArrivalOf(events, k, id);
  }

  lemma SweepTracks(incoming: map<nat, Incoming>, incoming': map<nat, Incoming>, sent: map<nat, Sent>, maxBytes: nat)
    requires Tracked(incoming, sent, maxBytes)
    requires forall id | id in incoming' :: id in incoming && incoming'[id] == incoming[id]
    ensures Tracked(incoming', sent, maxBytes)
  {
    hide EntryOf, AllHeld, Repairable;
  }

  // ---------- When a message must be finished ----------

  /** An arrived fragment of an undisturbed, unfinished message is in its entry. */
  lemma FragmentHeld(incoming: map<nat, Incoming>, completed: map<nat, int>, events: seq<Event>, m: Sent, id: nat,
      maxBytes: nat, i: nat)
    requires HeldOf(incoming, completed, events, |events|, id, maxBytes) && id !in completed
    requires m.width > 0 && i < m.Total() < 0x1_0000 && m.Total() <= MaxFragments(maxBytes)
    requires Arrives(events, m.PacketNo(id, i))
    ensures id in incoming && i < |incoming[id].fragments| && incoming[id].fragments[i].Some?
  {
    PacketCounts(m, id, i);
    hide Sent.Pieces, Sent.PacketNo, Sent.Total;
    var k: nat :| k < |events| && events[k].Arrival? && events[k].packet == m.PacketNo(id, i);
    assert ArrivalOf(events, k, id);
    assert HeldPacket(incoming, completed, events[k].packet);
  }

  lemma {:induction false} FirstParities(e: Incoming, n: nat, q: nat)
    requires WellFormed(e) && q <= n <= e.totalCount - DataFragments(e)
    requires forall i: nat | DataFragments(e) <= i < DataFragments(e) + q :: e.fragments[i].Some?
    ensures |ParitiesIn(e, n)| >= q && forall p: nat | p < q :: ParitiesIn(e, n)[p].0 == p
    ensures q == n ==> |ParitiesIn(e, n)| == n
  {
    if n > 0 {
      if q < n {
        FirstParities(e, n - 1, q);
      } else {
        FirstParities(e, n - 1, q - 1);
      }
    }
  }

  lemma {:induction false} AscendingSize(js: seq<nat>, s: set<nat>)
    requires forall c: nat, d: nat | c < d < |js| :: js[c] < js[d]
    requires forall c: nat | c < |js| :: js[c] in s
    ensures |js| <= |s|
  {
    if js != [] {
      var n := |js| - 1;
      AscendingSize(js[..n], s - {js[n]});
    }
  }

  /** An entry that lacks nothing but what the first parities cover can be repaired. */
  lemma CoveredRepairable(e: Incoming, lost: set<nat>)
    requires WellFormed(e) && !AllHeld(e) && e.totalCount - DataFragments(e) >= |lost|
    requires forall i: nat | i < DataFragments(e) && i !in lost :: e.fragments[i].Some?
    requires forall i, j | i in lost && j in lost && i != j :: i % 256 != j % 256
    requires forall i: nat | DataFragments(e) <= i < DataFragments(e) + |lost| :: e.fragments[i].Some?
    requires forall i: nat | i < e.totalCount && e.fragments[i].Some? :: |e.fragments[i].value| > 0
    ensures Repairable(e)
  {
    MissingAmong(e, lost);
    AscendingSize(Missing(DataPart(e)), lost);
    NothingMissingAllHeld(e);
    FirstRowsUsed(e, |lost|, |Missing(DataPart(e))|);
    hide Decodable, Missing, AllHeld, RowsUsed, Parities;
    ConsecutiveDecodable(DataPart(e), Parities(e), 0);
    assert e.fragments[DataFragments(e)].Some?;
  }

  /** A message is beyond its parity when even all of its parities would not repair what is held, and, of missing
      pieces no two of which are equal modulo 256, only then. */
  lemma BeyondParityIff(e: Incoming)
    requires WellFormed(e)
    ensures BeyondParity(e) ==> !Decodable(DataPart(e), AllParities(e.totalCount - DataFragments(e)))
    ensures Incongruent(Missing(DataPart(e))) && !Decodable(DataPart(e), AllParities(e.totalCount - DataFragments(e)))
            ==> BeyondParity(e)
  {
    var all := AllParities(e.totalCount - DataFragments(e));
    var m := |Missing(DataPart(e))|;
    if !BeyondParity(e) {
      FirstOfAll(|all|, m);
      hide Decodable, Missing, RowsUsed, Consecutive;
      ConsecutiveDecodable(DataPart(e), all, 0);
    }
  }

  /** All parities there are; whether they repair depends on their numbers alone. */
  function AllParities(n: nat): (ps: seq<Parity>)
    ensures |ps| == n && forall r: nat | r < n :: ps[r].0 == r
  {
    seq(n, r requires 0 <= r < n => (r, []))
  }

  lemma FirstOfAll(n: nat, m: nat)
    requires m <= n
    ensures Consecutive(RowsUsed(AllParities(n), m), 0)
  {
    forall p: nat | p < m ensures p in RowsUsed(AllParities(n), m) {
      assert RowsUsed(AllParities(n), m)[p] == p;
    }
  }

  lemma MissingAmong(e: Incoming, lost: set<nat>)
    requires WellFormed(e)
    requires forall i: nat | i < DataFragments(e) && i !in lost :: e.fragments[i].Some?
    requires forall i, j | i in lost && j in lost && i != j :: i % 256 != j % 256
    ensures var missing := Missing(DataPart(e));
            && (forall c: nat, d: nat | c < d < |missing| :: missing[c] < missing[d])
            && (forall c: nat | c < |missing| :: missing[c] in lost)
            && Incongruent(missing)
  {
    var missing := Missing(DataPart(e));
    forall c: nat | c < |missing| ensures missing[c] in lost {
      assert DataPart(e)[missing[c]] == e.fragments[missing[c]];
    }
  }

  lemma FirstRowsUsed(e: Incoming, q: nat, m: nat)
    requires WellFormed(e) && m <= q <= e.totalCount - DataFragments(e)
    requires forall i: nat | DataFragments(e) <= i < DataFragments(e) + q :: e.fragments[i].Some?
    ensures m <= |Parities(e)| && Consecutive(RowsUsed(Parities(e), m), 0)
  {
    FirstParities(e, e.totalCount - DataFragments(e), q);
    forall p: nat | p < m ensures p in RowsUsed(Parities(e), m) {
      assert RowsUsed(Parities(e), m)[p] == p;
    }
  }

  lemma EntryWidths(e: Incoming, m: Sent, id: nat, maxBytes: nat)
    requires EntryOf(e, m, id) && m.Sendable(maxBytes)
    ensures DataFragments(e) == |m.Pieces()| >= 1 && e.totalCount - DataFragments(e) == m.parityCount
    ensures forall i: nat | i < e.totalCount && e.fragments[i].Some? :: |e.fragments[i].value| > 0
  {
    AtLeastOneChunk(m.Full(), m.width);
    hide Fit, ParityOf, Framed, Chunks;
  }

  /** A message whose losses are covered cannot stay unfinished. */
  lemma CoveredFinished(incoming: map<nat, Incoming>, completed: map<nat, int>, events: seq<Event>,
                        sent: map<nat, Sent>, id: nat, maxBytes: nat)
    requires Tracked(incoming, sent, maxBytes) && HeldOf(incoming, completed, events, |events|, id, maxBytes)
    requires id in sent && sent[id].width > 0 && sent[id].Total() <= MaxFragments(maxBytes)
    requires Covered(events, sent[id], id)
    ensures id in completed
  {
    hide Tracked, HeldOf, Covered, HoldsBut, EntryOf, AllHeld, Repairable, LostPieces, Sent.Total, Sent.Sendable;
    if id !in completed {
      var m := sent[id];
      TrackedSendable(incoming, sent, maxBytes, id);
      CoveredEntry(incoming, completed, events, m, id, maxBytes);
      TrackedEntry(incoming, sent, maxBytes, id);
      EntryRepairable(incoming[id], m, id, maxBytes, LostPieces(events, m, id));
    }
  }

  lemma EntryRepairable(e: Incoming, m: Sent, id: nat, maxBytes: nat, lost: set<nat>)
    requires EntryOf(e, m, id) && WellFormed(e) && m.Sendable(maxBytes) && !AllHeld(e) && HoldsBut(e, m, lost)
    ensures Repairable(e)
  {
    hide EntryOf, AllHeld, Repairable, Sent.Pieces, Sent.Sendable;
    EntryWidths(e, m, id, maxBytes);
    CoveredRepairable(e, lost);
  }

  lemma TrackedEntry(incoming: map<nat, Incoming>, sent: map<nat, Sent>, maxBytes: nat, id: nat)
    requires Tracked(incoming, sent, maxBytes) && id in incoming
    ensures id in sent && EntryOf(incoming[id], sent[id], id) && WellFormed(incoming[id])
    ensures !AllHeld(incoming[id]) && !Repairable(incoming[id])
  {
  }

  /** What has arrived of a covered message that is not finished: its entry holds what is not lost, and the first
      parities. */
  ghost predicate HoldsBut(e: Incoming, m: Sent, lost: set<nat>)
    requires m.width > 0
  {
    && |lost| <= m.parityCount
    && (forall i: nat | i < |m.Pieces()| && i !in lost :: i < |e.fragments| && e.fragments[i].Some?)
    && (forall i: nat | |m.Pieces()| <= i < |m.Pieces()| + |lost| :: i < |e.fragments| && e.fragments[i].Some?)
    && (forall i, j | i in lost && j in lost && i != j :: i % 256 != j % 256)
  }

  lemma CoveredEntry(incoming: map<nat, Incoming>, completed: map<nat, int>, events: seq<Event>, m: Sent, id: nat,
      maxBytes: nat)
    requires HeldOf(incoming, completed, events, |events|, id, maxBytes) && id !in completed
    requires m.Sendable(maxBytes) && m.Total() <= MaxFragments(maxBytes) && Covered(events, m, id)
    ensures id in incoming && HoldsBut(incoming[id], m, LostPieces(events, m, id))
  {
    hide HeldOf, Sent.Pieces, Sent.PacketNo, Arrives, MaxFragments;
    SomePieces(m);
    SomeArrives(events, m, id);
    forall i: nat | i < m.Total() && Arrives(events, m.PacketNo(id, i))
      ensures id in incoming && i < |incoming[id].fragments| && incoming[id].fragments[i].Some?
    {
      FragmentHeld(incoming, completed, events, m, id, maxBytes, i);
    }
    NotLost(events, m, id);
    hide LostPieces;
    var lost := LostPieces(events, m, id);
    forall i: nat | i < |m.Pieces()| + |lost| && (i < |m.Pieces()| ==> i !in lost)
      ensures i < |incoming[id].fragments| && incoming[id].fragments[i].Some?
    {
      assert i < m.Total() && Arrives(events, m.PacketNo(id, i));
    }
  }

  lemma NotLost(events: seq<Event>, m: Sent, id: nat)
    requires m.width > 0
    ensures forall i: nat | i < |m.Pieces()| && i !in LostPieces(events, m, id) :: Arrives(events, m.PacketNo(id, i))
  {
    hide Arrives, Sent.Pieces, Sent.PacketNo;
  }

  lemma SomePieces(m: Sent)
    requires m.width > 0
    ensures |m.Pieces()| >= 1
  {
    AtLeastOneChunk(m.Full(), m.width);
  }

  lemma SomeArrives(events: seq<Event>, m: Sent, id: nat)
    requires m.width > 0 && |m.Pieces()| >= 1 && Covered(events, m, id)
    ensures exists i: nat :: i < m.Total() && Arrives(events, m.PacketNo(id, i))
  {
    hide Sent.Pieces, Sent.PacketNo, Arrives;
    if Arrives(events, m.PacketNo(id, 0)) {
      assert 0 < m.Total();
    } else {
      assert 0 in LostPieces(events, m, id);
      assert |LostPieces(events, m, id)| > 0;
      assert |m.Pieces()| < m.Total() && Arrives(events, m.PacketNo(id, |m.Pieces()|));
    }
  }

  /** The verdict of a finished message, when its verdicts are separated and nothing of it is forgotten. */
  lemma FinishedOnce(completed: map<nat, int>, events: seq<Event>, log: seq<Verdict>, id: nat)
    requires Known(completed, events, log) && Separated(events, log) && id in completed && Undisturbed(events, id)
    ensures DecidedOnce(events, log, id)
  {
    assert Finished(completed, events, log, id);
    var k: nat :| Decided(events, log, k, id) && id in completed && completed[id] == events[k].now;
    forall l: nat | Decided(events, log, l, id) ensures l == k {
      if l < k {
        NotForgotten(events, l, k, id);
      } else if k < l {
        NotForgotten(events, k, l, id);
      }
    }
  }

  lemma NotForgotten(events: seq<Event>, k: nat, l: nat, id: nat)
    requires ArrivalOf(events, k, id) && Undisturbed(events, id)
    ensures !ForgottenBetween(events, k, l)
  {
  }

  /** Without late fragments no message is declared lost. */
  lemma PromptDelivered(events: seq<Event>, log: seq<Verdict>, sent: map<nat, Sent>, id: nat)
    requires LogRight(events, log, sent) && Prompt(events, id)
    ensures forall k: nat | Decided(events, log, k, id) :: log[k].Delivered?
  {
    forall k: nat | Decided(events, log, k, id) ensures log[k].Delivered? {
      assert VerdictRight(events, k, log[k], sent);
    }
  }

  // ---------- Running ----------

  ghost predicate Going(r: MessageReceiver, events: seq<Event>, log: seq<Verdict>, sent: map<nat, Sent>)
    reads r
  {
    && r.Valid() && Tracked(r.incoming, sent, r.maxBytes)
    && EntriesDated(r.incoming, events, |log|)
    && UndisturbedHeld(r.incoming, r.completed, events, |log|, r.maxBytes)
    && LogRight(events, log, sent) && Separated(events, log)
    && Remembered(r.completed, events, log) && Known(r.completed, events, log)
  }

  /** The receiver takes messages of that many fragments. */
  predicate Accepted(events: seq<Event>, k: nat, maxBytes: nat) {
    k < |events| && events[k].Arrival? && events[k].packet.count <= MaxFragments(maxBytes)
  }

  method Arrive(r: MessageReceiver, events: seq<Event>, log: seq<Verdict>, ghost sent: map<nat, Sent>)
    returns (v: Verdict)
    requires |log| < |events| && events[|log|].Arrival? && GenuineEvents(events, sent)
    requires Going(r, events, log, sent)
    modifies r
    ensures Going(r, events, log + [v], sent)
    ensures v != Pending ==> Accepted(events, |log|, r.maxBytes)
  {
    hide Tracked, Genuine, Store, Repairable, BeyondParity, AllHeld, EntryOf, LogRight, Separated, Remembered, Known,
        UndisturbedHeld, EntriesDated, Dated, HeldPacket, Decides, GivesUp, LossWait;
    ghost var n := |log|;
    var e := events[|log|];
    var p := e.packet;
    ghost var inc, comp := r.incoming, r.completed;
    TrackedStore(inc, sent, r.maxBytes, p, e.now);
    TrackedIds(inc, sent, r.maxBytes);
    StoreDated(inc, events, n, p);
    v := r.HandleFragment(p, e.now, e.later, e.link, sent);
    StoreKeepsHeld(inc, comp, p, e.now);
    FinishKeepsHeld(inc, comp, p, e.now);
    if p.count <= MaxFragments(r.maxBytes) && p.messageId in comp {
      CompletedHeld(inc, comp, p);
    }
    HeldMore(inc, comp, r.incoming, r.completed, events, n, r.maxBytes);
    if v == Pending {
      LogPending(events, log, sent, comp);
    } else {
      RightVerdict(events, n, v, Store(inc, p, e.now), sent);
      LogVerdict(events, log, sent, comp, v, p.messageId);
    }
  }

  lemma RightVerdict(events: seq<Event>, k: nat, v: Verdict, entry: Incoming, sent: map<nat, Sent>)
    requires k < |events| && events[k].Arrival? && events[k].packet.messageId in sent && v != Pending
    requires v.Delivered? ==> v.message == sent[events[k].packet.messageId].payload
    requires WellFormed(entry) && Dated(events, k + 1, events[k].packet.messageId, entry.firstSeen)
    requires Decides(v, entry, events[k].packet, events[k].later, LossWait(events[k].link))
    ensures VerdictRight(events, k, v, sent)
  {
    hide Dated, LossWait;
    if v.Lost? {
      LostWaited(events, k, events[k].packet.messageId, entry.firstSeen);
    }
  }

  /** What holds once every event has been handled. */
  lemma RunEnds(r: MessageReceiver, events: seq<Event>, log: seq<Verdict>, sent: map<nat, Sent>)
    requires Going(r, events, log, sent) && |log| == |events|
    ensures LogRight(events, log, sent) && Separated(events, log)
    ensures forall id | id in sent && Undisturbed(events, id) && sent[id].width > 0
                        && sent[id].Total() <= MaxFragments(r.maxBytes) && Covered(events, sent[id], id) ::
              DecidedOnce(events, log, id)
    ensures forall id, k: nat | Decided(events, log, k, id) && Prompt(events, id) :: log[k].Delivered?
  {
    hide Tracked, LogRight, Separated, Known, Undisturbed, Covered, Remembered, EntriesDated, Prompt, HeldOf,
        DecidedOnce, Sent.Total, MaxFragments;
    forall id | id in sent && Undisturbed(events, id) && sent[id].width > 0
                && sent[id].Total() <= MaxFragments(r.maxBytes) && Covered(events, sent[id], id)
      ensures DecidedOnce(events, log, id)
    {
      CoveredFinished(r.incoming, r.completed, events, sent, id, r.maxBytes);
      FinishedOnce(r.completed, events, log, id);
    }
    forall id, k: nat | Decided(events, log, k, id) && Prompt(events, id) ensures log[k].Delivered? {
      PromptDelivered(events, log, sent, id);
    }
  }

  method SweepOld(r: MessageReceiver, events: seq<Event>, log: seq<Verdict>, ghost sent: map<nat, Sent>)
    requires |log| < |events| && events[|log|].Sweep?
    requires Going(r, events, log, sent)
    modifies r
    ensures Going(r, events, log + [Pending], sent)
  {
    hide Tracked, LogRight, Separated, Remembered, Known, UndisturbedHeld, EntriesDated;
    ghost var inc, comp := r.incoming, r.completed;
    r.DropOld(events[|log|].at, events[|log|].deadTimeout);
    SweepTracks(inc, r.incoming, sent, r.maxBytes);
    SweepHolds(inc, comp, r.incoming, r.completed, events, log, r.maxBytes);
    LogPending(events, log, sent, comp);
    SweepRemembers(events, log, comp, r.completed);
  }

  /** Runs a receiver over any trace.  The verdicts are listed event by event.  What is delivered is what was sent,
      and what is declared lost had waited; two verdicts on one message have a sweep between them that forgets the
      first; and a message of which nothing is forgotten and whose lost pieces the first parities cover gets exactly
      one verdict, delivery if its fragments come promptly, provided it has no more fragments than the receiver takes;
      with more it gets none. */
  method Run(r: MessageReceiver, events: seq<Event>, ghost sent: map<nat, Sent>) returns (log: seq<Verdict>)
    requires r.Valid() && r.incoming == map[] && r.completed == map[]
    requires AllSendable(sent, r.maxBytes) && GenuineEvents(events, sent)
    modifies r
    ensures |log| == |events| && LogRight(events, log, sent) && Separated(events, log)
    ensures forall id | id in sent && Undisturbed(events, id) && sent[id].width > 0
                        && sent[id].Total() <= MaxFragments(r.maxBytes) && Covered(events, sent[id], id) ::
              DecidedOnce(events, log, id)
    ensures forall id, k: nat | Decided(events, log, k, id) && Prompt(events, id) :: log[k].Delivered?
    ensures forall k: nat | k < |log| && log[k] != Pending :: Accepted(events, k, r.maxBytes)
  {
    hide Accepted, MaxFragments, Going, LogRight, Separated, Decided, DecidedOnce, Undisturbed, Covered, Prompt;
    log := [];
    Starts(r, events, sent);
    while |log| < |events|
      invariant |log| <= |events| && Going(r, events, log, sent)
      invariant forall k: nat | k < |log| && log[k] != Pending :: Accepted(events, k, r.maxBytes)
      decreases |events| - |log|
    {
      hide GenuineEvents;
      if events[|log|].Arrival? {
        var v := Arrive(r, events, log, sent);
        log := log + [v];
      } else {
        SweepOld(r, events, log, sent);
        log := log + [Pending];
      }
    }
    RunEnds(r, events, log, sent);
  }

  lemma Starts(r: MessageReceiver, events: seq<Event>, sent: map<nat, Sent>)
    requires r.Valid() && r.incoming == map[] && r.completed == map[] && AllSendable(sent, r.maxBytes)
    ensures Going(r, events, [], sent)
  {
  }
}
