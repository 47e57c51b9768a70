/** The sender's side: packets kept until a report settles them. */
module Retransmission {
  import opened OrderedSets
  import opened SequenceTracking

  datatype Pending<P> = Pending(packet: P, retries: nat, lastSend: int)

  /** A report settles what it acknowledges without listing, and what has been resent often enough. */
  predicate Settled<P>(entry: Pending<P>, seqNo: nat, ack: nat, lost: set<nat>) {
    (seqNo <= ack && seqNo !in lost) || entry.retries >= MAX_RETRIES
  }

  function Numbers(listed: seq<nat>): set<nat> { set s | s in listed }

  function Wanted<P>(pending: map<nat, Pending<P>>, lost: set<nat>): set<nat> {
    set s | s in pending && s in lost && pending[s].retries < MAX_RETRIES
  }

  function Handled<P>(pending: map<nat, Pending<P>>, ack: nat, lost: set<nat>, now: int): map<nat, Pending<P>> {
    map s | s in pending && !Settled(pending[s], s, ack, lost) ::
      if s in lost then pending[s].(retries := pending[s].retries + 1, lastSend := now) else pending[s]
  }

  /** A packet that goes out, under its number. */
  datatype OnWire<P> = OnWire(seqNo: nat, packet: P)

  function Resends<P>(pending: map<nat, Pending<P>>, order: seq<nat>): seq<OnWire<P>>
    requires forall s :: s in order ==> s in pending
  {
    seq(|order|, i requires 0 <= i < |order| => OnWire(order[i], pending[order[i]].packet))
  }

  function Bumped<P>(pending: map<nat, Pending<P>>, order: seq<nat>, now: int): map<nat, Pending<P>> {
    map s | s in pending ::
      if s in order then Pending(pending[s].packet, pending[s].retries + 1, now) else pending[s]
  }

  lemma BumpedMore<P>(kept: map<nat, Pending<P>>, order: seq<nat>, i: nat, now: int)
    requires StrictlyAscending(order) && i < |order| && order[i] in kept
    ensures var was := Bumped(kept, order[..i], now);
            && order[i] in was && was[order[i]] == kept[order[i]]
            && Bumped(kept, order[..i + 1], now) ==
                 was[order[i] := Pending(kept[order[i]].packet, kept[order[i]].retries + 1, now)]
  {
    assert order[i] !in order[..i];
    assert order[..i + 1] == order[..i] + [order[i]];
  }

  function Pruned<P>(pending: map<nat, Pending<P>>, ack: nat, lost: set<nat>): map<nat, Pending<P>> {
    map s | s in pending && !Settled(pending[s], s, ack, lost) :: pending[s]
  }

  /** What is listed and still kept survives the pruning. */
  lemma WantedSurvive<P>(pending: map<nat, Pending<P>>, ack: nat, lost: set<nat>, s: nat)
    requires s in Wanted(pending, lost)
    ensures s in Pruned(pending, ack, lost) && Pruned(pending, ack, lost)[s] == pending[s]
  {
  }

  lemma PruneThenBump<P>(pending: map<nat, Pending<P>>, ack: nat, lost: set<nat>, now: int, order: seq<nat>)
    requires forall s :: s in order <==> s in Wanted(pending, lost)
    ensures forall s :: s in order ==> s in Pruned(pending, ack, lost)
    ensures Bumped(Pruned(pending, ack, lost), order, now) == Handled(pending, ack, lost, now)
  {
    forall s | s in order ensures s in Pruned(pending, ack, lost) {
      WantedSurvive(pending, ack, lost, s);
    }
    var kept, bumped, handled :=
      Pruned(pending, ack, lost), Bumped(Pruned(pending, ack, lost), order, now), Handled(pending, ack, lost, now);
    assert kept.Keys == handled.Keys == bumped.Keys;
    forall s | s in handled ensures bumped[s] == handled[s] {
      assert s in order <==> s in Wanted(pending, lost);
    }
  }

  lemma SameResends<P>(pending: map<nat, Pending<P>>, ack: nat, lost: set<nat>, order: seq<nat>)
    requires forall s :: s in order ==> s in Wanted(pending, lost) && s in Pruned(pending, ack, lost)
    ensures Resends(Pruned(pending, ack, lost), order) == Resends(pending, order)
  {
  }

  /** What goes out for a report, packet by packet: each listed number that is kept and was sent again fewer than ten
      times, once, with the packet stored under it, in ascending order. */
  ghost predicate Answers<P>(resent: seq<OnWire<P>>, pending: map<nat, Pending<P>>, listed: seq<nat>) {
    && (forall i, j :: 0 <= i < j < |resent| ==> resent[i].seqNo < resent[j].seqNo)
    && (forall i :: 0 <= i < |resent| ==>
          resent[i].seqNo in pending && resent[i].packet == pending[resent[i].seqNo].packet)
    && (forall s :: s in pending && s in listed && pending[s].retries < 10 <==>
          exists i :: 0 <= i < |resent| && resent[i].seqNo == s)
  }

  /** What is kept after a report, number by number. */
  ghost predicate Keeps<P>(after: map<nat, Pending<P>>, pending: map<nat, Pending<P>>, ack: nat, listed: seq<nat>,
      now: int)
  {
    && (forall s :: s in after <==> s in pending && (s > ack || s in listed) && pending[s].retries < 10)
    && (forall s :: s in after && s in listed ==> after[s] == Pending(pending[s].packet, pending[s].retries + 1, now))
    && (forall s :: s in after && s !in listed ==> after[s] == pending[s])
  }

  lemma ResendsAnswer<P>(pending: map<nat, Pending<P>>, listed: seq<nat>)
    ensures Answers(Resends(pending, Sorted(Wanted(pending, Numbers(listed)))), pending, listed)
  {
    hide Sorted, Answers;
    InOrder(pending, Sorted(Wanted(pending, Numbers(listed))), listed);
  }

  lemma InOrder<P>(pending: map<nat, Pending<P>>, order: seq<nat>, listed: seq<nat>)
    requires StrictlyAscending(order)
    requires forall s :: s in order <==> s in pending && s in listed && pending[s].retries < 10
    ensures Answers(Resends(pending, order), pending, listed)
  {
    var resent := Resends(pending, order);
    forall s ensures s in order <==> exists i :: 0 <= i < |resent| && resent[i].seqNo == s {
      if s in order {
        var i :| 0 <= i < |order| && order[i] == s;
        assert resent[i].seqNo == s;
      }
    }
  }

  lemma HandledKeeps<P>(pending: map<nat, Pending<P>>, ack: nat, listed: seq<nat>, now: int)
    ensures Keeps(Handled(pending, ack, Numbers(listed), now), pending, ack, listed, now)
  {
  }

  class Sender<P> {
    var pending: map<nat, Pending<P>>

    constructor ()
      ensures pending == map[]
    {
      pending := map[];
    }

    method Send(seqNo: nat, packet: P, now: int)
      modifies this
      ensures pending == old(pending)[seqNo := Pending(packet, 0, now)]
    {
      pending := pending[seqNo := Pending(packet, 0, now)];
    }

    /** Sends each packet of the order again and counts it. */
    method Resend(order: seq<nat>, now: int) returns (resent: seq<OnWire<P>>)
      requires StrictlyAscending(order) && forall s :: s in order ==> s in pending
      modifies this
      ensures pending == Bumped(old(pending), order, now)
      ensures resent == Resends(old(pending), order)
    {
      ghost var kept := pending;
      assert pending == Bumped(kept, order[..0], now);
      resent := [];
      for i := 0 to |order|
        invariant pending == Bumped(kept, order[..i], now)
        invariant |resent| == i && forall j :: 0 <= j < i ==> resent[j] == OnWire(order[j], kept[order[j]].packet)
      {
        BumpedMore(kept, order, i, now);
        var entry := pending[order[i]];
        resent := resent + [OnWire(order[i], entry.packet)];
        pending := pending[order[i] := Pending(entry.packet, entry.retries + 1, now)];
      }
      assert order[..|order|] == order;
    }

    method Prune(ack: nat, lost: set<nat>)
      modifies this
      ensures pending == Pruned(old(pending), ack, lost)
    {
      pending := map s | s in pending && !Settled(pending[s], s, ack, lost) :: pending[s];
    }

    /** Drops what is settled, then sends again what is listed and still kept. */
    method Handle(ack: nat, listed: seq<nat>, now: int) returns (resent: seq<OnWire<P>>)
      modifies this
      ensures var lost := Numbers(listed);
              && pending == Handled(old(pending), ack, lost, now)
              && resent == Resends(old(pending), Sorted(Wanted(old(pending), lost)))
              && |resent| == |Wanted(old(pending), lost)|
      ensures Keeps(pending, old(pending), ack, listed, now) && Answers(resent, old(pending), listed)
    {
      ResendsAnswer(pending, listed);
      HandledKeeps(pending, ack, listed, now);
      hide Bumped, Wanted, Handled, Settled, Pruned, Sorted, Keeps, Answers;
      var lost := Numbers(listed);
      var order := Sorted(Wanted(pending, lost));
      PruneThenBump(pending, ack, lost, now, order);
      SameResends(pending, ack, lost, order);
      Prune(ack, lost);
      resent := Resend(order, now);
    }
  }
}
