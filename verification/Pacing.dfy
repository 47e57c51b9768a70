/** The sender's heartbeat: a token bucket that lends to video and not to files and data. */
module Pacing {
  datatype Packet = Packet(channel: nat, size: nat, sendable: bool)

  datatype Settings = Settings(mtu: nat, loanSeconds: real)

  datatype Notice = Exhausted | Cleared | Reset

  /** The pacing fields of the transport. Time is in microseconds. */
  datatype State = State(tokens: real, time: int, loanDrain: bool, reported: bool, limited: bool, queue: seq<Packet>)

  /** What one heartbeat meets: the clock, the estimated bandwidth in bytes per second, whether a reset was
      asked for, the channels being emptied, and the packets queued since the last heartbeat: audio apart.
      The bandwidth is read again for every packet: readings(n) when n packets are left in the queue. */
  datatype Beat = Beat(now: int, bps: nat, readings: nat -> nat, reset: bool, drained: set<nat>, audio: seq<Packet>,
                       queued: seq<Packet>)

  function Larger(a: real, b: real): real { if a > b then a else b }

  function BucketCap(c: Settings, bps: nat): real {
    Larger(c.mtu as real * 4.0, bps as real * 0.02)
  }

  function LoanLimit(c: Settings, bps: nat): real {
    if c.loanSeconds <= 0.0 then 0.0 else bps as real * c.loanSeconds
  }

  function LoansOf(c: Settings, readings: nat -> nat): nat -> real {
    (n: nat) => LoanLimit(c, readings(n))
  }

  /** What a bandwidth earns over a time. */
  function Earned(bps: nat, from: int, to: int): real {
    bps as real * (to - from) as real / 1000000.0
  }

  function Refilled(c: Settings, s: State, now: int, bps: nat): State {
    if now - s.time <= 0 then s
    else
      var more := s.tokens + Earned(bps, s.time, now);
      var cap := BucketCap(c, bps);
      s.(tokens := if more > cap then cap else more, time := now)
  }

  // ---------- Serving the queue ----------

  /** How the queue was left: the packets sent, in order, those still queued, and why it stopped early. */
  datatype Outcome = Outcome(tokens: real, sent: seq<Packet>, rest: seq<Packet>, exhausted: bool, starved: bool)

  /** Packets of emptied channels, of video while the loan is drained, and without an address are dropped. */
  predicate Skipped(p: Packet, drained: set<nat>, loanDrain: bool) {
    (p.channel < 8 && p.channel in drained) || (p.channel == 0 && loanDrain) || !p.sendable
  }

  /** Video may run into debt up to the loan; everything else needs the tokens at hand. */
  predicate Affordable(p: Packet, tokens: real, loan: real) {
    if p.channel == 0 then tokens - p.size as real >= -loan else tokens >= p.size as real
  }

  /** The queue from its first packet on.  The loan is looked up for every packet, since the bandwidth may change in
      between: loans(n) is the one in force when n packets are left. */
  function Served(tokens: real, queue: seq<Packet>, loans: nat -> real, drained: set<nat>, loanDrain: bool): Outcome
    decreases |queue|
  {
    if queue == [] then Outcome(tokens, [], [], false, false)
    else
      var p, rest := queue[0], queue[1..];
      if Skipped(p, drained, loanDrain) then Served(tokens, rest, loans, drained, loanDrain)
      else if !Affordable(p, tokens, loans(|queue|)) then Outcome(tokens, [], rest, p.channel == 0, p.channel != 0)
      else
        var o := Served(tokens - p.size as real, rest, loans, drained, loanDrain);
        o.(sent := [p] + o.sent)
  }

  function Bytes(sent: seq<Packet>): nat {
    if sent == [] then 0 else sent[0].size + Bytes(sent[1..])
  }

  /** What is spent is what is sent; no video goes out while the loan is drained. */
  lemma {:induction false} ServedSpends(tokens: real, queue: seq<Packet>, loans: nat -> real, drained: set<nat>,
      loanDrain: bool)
    ensures var o := Served(tokens, queue, loans, drained, loanDrain);
            && o.tokens == tokens - Bytes(o.sent) as real
            && (loanDrain ==> !o.exhausted && forall p :: p in o.sent ==> p.channel != 0)
    decreases |queue|
  {
    if queue != [] {
      var p, rest := queue[0], queue[1..];
      if Skipped(p, drained, loanDrain) {
        ServedSpends(tokens, rest, loans, drained, loanDrain);
      } else if Affordable(p, tokens, loans(|queue|)) {
        ServedSpends(tokens - p.size as real, rest, loans, drained, loanDrain);
        var o := Served(tokens - p.size as real, rest, loans, drained, loanDrain);
        assert ([p] + o.sent)[1..] == o.sent;
      }
    }
  }

  /** The debt stays within the largest loan. */
  lemma {:induction false} ServedDebt(tokens: real, queue: seq<Packet>, loans: nat -> real, most: real,
      drained: set<nat>, loanDrain: bool)
    requires tokens >= -most && forall n: nat :: 0.0 <= loans(n) <= most
    ensures -most <= Served(tokens, queue, loans, drained, loanDrain).tokens <= tokens
    decreases |queue|
  {
    if queue != [] {
      var p, rest := queue[0], queue[1..];
      assert 0.0 <= loans(|queue|) <= most;
      if Skipped(p, drained, loanDrain) {
        ServedDebt(tokens, rest, loans, most, drained, loanDrain);
      } else if Affordable(p, tokens, loans(|queue|)) {
        ServedDebt(tokens - p.size as real, rest, loans, most, drained, loanDrain);
      }
    }
  }

  function Kept(queue: seq<Packet>, drained: set<nat>, loanDrain: bool): seq<Packet> {
    if queue == [] then []
    else if Skipped(queue[0], drained, loanDrain) then Kept(queue[1..], drained, loanDrain)
    else [queue[0]] + Kept(queue[1..], drained, loanDrain)
  }

  /** Packet k is not skipped, and the tokens left by those before it do not pay for it. */
  ghost predicate Unpaid(tokens: real, queue: seq<Packet>, loans: nat -> real, drained: set<nat>, loanDrain: bool,
      k: nat)
  {
    && k < |queue| && !Skipped(queue[k], drained, loanDrain)
    && !Affordable(queue[k], tokens - Bytes(Kept(queue[..k], drained, loanDrain)) as real, loans(|queue| - k))
  }

  lemma UnpaidBehind(tokens: real, queue: seq<Packet>, loans: nat -> real, drained: set<nat>, loanDrain: bool, k: nat)
    requires queue != []
    ensures var p := queue[0];
            var left := if Skipped(p, drained, loanDrain) then tokens else tokens - p.size as real;
            Unpaid(tokens, queue, loans, drained, loanDrain, k + 1)
            <==> Unpaid(left, queue[1..], loans, drained, loanDrain, k)
  {
    if k + 1 < |queue| {
      var p := queue[0];
      assert queue[..k + 1][0] == p && queue[..k + 1][1..] == queue[1..][..k];
      var behind := Kept(queue[1..][..k], drained, loanDrain);
      assert ([p] + behind)[1..] == behind;
    }
  }

  lemma UnpaidFirst(tokens: real, queue: seq<Packet>, loans: nat -> real, drained: set<nat>, loanDrain: bool)
    requires queue != []
    ensures Unpaid(tokens, queue, loans, drained, loanDrain, 0)
            <==> !Skipped(queue[0], drained, loanDrain) && !Affordable(queue[0], tokens, loans(|queue|))
  {
    assert Kept(queue[..0], drained, loanDrain) == [];
  }

  /** What becomes of every queued packet: if the tokens fall short of some packet, the first such has been taken
      out and is lost, those before it are sent unless skipped, and those behind it stay; else all are taken out. */
  ghost predicate Fate(tokens: real, queue: seq<Packet>, loans: nat -> real, drained: set<nat>, loanDrain: bool) {
    var o := Served(tokens, queue, loans, drained, loanDrain);
    var k := |queue| - |o.rest| - 1;
    if o.exhausted || o.starved
    then && 0 <= k && Unpaid(tokens, queue, loans, drained, loanDrain, k)
         && (forall j: nat | j < k :: !Unpaid(tokens, queue, loans, drained, loanDrain, j))
         && o.rest == queue[k + 1..] && o.sent == Kept(queue[..k], drained, loanDrain)
         && (o.exhausted <==> queue[k].channel == 0) && (o.starved <==> queue[k].channel != 0)
    else && o.rest == [] && o.sent == Kept(queue, drained, loanDrain)
         && forall j: nat :: !Unpaid(tokens, queue, loans, drained, loanDrain, j)
  }

  /** And the queue is left early exactly when the tokens fall short of some packet. */
  lemma {:induction false} EveryPacketsFate(tokens: real, queue: seq<Packet>, loans: nat -> real, drained: set<nat>,
      loanDrain: bool)
    ensures Fate(tokens, queue, loans, drained, loanDrain)
    ensures var o := Served(tokens, queue, loans, drained, loanDrain);
            o.exhausted || o.starved <==> exists j: nat :: Unpaid(tokens, queue, loans, drained, loanDrain, j)
    decreases |queue|
  {
    hide Unpaid, Affordable, Skipped;
    if queue == [] {
      NothingUnpaid(tokens, loans, drained, loanDrain);
    } else {
      var p, rest := queue[0], queue[1..];
      UnpaidFirst(tokens, queue, loans, drained, loanDrain);
      if Skipped(p, drained, loanDrain) || Affordable(p, tokens, loans(|queue|)) {
        var left := if Skipped(p, drained, loanDrain) then tokens else tokens - p.size as real;
        hide Served, Kept, Bytes;
        EveryPacketsFate(left, rest, loans, drained, loanDrain);
        forall j: nat
          ensures Unpaid(tokens, queue, loans, drained, loanDrain, j + 1)
                  <==> Unpaid(left, rest, loans, drained, loanDrain, j)
        {
          UnpaidBehind(tokens, queue, loans, drained, loanDrain, j);
        }
        FateBehind(tokens, queue, left, loans, drained, loanDrain);
      } else {
        assert queue[..0] == [];
      }
    }
  }

  /** What follows from the first packet being skipped or paid for. */
  lemma ServedBehind(tokens: real, queue: seq<Packet>, left: real, loans: nat -> real, drained: set<nat>,
      loanDrain: bool)
    requires queue != []
    requires left == if Skipped(queue[0], drained, loanDrain) then tokens else tokens - queue[0].size as real
    requires Skipped(queue[0], drained, loanDrain) || Affordable(queue[0], tokens, loans(|queue|))
    ensures var o := Served(tokens, queue, loans, drained, loanDrain);
            var t := Served(left, queue[1..], loans, drained, loanDrain);
            && o.rest == t.rest && o.exhausted == t.exhausted && o.starved == t.starved
            && o.sent == (if Skipped(queue[0], drained, loanDrain) then t.sent else [queue[0]] + t.sent)
  {
    hide Affordable, Skipped;
  }

  lemma KeptBehind(queue: seq<Packet>, drained: set<nat>, loanDrain: bool, k: nat)
    requires k < |queue|
    ensures Kept(queue[..k + 1], drained, loanDrain) ==
            if Skipped(queue[0], drained, loanDrain) then Kept(queue[1..][..k], drained, loanDrain)
            else [queue[0]] + Kept(queue[1..][..k], drained, loanDrain)
  {
    hide Skipped;
    assert queue[..k + 1][0] == queue[0] && queue[..k + 1][1..] == queue[1..][..k];
  }

  lemma UnpaidMoves(tokens: real, queue: seq<Packet>, left: real, loans: nat -> real, drained: set<nat>,
      loanDrain: bool)
    requires queue != [] && !Unpaid(tokens, queue, loans, drained, loanDrain, 0)
    requires forall j: nat :: Unpaid(tokens, queue, loans, drained, loanDrain, j + 1)
                              <==> Unpaid(left, queue[1..], loans, drained, loanDrain, j)
    ensures forall j: nat | Unpaid(tokens, queue, loans, drained, loanDrain, j) ::
              j > 0 && Unpaid(left, queue[1..], loans, drained, loanDrain, j - 1)
    ensures (exists j: nat :: Unpaid(left, queue[1..], loans, drained, loanDrain, j)) ==>
              exists j: nat :: Unpaid(tokens, queue, loans, drained, loanDrain, j)
  {
    hide Unpaid;
    forall j: nat | Unpaid(tokens, queue, loans, drained, loanDrain, j)
      ensures j > 0 && Unpaid(left, queue[1..], loans, drained, loanDrain, j - 1)
    {
      assert j > 0 ==> Unpaid(tokens, queue, loans, drained, loanDrain, (j - 1) + 1);
    }
    if exists j: nat :: Unpaid(left, queue[1..], loans, drained, loanDrain, j) {
      var j: nat :| Unpaid(left, queue[1..], loans, drained, loanDrain, j);
      assert Unpaid(tokens, queue, loans, drained, loanDrain, j + 1);
    }
  }

  lemma FateBehind(tokens: real, queue: seq<Packet>, left: real, loans: nat -> real, drained: set<nat>, loanDrain: bool)
    requires queue != [] && Fate(left, queue[1..], loans, drained, loanDrain)
    requires left == if Skipped(queue[0], drained, loanDrain) then tokens else tokens - queue[0].size as real
    requires Skipped(queue[0], drained, loanDrain) || Affordable(queue[0], tokens, loans(|queue|))
    requires !Unpaid(tokens, queue, loans, drained, loanDrain, 0)
    requires forall j: nat :: Unpaid(tokens, queue, loans, drained, loanDrain, j + 1)
                              <==> Unpaid(left, queue[1..], loans, drained, loanDrain, j)
    ensures Fate(tokens, queue, loans, drained, loanDrain)
    ensures (exists j: nat :: Unpaid(left, queue[1..], loans, drained, loanDrain, j)) ==>
              exists j: nat :: Unpaid(tokens, queue, loans, drained, loanDrain, j)
    ensures var o := Served(tokens, queue, loans, drained, loanDrain);
            var t := Served(left, queue[1..], loans, drained, loanDrain);
            o.exhausted == t.exhausted && o.starved == t.starved
  {
    hide Unpaid, Affordable, Skipped, Served, Kept, Bytes;
    var rest := queue[1..];
    ServedBehind(tokens, queue, left, loans, drained, loanDrain);
    UnpaidMoves(tokens, queue, left, loans, drained, loanDrain);
    var o := Served(left, rest, loans, drained, loanDrain);
    var k := |rest| - |o.rest| - 1;
    if o.exhausted || o.starved {
      assert Unpaid(tokens, queue, loans, drained, loanDrain, k + 1);
      KeptBehind(queue, drained, loanDrain, k);
      assert queue[k + 2..] == rest[k + 1..];
    } else {
      KeptBehind(queue, drained, loanDrain, |rest|);
      assert queue[..|rest| + 1] == queue && rest[..|rest|] == rest;
    }
  }

  /** A file packet that finds too few tokens is lost, though nothing else is. */
  lemma UnpaidFileLost(tokens: real, p: Packet, rest: seq<Packet>, loans: nat -> real)
    requires p.channel != 0 && p.sendable && tokens < p.size as real
    ensures Served(tokens, [p] + rest, loans, {}, false) == Outcome(tokens, [], rest, false, true)
  {
    assert ([p] + rest)[1..] == rest;
  }

  /** For one: a packet of a thousand bytes on channel 2 and an empty bucket. */
  lemma FilePacketLost(loans: nat -> real)
    ensures var p := Packet(2, 1000, true);
            && Unpaid(0.0, [p], loans, {}, false, 0)
            && Served(0.0, [p], loans, {}, false) == Outcome(0.0, [], [], false, true)
  {
    var p := Packet(2, 1000, true);
    UnpaidFileLost(0.0, p, [], loans);
    assert [p] + [] == [p] && [p][..0] == [];
  }

  lemma NothingUnpaid(tokens: real, loans: nat -> real, drained: set<nat>, loanDrain: bool)
    ensures forall j: nat :: !Unpaid(tokens, [], loans, drained, loanDrain, j)
  {
  }

  function Behind(sent: seq<Packet>, o: Outcome): Outcome {
    o.(sent := sent + o.sent)
  }

  /** One turn of the loop that serves the queue, after some packets have been sent. */
  lemma ServeNext(sent: seq<Packet>, tokens: real, queue: seq<Packet>, loans: nat -> real, drained: set<nat>,
      loanDrain: bool)
    requires queue != []
    ensures var p, rest := queue[0], queue[1..];
            Behind(sent, Served(tokens, queue, loans, drained, loanDrain)) ==
            if Skipped(p, drained, loanDrain) then Behind(sent, Served(tokens, rest, loans, drained, loanDrain))
            else if Affordable(p, tokens, loans(|queue|)) then
              Behind(sent + [p], Served(tokens - p.size as real, rest, loans, drained, loanDrain))
            else Outcome(tokens, sent, rest, p.channel == 0, p.channel != 0)
  {
    hide Skipped, Affordable;
    var p, rest := queue[0], queue[1..];
    Appended(sent, p, Served(tokens - p.size as real, rest, loans, drained, loanDrain).sent);
    assert sent + [] == sent;
  }

  lemma NothingServed(tokens: real, loans: nat -> real, drained: set<nat>, loanDrain: bool)
    ensures Served(tokens, [], loans, drained, loanDrain) == Outcome(tokens, [], [], false, false)
  {
  }

  // ---------- Heartbeats ----------

  /** The state after a heartbeat, what it sent from the queue, and its notices in order. */
  function Beaten(c: Settings, s: State, b: Beat): (State, seq<Packet>, seq<Notice>) {
    var filled := Refilled(c, s.(queue := s.queue + b.queued), b.now, b.bps);
    var start := if b.reset then filled.(tokens := 0.0, loanDrain := false, reported := false) else filled;
    var o := Served(start.tokens, start.queue, LoansOf(c, b.readings), b.drained, start.loanDrain);
    var after := start.(tokens := o.tokens, limited := start.tokens < 0.0 || |start.queue| >= 32 || o.starved,
        queue := if o.exhausted then [] else o.rest,
                        loanDrain := start.loanDrain || o.exhausted,
                        reported := start.reported || o.exhausted);
    var tell := if o.exhausted && !start.reported then [Exhausted] else [];
    var reset := if b.reset then [Reset] else [];
    if after.loanDrain && after.tokens >= 0.0
    then (after.(loanDrain := false, reported := false), o.sent, reset + tell + [Cleared])
    else (after, o.sent, reset + tell)
  }

  /** Every bandwidth read during the heartbeat is at most this. */
  ghost predicate Within(b: Beat, top: nat) {
    b.bps <= top && forall n: nat :: b.readings(n) <= top
  }

  /** Tokens between the debt the loan allows and the cap; the drain is what was reported. */
  ghost predicate Sound(c: Settings, s: State, top: nat) {
    -LoanLimit(c, top) <= s.tokens <= BucketCap(c, top) && s.loanDrain == s.reported
  }

  lemma MoreBandwidth(c: Settings, bps: nat, top: nat)
    requires bps <= top
    ensures 0.0 <= LoanLimit(c, bps) <= LoanLimit(c, top) && 0.0 <= BucketCap(c, bps) <= BucketCap(c, top)
  {
    if c.loanSeconds > 0.0 {
      assert bps as real * c.loanSeconds <= top as real * c.loanSeconds;
    }
  }

  lemma EarnMore(bps: nat, top: nat, from: int, to: int)
    requires bps <= top && from <= to
    ensures 0.0 <= Earned(bps, from, to) <= Earned(top, from, to)
  {
    var d := (to - from) as real;
    assert 0.0 <= bps as real * d <= top as real * d;
  }

  lemma RefillBound(c: Settings, s: State, now: int, bps: nat, top: nat)
    requires bps <= top && Sound(c, s, top)
    ensures var r := Refilled(c, s, now, bps);
            && Sound(c, r, top) && r.time >= s.time
            && r.tokens <= s.tokens + Earned(top, s.time, r.time)
  {
    hide Earned, BucketCap, LoanLimit;
    MoreBandwidth(c, bps, top);
    if now > s.time {
      EarnMore(bps, top, s.time, now);
    } else {
      EarnMore(bps, top, s.time, s.time);
    }
  }

  /** One heartbeat sends no more than it spends, and spends no more than it earns and may borrow. */
  lemma BeatBound(c: Settings, s: State, b: Beat, top: nat)
    requires Within(b, top) && Sound(c, s, top)
    ensures var (t, sent, _) := Beaten(c, s, b);
            && Sound(c, t, top) && t.time >= s.time
            && Bytes(sent) as real <= s.tokens - t.tokens + Earned(top, s.time, t.time)
                                      + (if b.reset then LoanLimit(c, top) else 0.0)
  {
    var filled := Refilled(c, s.(queue := s.queue + b.queued), b.now, b.bps);
    RefillBound(c, s.(queue := s.queue + b.queued), b.now, b.bps, top);
    MoreBandwidth(c, b.bps, top);
    var start := if b.reset then filled.(tokens := 0.0, loanDrain := false, reported := false) else filled;
    hide BucketCap, LoanLimit, Refilled, Earned, Served;
    ServedWithin(c, start, b, top);
  }

  lemma ServedWithin(c: Settings, start: State, b: Beat, top: nat)
    requires Within(b, top) && -LoanLimit(c, top) <= start.tokens
    ensures var o := Served(start.tokens, start.queue, LoansOf(c, b.readings), b.drained, start.loanDrain);
            && o.tokens == start.tokens - Bytes(o.sent) as real && -LoanLimit(c, top) <= o.tokens <= start.tokens
            && (start.loanDrain ==> !o.exhausted)
  {
    hide BucketCap, LoanLimit, Served;
    var loans := LoansOf(c, b.readings);
    forall n: nat ensures 0.0 <= loans(n) <= LoanLimit(c, top) {
      MoreBandwidth(c, b.readings(n), top);
    }
    ServedSpends(start.tokens, start.queue, loans, b.drained, start.loanDrain);
    ServedDebt(start.tokens, start.queue, loans, LoanLimit(c, top), b.drained, start.loanDrain);
  }

  // ---------- Runs ----------

  function Lent(times: nat, loan: real): real { times as real * loan }

  function Run(c: Settings, s: State, beats: seq<Beat>): State {
    if beats == [] then s else Beaten(c, Run(c, s, beats[..|beats| - 1]), beats[|beats| - 1]).0
  }

  function Sent(c: Settings, s: State, beats: seq<Beat>): nat {
    if beats == [] then 0
    else Sent(c, s, beats[..|beats| - 1]) + Bytes(Beaten(c, Run(c, s, beats[..|beats| - 1]), beats[|beats| - 1]).1)
  }

  function Resets(beats: seq<Beat>): nat {
    if beats == [] then 0 else Resets(beats[..|beats| - 1]) + if beats[|beats| - 1].reset then 1 else 0
  }

  lemma {:induction false} RunBound(c: Settings, s: State, beats: seq<Beat>, top: nat)
    requires Sound(c, s, top) && forall b :: b in beats ==> Within(b, top)
    ensures var t := Run(c, s, beats);
            && Sound(c, t, top) && t.time >= s.time
            && Sent(c, s, beats) as real <= s.tokens - t.tokens + Earned(top, s.time, t.time)
                                            + Lent(Resets(beats), LoanLimit(c, top))
  {
    if beats == [] {
      NothingYet(c, s, top);
      hide *;
    } else {
      var n := |beats| - 1;
      hide Sound, Beaten, LoanLimit, Earned, Lent;
      RunBound(c, s, beats[..n], top);
      var mid := Run(c, s, beats[..n]);
      BeatBound(c, mid, beats[n], top);
      EarnedAdds(top, s.time, mid.time, Run(c, s, beats).time);
      OneMoreReset(Resets(beats[..n]), beats[n].reset, LoanLimit(c, top));
    }
  }

  lemma NothingYet(c: Settings, s: State, top: nat)
    ensures Run(c, s, []) == s && Sent(c, s, []) == 0 && Resets([]) == 0
    ensures Earned(top, s.time, s.time) == 0.0 && Lent(0, LoanLimit(c, top)) == 0.0
  {
    hide LoanLimit;
  }

  lemma EarnedAdds(top: nat, a: int, b: int, c: int)
    ensures Earned(top, a, b) + Earned(top, b, c) == Earned(top, a, c)
  {}

  lemma OneMoreReset(n: nat, reset: bool, loan: real)
    ensures Lent(n + if reset then 1 else 0, loan) == Lent(n, loan) + if reset then loan else 0.0
  {}

  /** Over any stretch of heartbeats with bandwidth at most B, the bytes sent are at most the cap, the loan,
      B times the time that passed, and one more loan for every reset. */
  lemma RateBound(c: Settings, s: State, beats: seq<Beat>, top: nat)
    requires Sound(c, s, top) && forall b :: b in beats ==> Within(b, top)
    ensures Sent(c, s, beats) as real <= BucketCap(c, top) + LoanLimit(c, top)
              + Earned(top, s.time, Run(c, s, beats).time) + Lent(Resets(beats), LoanLimit(c, top))
  {
    RunBound(c, s, beats, top);
    hide BucketCap, LoanLimit, Earned, Run, Sent, Resets, Lent;
  }

  /** A heartbeat with nothing to send. */
  predicate Idle(b: Beat, bps: nat) {
    b.queued == [] && !b.reset && b.bps == bps
  }

  function Filled(tokens: real, due: real, cap: real): real {
    if tokens + due < cap then tokens + due else cap
  }

  lemma {:induction false} IdleRun(c: Settings, s: State, beats: seq<Beat>, bps: nat, cap: real)
    requires s.queue == [] && s.tokens <= cap == Larger(4.0 * c.mtu as real, 0.02 * bps as real)
    requires forall b :: b in beats ==> Idle(b, bps)
    ensures var t := Run(c, s, beats);
            && t.queue == [] && t.time >= s.time && (forall b :: b in beats ==> b.now <= t.time)
            && t.tokens == Filled(s.tokens, Earned(bps, s.time, t.time), cap)
  {
    EarnedNothing(bps, s.time);
    hide Earned, Beaten, Idle, Larger;
    if beats != [] {
      var n := |beats| - 1;
      IdleRun(c, s, beats[..n], bps, cap);
      var mid, t := Run(c, s, beats[..n]), Run(c, s, beats);
      assert beats[n] in beats && beats == beats[..n] + [beats[n]];
      IdleBeat(c, mid, beats[n], bps);
      EarnMore(bps, bps, mid.time, t.time);
      EarnedAdds(bps, s.time, mid.time, t.time);
      FilledTwice(s.tokens, Earned(bps, s.time, mid.time), Earned(bps, mid.time, t.time), cap);
    }
  }

  lemma EarnedNothing(bps: nat, at: int)
    ensures Earned(bps, at, at) == 0.0
  {}

  /** While nothing is sent the bucket fills at the bandwidth, however often it is looked at, up to four packets of the
      largest size or twenty milliseconds, whichever is more. */
  lemma IdleFills(c: Settings, s: State, beats: seq<Beat>, bps: nat)
    requires s.queue == [] && s.tokens <= Larger(4.0 * c.mtu as real, 0.02 * bps as real)
    requires forall b :: b in beats ==> Idle(b, bps)
    ensures var t := Run(c, s, beats);
            && t.queue == [] && t.time >= s.time && (forall b :: b in beats ==> b.now <= t.time)
            && t.tokens == Filled(s.tokens, bps as real * (t.time - s.time) as real / 1000000.0,
                                  Larger(4.0 * c.mtu as real, 0.02 * bps as real))
  {
    hide Run, Filled, Larger, Idle;
    IdleRun(c, s, beats, bps, Larger(4.0 * c.mtu as real, 0.02 * bps as real));
  }

  lemma FilledTwice(tokens: real, a: real, b: real, cap: real)
    requires b >= 0.0
    ensures Filled(Filled(tokens, a, cap), b, cap) == Filled(tokens, a + b, cap)
  {}

  lemma IdleBeat(c: Settings, s: State, b: Beat, bps: nat)
    requires s.queue == [] && s.tokens <= Larger(4.0 * c.mtu as real, 0.02 * bps as real) && Idle(b, bps)
    ensures var t := Beaten(c, s, b).0;
            var cap := Larger(4.0 * c.mtu as real, 0.02 * bps as real);
            && t.queue == [] && t.time == (if b.now > s.time then b.now else s.time)
            && t.tokens == Filled(s.tokens, Earned(bps, s.time, t.time), cap)
  {
    assert s.queue + b.queued == [];
    assert Earned(bps, s.time, s.time) == 0.0;
    hide Earned;
  }

  /** A lone video packet is sent exactly when tokens and loan together pay for it, the loan being what the bandwidth
      carries in the time of the loan. */
  lemma LoneVideoIff(c: Settings, s: State, b: Beat, p: Packet)
    requires s.queue == [] && b.queued == [p] && p.channel == 0 && p.sendable && 0 !in b.drained
    requires !s.loanDrain && !b.reset && b.now <= s.time && c.loanSeconds > 0.0
    ensures Beaten(c, s, b).1 == [p] <==> p.size as real <= s.tokens + b.readings(1) as real * c.loanSeconds
    ensures Beaten(c, s, b).1 != [p] ==> Beaten(c, s, b).1 == [] && Beaten(c, s, b).0.loanDrain == (s.tokens < 0.0)
  {
    assert s.queue + b.queued == [p] && [p][1..] == [] && [p] + [] == [p];
    var loans := LoansOf(c, b.readings);
    NothingServed(s.tokens, loans, b.drained, false);
    NothingServed(s.tokens - p.size as real, loans, b.drained, false);
    assert Served(s.tokens, [p], loans, b.drained, false) ==
        if Affordable(p, s.tokens, loans(1)) then Outcome(s.tokens - p.size as real, [p], [], false, false)
        else Outcome(s.tokens, [], [], true, false);
    hide Served;
  }

  // ---------- Notices ----------

  function Notices(c: Settings, s: State, beats: seq<Beat>): seq<Notice> {
    if beats == [] then []
    else Notices(c, s, beats[..|beats| - 1]) + Beaten(c, Run(c, s, beats[..|beats| - 1]), beats[|beats| - 1]).2
  }

  /** Exhausted and cleared take turns, a reset putting them back to the start. */
  ghost predicate TakeTurns(notices: seq<Notice>, open: bool)
    decreases |notices|
  {
    notices == [] || match notices[0]
    case Exhausted => !open && TakeTurns(notices[1..], true)
    case Cleared => open && TakeTurns(notices[1..], false)
    case Reset => TakeTurns(notices[1..], false)
  }

  function OpenAfter(notices: seq<Notice>, open: bool): bool {
    if notices == [] then open else OpenAfter(notices[1..], notices[0] == Exhausted)
  }

  lemma {:induction false} TurnsConcat(a: seq<Notice>, b: seq<Notice>, open: bool)
    requires TakeTurns(a, open) && TakeTurns(b, OpenAfter(a, open))
    ensures TakeTurns(a + b, open) && OpenAfter(a + b, open) == OpenAfter(b, OpenAfter(a, open))
    decreases |a|
  {
    if a == [] {
      assert a + b == b;
    } else {
      assert (a + b)[1..] == a[1..] + b;
      TurnsConcat(a[1..], b, a[0] == Exhausted);
    }
  }

  lemma BeatTurns(c: Settings, s: State, b: Beat)
    requires s.loanDrain == s.reported
    ensures var (t, _, notices) := Beaten(c, s, b);
            && t.loanDrain == t.reported
            && TakeTurns(notices, s.loanDrain) && OpenAfter(notices, s.loanDrain) == t.loanDrain
  {
    var filled := Refilled(c, s.(queue := s.queue + b.queued), b.now, b.bps);
    var start := if b.reset then filled.(tokens := 0.0, loanDrain := false, reported := false) else filled;
    ServedSpends(start.tokens, start.queue, LoansOf(c, b.readings), b.drained, start.loanDrain);
    hide Served, BucketCap, LoanLimit;
    ShortTurns();
  }

  lemma ShortTurns()
    ensures [] + [] + [Cleared] == [Cleared] && [Reset] + [] + [Cleared] == [Reset, Cleared]
    ensures [] + [Exhausted] + [Cleared] == [Exhausted, Cleared]
    ensures [Reset] + [Exhausted] + [Cleared] == [Reset, Exhausted, Cleared]
    ensures [Reset] + [Exhausted] == [Reset, Exhausted]
    ensures [Reset, Exhausted, Cleared][1..] == [Exhausted, Cleared] && [Exhausted, Cleared][1..] == [Cleared]
    ensures [Reset, Exhausted][1..] == [Exhausted] && [Exhausted][1..] == []
    ensures [Cleared][1..] == [] && [Reset][1..] == []
  {}

  /** On every run the notices take turns: two of exhaustion are separated by a clearing or a reset. */
  lemma {:induction false} NoticesTakeTurns(c: Settings, s: State, beats: seq<Beat>)
    requires s.loanDrain == s.reported
    ensures var t := Run(c, s, beats);
            && t.loanDrain == t.reported && TakeTurns(Notices(c, s, beats), s.loanDrain)
            && OpenAfter(Notices(c, s, beats), s.loanDrain) == t.loanDrain
  {
    if beats != [] {
      var n := |beats| - 1;
      NoticesTakeTurns(c, s, beats[..n]);
      BeatTurns(c, Run(c, s, beats[..n]), beats[n]);
      hide Beaten;
      TurnsConcat(Notices(c, s, beats[..n]), Beaten(c, Run(c, s, beats[..n]), beats[n]).2, s.loanDrain);
    }
  }

  lemma {:induction false} ExhaustedApart(notices: seq<Notice>, open: bool, i: nat, j: nat)
    requires TakeTurns(notices, open) && i < j < |notices| && notices[i] == Exhausted && notices[j] == Exhausted
    ensures exists k :: i < k < j && notices[k] != Exhausted
    decreases |notices|
  {
    if i > 0 {
      ExhaustedApart(notices[1..], notices[0] == Exhausted, i - 1, j - 1);
      var k :| i - 1 < k < j - 1 && notices[1..][k] != Exhausted;
      assert notices[k + 1] != Exhausted;
    } else {
      assert notices[1..][0] != Exhausted;
      assert notices[1] != Exhausted;
    }
  }

  /** While the loan is being drained no video leaves. */
  lemma DrainSendsNoVideo(c: Settings, s: State, b: Beat)
    requires s.loanDrain && !b.reset
    ensures forall p :: p in Beaten(c, s, b).1 ==> p.channel != 0
  {
    var start := Refilled(c, s.(queue := s.queue + b.queued), b.now, b.bps);
    ServedSpends(start.tokens, start.queue, LoansOf(c, b.readings), b.drained, true);
    hide Served, LoanLimit, BucketCap;
  }

  // ---------- The sender object ----------

  class Sender {
    const settings: Settings
    var tokens: real
    var time: int
    var loanDrain: bool
    var reported: bool
    var limited: bool
    var queue: seq<Packet>

    function AsState(): State
      reads this
    {
      State(tokens, time, loanDrain, reported, limited, queue)
    }

    constructor (settings: Settings, now: int)
      ensures AsState() == State(0.0, now, false, false, false, []) && this.settings == settings
      ensures Sound(settings, AsState(), 0)
    {
      this.settings := settings;
      tokens, time, loanDrain, reported, limited, queue := 0.0, now, false, false, false, [];
      new;
      MoreBandwidth(settings, 0, 0);
    }

    method RefillTokenBucket(now: int, bps: nat)
      modifies this
      ensures AsState() == Refilled(settings, old(AsState()), now, bps)
    {
      if now - time <= 0 {
        return;
      }
      tokens := tokens + Earned(bps, time, now);
      var cap := BucketCap(settings, bps);
      if tokens > cap {
        tokens := cap;
      }
      time := now;
    }

    /** Takes packets from the queue until it is empty or one cannot be paid for. */
    method ServeQueue(readings: nat -> nat, drained: set<nat>) returns (sent: seq<Packet>, exhausted: bool)
      modifies `tokens, `queue, `limited
      ensures var o := Served(old(tokens), old(queue), LoansOf(settings, readings), drained, loanDrain);
              && tokens == o.tokens && queue == o.rest && sent == o.sent && exhausted == o.exhausted
              && limited == (old(limited) || o.starved)
    {
      hide Served, LoanLimit;
      ghost var loans := LoansOf(settings, readings);
      ghost var whole := Served(tokens, queue, loans, drained, loanDrain);
      sent, exhausted := [], false;
      while queue != []
        invariant limited == old(limited)
        invariant whole == Behind(sent, Served(tokens, queue, loans, drained, loanDrain))
        decreases |queue|
      {
        var p, n := queue[0], |queue|;
        ServeNext(sent, tokens, queue, loans, drained, loanDrain);
        queue := queue[1..];
        if (p.channel < 8 && p.channel in drained) || (p.channel == 0 && loanDrain) || !p.sendable {
        } else if p.channel == 0 {
          if tokens - p.size as real >= -LoanLimit(settings, readings(n)) {
            tokens := tokens - p.size as real;
            sent := sent + [p];
          } else {
            exhausted := true;
            return;
          }
        } else {
          if tokens >= p.size as real {
            tokens := tokens - p.size as real;
            sent := sent + [p];
          } else {
            limited := true;
            return;
          }
        }
      }
      NothingServed(tokens, loans, drained, loanDrain);
    }

    /** Audio needs no tokens: all of it goes out, but for emptied channels and packets without an address. */
    method ServeAudio(audio: seq<Packet>, drained: set<nat>) returns (played: seq<Packet>)
      ensures played == Kept(audio, drained, false)
    {
      played := [];
      var rest := audio;
      while rest != []
        invariant played + Kept(rest, drained, false) == Kept(audio, drained, false)
        decreases |rest|
      {
        var p := rest[0];
        if !((p.channel < 8 && p.channel in drained) || !p.sendable) {
          Appended(played, p, Kept(rest[1..], drained, false));
          played := played + [p];
        }
        rest := rest[1..];
      }
      assert played + [] == played;
    }

    method Heartbeat(b: Beat) returns (played: seq<Packet>, sent: seq<Packet>, notices: seq<Notice>)
      modifies this
      ensures played == Kept(b.audio, b.drained, false)
      ensures (AsState(), sent, notices) == Beaten(settings, old(AsState()), b)
    {
      hide Served, Refilled, Kept;
      queue := queue + b.queued;
      RefillTokenBucket(b.now, b.bps);
      notices := if b.reset then [Reset] else [];
      if b.reset {
        tokens, loanDrain, reported := 0.0, false, false;
      }
      limited := tokens < 0.0 || |queue| >= 32;
      played := ServeAudio(b.audio, b.drained);
      var exhausted;
      sent, exhausted := ServeQueue(b.readings, b.drained);
      notices := notices + if exhausted && !reported then [Exhausted] else [];
      if exhausted {
        queue := [];
        loanDrain, reported := true, true;
      }
      if loanDrain && tokens >= 0.0 {
        loanDrain, reported := false, false;
        notices := notices + [Cleared];
      }
    }
  }

  lemma Appended(sent: seq<Packet>, p: Packet, rest: seq<Packet>)
    ensures sent + ([p] + rest) == sent + [p] + rest
  {}
}
