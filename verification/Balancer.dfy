/** Sticky balancing: a session keeps its endpoint while it is used often enough and the endpoint lives. */
module Balancer {
  import opened Common

  datatype Target = Target(id: string, alive: bool)

  datatype Entry = Entry(endpointId: string, lastUsed: int, lruSince: int, lru: bool)

  /** A request: its service, its metadata, and the hash the host gives strings. */
  datatype Request = Request(service: string, metadata: map<string, string>, hash: string -> nat)

  datatype State = State(entries: map<string, Entry>, roundRobin: nat, capacity: nat, ttl: int)

  predicate Sticky(metadata: map<string, string>) {
    "sticky" in metadata && (metadata["sticky"] == "true" || metadata["sticky"] == "1")
  }

  function Sid(metadata: map<string, string>): Option<string> {
    if "sid" in metadata && metadata["sid"] != "" then Some(metadata["sid"]) else None
  }

  function ShardKey(metadata: map<string, string>): Option<string> {
    if "shard_key" in metadata && metadata["shard_key"] != "" then Some(metadata["shard_key"])
    else if "tenant_id" in metadata && metadata["tenant_id"] != "" then Some(metadata["tenant_id"])
    else None
  }

  /** The session of a request, if it has one. */
  function Session(r: Request): Option<string> {
    if ShardKey(r.metadata).Some? || !Sticky(r.metadata) || Sid(r.metadata).None? then None
    else Some(r.service + "|" + Sid(r.metadata).value)
  }

  /** The first endpoint of the list with the id, if it is alive. */
  function LiveTarget(targets: seq<Target>, id: string): Option<Target> {
    if targets == [] then None
    else if targets[0].id == id then (if targets[0].alive then Some(targets[0]) else None)
    else LiveTarget(targets[1..], id)
  }

  // ---------- Ageing and eviction ----------

  function AgedEntry(e: Entry, ttl: int, now: int): Entry {
    if !e.lru && now - e.lastUsed >= ttl then e.(lru := true, lruSince := now) else e
  }

  function Aged(entries: map<string, Entry>, ttl: int, now: int): map<string, Entry> {
    map k | k in entries :: AgedEntry(entries[k], ttl, now)
  }

  function Idle(entries: map<string, Entry>): set<string> {
    set k | k in entries && entries[k].lru
  }

  /** Only idle entries go, the longest idle ones, and no more than needed. */
  ghost predicate Evicts(before: map<string, Entry>, after: map<string, Entry>, capacity: nat) {
    && after.Keys <= before.Keys && (forall k :: k in after ==> after[k] == before[k])
    && (forall k :: k in before && !before[k].lru ==> k in after)
    && |Idle(after)| == (if |Idle(before)| > capacity then capacity else |Idle(before)|)
    && (forall k, j ::
          k in before && k !in after && j in after && after[j].lru ==> before[k].lruSince <= after[j].lruSince)
  }

  // ---------- Choosing ----------

  /** The next in turn. */
  function InTurn(roundRobin: nat, targets: seq<Target>): Target
    requires targets != []
  {
    targets[roundRobin % |targets|]
  }

  /** The choice, and the state it leaves, once ageing and eviction are done. */
  function Chosen(s: State, r: Request, targets: seq<Target>, now: int): (State, Target)
    requires targets != []
  {
    var shard := ShardKey(r.metadata);
    var next := InTurn(s.roundRobin, targets);
    if shard.Some? then (s, targets[r.hash(shard.value) % |targets|])
    else if Session(r).None? then (s.(roundRobin := s.roundRobin + 1), next)
    else
      var key := Session(r).value;
      var live := if key in s.entries && !s.entries[key].lru
                  then LiveTarget(targets, s.entries[key].endpointId) else None;
      if live.Some? then (s.(entries := s.entries[key := s.entries[key].(lastUsed := now)]), live.value)
      else (s.(entries := s.entries[key := Entry(next.id, now, 0, false)], roundRobin := s.roundRobin + 1), next)
  }

  /** One pick; which of two entries idle equally long goes first is left open. */
  ghost predicate Picks(s: State, r: Request, targets: seq<Target>, now: int, t: State, result: Option<Target>) {
    if targets == [] then t == s && result == None
    else exists kept ::
      && Evicts(Aged(s.entries, s.ttl, now), kept, s.capacity)
      && t == Chosen(s.(entries := kept), r, targets, now).0
      && result == Some(Chosen(s.(entries := kept), r, targets, now).1)
  }

  function Invalidated(s: State, id: string): State {
    s.(entries := map k | k in s.entries && s.entries[k].endpointId != id :: s.entries[k])
  }

  function Retimed(s: State, ttl: int): State {
    s.(entries := map[], ttl := ttl)
  }

  // ---------- Sessions keep their endpoint ----------

  /** The session was last served by the endpoint at the time. */
  ghost predicate Serves(s: State, key: string, id: string, at: int) {
    key in s.entries && !s.entries[key].lru && s.entries[key].endpointId == id && s.entries[key].lastUsed == at
  }

  ghost predicate Available(targets: seq<Target>, id: string) {
    LiveTarget(targets, id).Some?
  }

  lemma {:induction false} LiveTargetIs(targets: seq<Target>, id: string)
    ensures LiveTarget(targets, id).Some? ==>
              LiveTarget(targets, id).value.id == id && LiveTarget(targets, id).value in targets
  {
    if targets != [] && targets[0].id != id {
      LiveTargetIs(targets[1..], id);
    }
  }

  /** Within the time to live, a session is served by the same endpoint as long as that is alive. */
  lemma PickKeepsEndpoint(s: State, r: Request, targets: seq<Target>, now: int, t: State, result: Option<Target>,
                          key: string, id: string, at: int)
    requires Picks(s, r, targets, now, t, result) && Serves(s, key, id, at) && now - at < s.ttl
    requires Session(r) == Some(key) && Available(targets, id)
    ensures result.Some? && result.value.id == id && Serves(t, key, id, now)
  {
    LiveTargetIs(targets, id);
  }

  /** Whatever endpoint a session is given, the first time or again, it is recorded as served by it. */
  lemma PickRecords(s: State, r: Request, targets: seq<Target>, now: int, t: State, result: Option<Target>, key: string)
    requires Picks(s, r, targets, now, t, result) && targets != [] && Session(r) == Some(key)
    ensures result.Some? && result.value in targets && Serves(t, key, result.value.id, now)
  {
    var kept: map<string, Entry> :| Evicts(Aged(s.entries, s.ttl, now), kept, s.capacity) &&
                t == Chosen(s.(entries := kept), r, targets, now).0 &&
                result == Some(Chosen(s.(entries := kept), r, targets, now).1);
    hide Evicts, Aged, LiveTarget;
    if key in kept {
      LiveTargetIs(targets, kept[key].endpointId);
    }
  }

  /** What other sessions do in the meantime does not disturb it. */
  lemma PickLeavesOthers(s: State, r: Request, targets: seq<Target>, now: int, t: State, result: Option<Target>,
                         key: string, id: string, at: int)
    requires Picks(s, r, targets, now, t, result) && Serves(s, key, id, at) && now - at < s.ttl
    requires Session(r) != Some(key)
    ensures Serves(t, key, id, at)
  {
  }

  /** After every pick among any endpoints the idle entries number at most the capacity. */
  lemma PickBounded(s: State, r: Request, targets: seq<Target>, now: int, t: State, result: Option<Target>)
    requires Picks(s, r, targets, now, t, result) && targets != []
    ensures |Idle(t.entries)| <= t.capacity == s.capacity
  {
    var kept :| Evicts(Aged(s.entries, s.ttl, now), kept, s.capacity) &&
                t == Chosen(s.(entries := kept), r, targets, now).0;
    EvictedIdle(Aged(s.entries, s.ttl, now), kept, s.capacity);
    hide Evicts, Aged;
    ChosenIdle(s.(entries := kept), r, targets, now);
    SubsetSize(Idle(t.entries), Idle(kept));
  }

  /** Choosing makes no entry idle. */
  lemma ChosenIdle(s: State, r: Request, targets: seq<Target>, now: int)
    requires targets != []
    ensures Idle(Chosen(s, r, targets, now).0.entries) <= Idle(s.entries)
    ensures Chosen(s, r, targets, now).0.capacity == s.capacity
  {}

  lemma EvictedIdle(before: map<string, Entry>, after: map<string, Entry>, capacity: nat)
    requires Evicts(before, after, capacity)
    ensures |Idle(after)| <= capacity
  {}

  // ---------- Runs ----------

  datatype Event =
    | Pick(request: Request, targets: seq<Target>, now: int)
    | Invalidate(id: string)
    | Retime(ttl: int)

  ghost predicate Follows(s: State, e: Event, t: State) {
    match e
    case Pick(r, targets, now) => exists result :: Picks(s, r, targets, now, t, result)
    case Invalidate(id) => t == Invalidated(s, id)
    case Retime(ttl) => t == Retimed(s, ttl)
  }

  ghost predicate IsRun(states: seq<State>, events: seq<Event>) {
    |states| == |events| + 1 && forall i :: 0 <= i < |events| ==> Follows(states[i], events[i], states[i + 1])
  }

  /** Events that leave the session alone: within the time to live, the endpoint not invalidated, and alive
      whenever the session itself is served. */
  ghost predicate Harmless(e: Event, key: string, id: string, from: int, until: int) {
    match e
    case Pick(r, targets, now) => from <= now < until && (Session(r) == Some(key) ==> Available(targets, id))
    case Invalidate(other) => other != id
    case Retime(_) => false
  }

  lemma StepKeeps(s: State, e: Event, t: State, key: string, id: string, at: int, from: int)
    requires Follows(s, e, t) && Serves(s, key, id, at) && at >= from
    requires Harmless(e, key, id, from, from + s.ttl)
    ensures t.ttl == s.ttl && t.capacity == s.capacity
    ensures exists later :: later >= from && Serves(t, key, id, later)
  {
    match e
    case Pick(r, targets, now) =>
      var result :| Picks(s, r, targets, now, t, result);
      if Session(r) == Some(key) {
        PickKeepsEndpoint(s, r, targets, now, t, result, key, id, at);
      } else {
        PickLeavesOthers(s, r, targets, now, t, result, key, id, at);
      }
    case Invalidate(other) =>
      assert Serves(t, key, id, at);
  }

  /** Whatever other sessions did since, a session last served by an endpoint is served by it again before
      the time to live is over. */
  lemma {:induction false} SessionStays(states: seq<State>, events: seq<Event>, key: string, id: string, from: int)
    requires IsRun(states, events) && Serves(states[0], key, id, from)
    requires forall e :: e in events ==> Harmless(e, key, id, from, from + states[0].ttl)
    ensures var last := states[|events|];
            && last.ttl == states[0].ttl
            && exists at :: at >= from && Serves(last, key, id, at)
  {
    if events != [] {
      var n := |events| - 1;
      forall e | e in events[..n] ensures Harmless(e, key, id, from, from + states[0].ttl) {
        assert e in events;
      }
      SessionStays(states[..n + 1], events[..n], key, id, from);
      var at :| at >= from && Serves(states[n], key, id, at);
      assert events[n] in events;
      StepKeeps(states[n], events[n], states[n + 1], key, id, at, from);
    }
  }

  lemma SessionServedAgain(states: seq<State>, events: seq<Event>, key: string, id: string, from: int,
                           r: Request, targets: seq<Target>, now: int, t: State, result: Option<Target>)
    requires IsRun(states, events) && Serves(states[0], key, id, from)
    requires forall e :: e in events ==> Harmless(e, key, id, from, from + states[0].ttl)
    requires Picks(states[|events|], r, targets, now, t, result)
    requires Harmless(Pick(r, targets, now), key, id, from, from + states[0].ttl) && Session(r) == Some(key)
    ensures result.Some? && result.value.id == id
  {
    SessionStays(states, events, key, id, from);
    var at :| at >= from && Serves(states[|events|], key, id, at);
    PickKeepsEndpoint(states[|events|], r, targets, now, t, result, key, id, at);
  }

  /** A pick without session and without key for a shard. */
  ghost predicate Plain(e: Event, targets: seq<Target>) {
    e.Pick? && e.targets == targets && ShardKey(e.request.metadata) == None && Session(e.request) == None
  }

  ghost predicate Yields(s: State, e: Event, t: State, target: Target) {
    e.Pick? && Picks(s, e.request, e.targets, e.now, t, Some(target))
  }

  lemma PlainPick(s: State, e: Event, t: State, targets: seq<Target>)
    requires Follows(s, e, t) && Plain(e, targets) && targets != []
    ensures t.roundRobin == s.roundRobin + 1
    ensures Yields(s, e, t, targets[s.roundRobin % |targets|])
  {
    hide Evicts, Aged;
    var result :| Picks(s, e.request, e.targets, e.now, t, result);
  }

  lemma {:induction false} PlainPicks(states: seq<State>, events: seq<Event>, targets: seq<Target>, i: nat)
    requires IsRun(states, events) && targets != [] && forall e :: e in events ==> Plain(e, targets)
    requires i <= |events|
    ensures states[i].roundRobin == states[0].roundRobin + i
  {
    if i > 0 {
      PlainPicks(states, events, targets, i - 1);
      hide Follows;
      assert Follows(states[i - 1], events[i - 1], states[i - 1 + 1]);
      PlainPick(states[i - 1], events[i - 1], states[i], targets);
    }
  }

  /** As many plain picks in a row as there are endpoints reach every one of them. */
  lemma EveryTargetPicked(states: seq<State>, events: seq<Event>, targets: seq<Target>, k: nat) returns (i: nat)
    requires IsRun(states, events) && forall e :: e in events ==> Plain(e, targets)
    requires k < |targets| == |events|
    ensures i < |events| && Yields(states[i], events[i], states[i + 1], targets[k])
  {
    i := (k - states[0].roundRobin) % |targets|;
    TurnOf(states[0].roundRobin, k, |targets|);
    PlainPicks(states, events, targets, i);
    hide Follows;
    assert Follows(states[i], events[i], states[i + 1]);
    PlainPick(states[i], events[i], states[i + 1], targets);
  }

  lemma TurnOf(from: nat, k: nat, n: nat)
    requires k < n
    ensures var i := (k - from) % n; i < n && (from + i) % n == k
  {
    var q := (k - from) / n;
    assert k - from == q * n + (k - from) % n;
    assert from + (k - from) % n == k + (-q) * n;
    SameRemainder(k, n, -q);
  }

  lemma SameRemainder(k: nat, n: nat, q: int)
    requires k < n
    ensures (k + q * n) % n == k
  {
    var d := (k + q * n) / n - q;
    assert (k + q * n) % n == k - d * n;
    assert d >= 1 ==> d * n >= n;
    assert d <= -1 ==> d * n + n <= 0;
  }

  lemma InvalidatedIdle(s: State, id: string)
    ensures Idle(Invalidated(s, id).entries) <= Idle(s.entries)
  {
  }

  lemma StepBounded(s: State, e: Event, t: State)
    requires Follows(s, e, t) && |Idle(s.entries)| <= s.capacity
    ensures |Idle(t.entries)| <= t.capacity == s.capacity
  {
    hide Evicts;
    match e
    case Pick(r, targets, now) =>
      var result :| Picks(s, r, targets, now, t, result);
      if targets != [] {
        PickBounded(s, r, targets, now, t, result);
      }
    case Invalidate(id) =>
      InvalidatedIdle(s, id);
      SubsetSize(Idle(t.entries), Idle(s.entries));
    case Retime(ttl) =>
      assert Idle(t.entries) == {};
  }

  /** On every run, picks on an empty list included, the idle entries never number more than the capacity. */
  lemma {:induction false} IdleBounded(states: seq<State>, events: seq<Event>)
    requires IsRun(states, events) && |Idle(states[0].entries)| <= states[0].capacity
    ensures forall i: nat | i < |states| ::
              |Idle(states[i].entries)| <= states[i].capacity == states[0].capacity
  {
    if events != [] {
      var n := |events| - 1;
      IdleBounded(states[..n + 1], events[..n]);
      hide Follows, Idle;
      assert Follows(states[n], events[n], states[n + 1]);
      assert states[..n + 1][n] == states[n];
      StepBounded(states[n], events[n], states[n + 1]);
      forall i: nat | i < |states|
        ensures |Idle(states[i].entries)| <= states[i].capacity == states[0].capacity
      {
        if i <= n {
          assert states[..n + 1][i] == states[i];
        }
      }
    }
  }

  ghost predicate LongestIdle(entries: map<string, Entry>, among: set<string>, k: string)
    requires k in entries
  {
    forall j :: j in among && j in entries ==> entries[k].lruSince <= entries[j].lruSince
  }

  /** What the walk over the entries has found among those not in todo. */
  ghost predicate Found(entries: map<string, Entry>, todo: set<string>, count: nat, oldest: Option<string>) {
    var found := Idle(entries) - todo;
    && count == |found|
    && (oldest.Some? <==> found != {})
    && (oldest.Some? ==> oldest.value in found && oldest.value in entries && LongestIdle(entries, found, oldest.value))
  }

  lemma NothingFound(entries: map<string, Entry>)
    ensures Found(entries, entries.Keys, 0, None)
  {
    assert Idle(entries) - entries.Keys == {};
  }

  lemma FoundMore(entries: map<string, Entry>, todo: set<string>, count: nat, oldest: Option<string>, k: string)
    requires Found(entries, todo, count, oldest) && k in todo && k in entries
    ensures oldest.Some? ==> oldest.value in entries
    ensures !entries[k].lru ==> Found(entries, todo - {k}, count, oldest)
    ensures entries[k].lru ==>
              Found(entries, todo - {k}, count + 1,
                    if oldest.None? || entries[k].lruSince < entries[oldest.value].lruSince then Some(k) else oldest)
  {
    var found := Idle(entries) - todo;
    assert Idle(entries) - (todo - {k}) == if entries[k].lru then found + {k} else found;
  }

  lemma FoundAll(entries: map<string, Entry>, count: nat, oldest: Option<string>)
    requires Found(entries, {}, count, oldest)
    ensures count == |Idle(entries)| && (count > 0 ==> oldest.Some? && oldest.value in Idle(entries))
    ensures oldest.Some? ==> oldest.value in entries && LongestIdle(entries, Idle(entries), oldest.value)
  {
    assert Idle(entries) - {} == Idle(entries);
  }

  // ---------- The balancer object ----------

  class StickyBalancer {
    var entries: map<string, Entry>
    var capacity: nat
    var ttl: int
    var roundRobin: nat

    function AsState(): State
      reads this
    {
      State(entries, roundRobin, capacity, ttl)
    }

    constructor (capacity: nat, ttl: int)
      ensures AsState() == State(map[], 0, capacity, ttl)
    {
      this.capacity, this.ttl, entries, roundRobin := capacity, ttl, map[], 0;
    }

    method Age(now: int)
      modifies `entries
      ensures entries == Aged(old(entries), ttl, now)
    {
      ghost var before := entries;
      var todo := entries.Keys;
      while todo != {}
        invariant todo <= before.Keys && entries.Keys == before.Keys
        invariant forall k :: k in before ==>
                    entries[k] == (if k in todo then before[k] else AgedEntry(before[k], ttl, now))
        decreases todo
      {
        var k :| k in todo;
        if !entries[k].lru && now - entries[k].lastUsed >= ttl {
          entries := entries[k := entries[k].(lru := true, lruSince := now)];
        }
        todo := todo - {k};
      }
    }

    /** Counts the idle entries and finds one idle longest. */
    method Oldest() returns (count: nat, oldest: Option<string>)
      ensures count == |Idle(entries)|
      ensures count > 0 ==> oldest.Some? && oldest.value in Idle(entries)
      ensures oldest.Some? ==> oldest.value in entries && LongestIdle(entries, Idle(entries), oldest.value)
    {
      hide Found, Idle, LongestIdle;
      var todo := entries.Keys;
      count, oldest := 0, None;
      NothingFound(entries);
      while todo != {}
        invariant todo <= entries.Keys && Found(entries, todo, count, oldest)
        decreases todo
      {
        var k :| k in todo;
        FoundMore(entries, todo, count, oldest, k);
        if entries[k].lru {
          count := count + 1;
          if oldest.None? || entries[k].lruSince < entries[oldest.value].lruSince {
            oldest := Some(k);
          }
        }
        todo := todo - {k};
      }
      FoundAll(entries, count, oldest);
    }

    method Evict()
      modifies `entries
      ensures Evicts(old(entries), entries, capacity)
    {
      ghost var before := entries;
      var count, oldest := Oldest();
      while count > capacity
        invariant Evicting(before, entries)
        invariant count == |Idle(entries)| && (count >= capacity || entries == before)
        invariant count > 0 ==> oldest.Some? && oldest.value in Idle(entries)
        invariant oldest.Some? ==> oldest.value in entries && LongestIdle(entries, Idle(entries), oldest.value)
        invariant entries != before ==> |Idle(before)| > capacity
        decreases count
      {
        EvictOne(before, entries, oldest.value);
        entries := entries - {oldest.value};
        count, oldest := Oldest();
      }
    }

    method Pick(r: Request, targets: seq<Target>, now: int) returns (result: Option<Target>)
      modifies this
      ensures Picks(old(AsState()), r, targets, now, AsState(), result)
    {
      if targets == [] {
        return None;
      }
      Age(now);
      Evict();
      ghost var kept := entries;
      ghost var s := old(AsState()).(entries := kept);
      result := Choose(r, targets, now);
      assert AsState() == Chosen(s, r, targets, now).0 && result == Some(Chosen(s, r, targets, now).1);
    }

    method Choose(r: Request, targets: seq<Target>, now: int) returns (result: Option<Target>)
      requires targets != []
      modifies this
      ensures (AsState(), result) == (Chosen(old(AsState()), r, targets, now).0,
          Some(Chosen(old(AsState()), r, targets, now).1))
    {
      var shard := ShardKey(r.metadata);
      if shard.Some? {
        return Some(targets[r.hash(shard.value) % |targets|]);
      }
      var session := Session(r);
      if session.None? {
        var t := NextInTurn(targets);
        return Some(t);
      }
      var key := session.value;
      if key in entries && !entries[key].lru {
        var live := LiveTarget(targets, entries[key].endpointId);
        if live.Some? {
          entries := entries[key := entries[key].(lastUsed := now)];
          return live;
        }
      }
      var replacement := NextInTurn(targets);
      entries := entries[key := Entry(replacement.id, now, 0, false)];
      return Some(replacement);
    }

    method NextInTurn(targets: seq<Target>) returns (t: Target)
      requires targets != []
      modifies `roundRobin
      ensures t == InTurn(old(roundRobin), targets) && roundRobin == old(roundRobin) + 1
    {
      t := targets[roundRobin % |targets|];
      roundRobin := roundRobin + 1;
    }

    method Invalidate(id: string)
      modifies `entries
      ensures AsState() == Invalidated(old(AsState()), id)
    {
      entries := map k | k in entries && entries[k].endpointId != id :: entries[k];
    }

    method SetTtl(ttl: int)
      modifies this
      ensures AsState() == Retimed(old(AsState()), ttl)
    {
      this.ttl := ttl;
      entries := map[];
    }
  }

  /** Part of the way through an eviction. */
  ghost predicate Evicting(before: map<string, Entry>, after: map<string, Entry>) {
    && after.Keys <= before.Keys && (forall k :: k in after ==> after[k] == before[k])
    && (forall k :: k in before && !before[k].lru ==> k in after)
    && (forall k, j ::
          k in before && k !in after && j in after && after[j].lru ==> before[k].lruSince <= after[j].lruSince)
    && |Idle(after)| <= |Idle(before)|
  }

  lemma EvictOne(before: map<string, Entry>, now: map<string, Entry>, k: string)
    requires Evicting(before, now) && k in Idle(now)
    requires LongestIdle(now, Idle(now), k)
    ensures Evicting(before, now - {k})
    ensures |Idle(now - {k})| == |Idle(now)| - 1
  {
    assert Idle(now - {k}) == Idle(now) - {k};
  }
}
