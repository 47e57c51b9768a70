/** The replicated directory of endpoints: the last writer wins, removals leave tombstones. */
module Directory {
  import opened Common

  const TOMBSTONE_TTL_MS := 60000

  /** `content` stands for the fields the directory only carries. */
  datatype Endpoint = Endpoint(id: string, version: nat, updatedMs: nat, content: string)

  datatype Tombstone = Tombstone(version: nat, updatedMs: nat, removedMs: nat)

  datatype Removal = Removal(id: string, version: nat, updatedMs: nat)

  datatype Snapshot = Snapshot(endpoints: seq<Endpoint>, removed: seq<Removal>)

  datatype State = State(endpoints: map<string, Endpoint>, tombstones: map<string, Tombstone>, version: nat)

  predicate Newer(a: Endpoint, b: Endpoint) {
    a.version > b.version || (a.version == b.version && a.updatedMs > b.updatedMs)
  }

  predicate Buried(s: State, e: Endpoint) {
    e.id in s.tombstones && e.version <= s.tombstones[e.id].version
  }

  function Merged(s: State, e: Endpoint): State {
    if e.id == "" || Buried(s, e) || (e.id in s.endpoints && !Newer(e, s.endpoints[e.id])) then s
    else s.(endpoints := s.endpoints[e.id := e], version := s.version + 1)
  }

  function Removed(s: State, r: Removal, now: nat): State {
    if r.id == "" then s
    else
      var gone := r.id in s.endpoints && s.endpoints[r.id].version <= r.version;
      var higher := r.id !in s.tombstones || s.tombstones[r.id].version < r.version;
      State(if gone then s.endpoints - {r.id} else s.endpoints,
            if higher then s.tombstones[r.id := Tombstone(r.version, r.updatedMs, now)] else s.tombstones,
            if gone then s.version + 1 else s.version)
  }

  // ---------- Runs ----------

  datatype Event = Learned(endpoint: Endpoint) | Dropped(removal: Removal, now: nat)

  function Applied(s: State, e: Event): State {
    match e
    case Learned(endpoint) => Merged(s, endpoint)
    case Dropped(removal, now) => Removed(s, removal, now)
  }

  const EMPTY := State(map[], map[], 0)

  function Run(s: State, events: seq<Event>): State {
    if events == [] then s else Applied(Run(s, events[..|events| - 1]), events[|events| - 1])
  }

  /** The endpoints and removals a replica has been told of, under non-empty ids. */
  datatype Knowledge = Knowledge(told: set<Endpoint>, dead: set<(string, nat)>)

  function With(k: Knowledge, e: Event): Knowledge {
    match e
    case Learned(x) => if x.id == "" then k else k.(told := k.told + {x})
    case Dropped(r, _) => if r.id == "" then k else k.(dead := k.dead + {(r.id, r.version)})
  }

  function KnowledgeOf(events: seq<Event>): Knowledge {
    if events == [] then Knowledge({}, {})
    else With(KnowledgeOf(events[..|events| - 1]), events[|events| - 1])
  }

  function Together(a: Knowledge, b: Knowledge): Knowledge {
    Knowledge(a.told + b.told, a.dead + b.dead)
  }

  /** No known removal reaches the version. */
  ghost predicate Alive(k: Knowledge, e: Endpoint) {
    forall v: nat :: (e.id, v) in k.dead ==> v < e.version
  }

  /** The tombstone of an id carries the highest version removed. */
  ghost predicate TombstonesMatch(s: State, k: Knowledge) {
    && (forall id :: id in s.tombstones ==> (id, s.tombstones[id].version) in k.dead)
    && (forall id, v: nat :: (id, v) in k.dead ==> id in s.tombstones && v <= s.tombstones[id].version)
  }

  /** The entry of an id is the newest endpoint that no removal reaches. */
  ghost predicate EntriesMatch(s: State, k: Knowledge) {
    && (forall id :: id in s.endpoints ==>
          s.endpoints[id].id == id && s.endpoints[id] in k.told && Alive(k, s.endpoints[id]))
    && (forall e :: e in k.told && Alive(k, e) ==> e.id in s.endpoints && !Newer(e, s.endpoints[e.id]))
  }

  /** The state is the one its knowledge calls for, whatever the order it came in. */
  ghost predicate Matches(s: State, k: Knowledge) {
    TombstonesMatch(s, k) && EntriesMatch(s, k)
  }

  lemma BuriedIffDead(s: State, k: Knowledge, e: Endpoint)
    requires TombstonesMatch(s, k)
    ensures Buried(s, e) <==> !Alive(k, e)
  {
    if e.id in s.tombstones {
      assert (e.id, s.tombstones[e.id].version) in k.dead;
    }
  }

  lemma NewerTransitive(a: Endpoint, b: Endpoint, c: Endpoint)
    ensures Newer(a, b) && !Newer(c, b) ==> !Newer(c, a)
    ensures !Newer(a, b) && !Newer(b, c) ==> !Newer(a, c)
    ensures !Newer(a, a)
  {}

  lemma LearnedMatches(s: State, k: Knowledge, e: Endpoint)
    requires Matches(s, k) && e.id != ""
    ensures Matches(Merged(s, e), Knowledge(k.told + {e}, k.dead))
  {
    var j := Knowledge(k.told + {e}, k.dead);
    BuriedIffDead(s, k, e);
    forall x ensures Alive(j, x) <==> Alive(k, x) {
    }
    hide Alive;
    assert TombstonesMatch(Merged(s, e), j);
    LearnedEntries(s, k, e);
  }

  lemma LearnedEntries(s: State, k: Knowledge, e: Endpoint)
    requires EntriesMatch(s, k) && e.id != "" && (Buried(s, e) <==> !Alive(k, e))
    requires forall x :: Alive(Knowledge(k.told + {e}, k.dead), x) <==> Alive(k, x)
    ensures EntriesMatch(Merged(s, e), Knowledge(k.told + {e}, k.dead))
  {
    hide Alive, Buried;
    var j, t := Knowledge(k.told + {e}, k.dead), Merged(s, e);
    forall x | x in j.told && Alive(j, x) ensures x.id in t.endpoints && !Newer(x, t.endpoints[x.id]) {
    }
  }

  lemma DroppedMatches(s: State, k: Knowledge, r: Removal, now: nat)
    requires Matches(s, k) && r.id != ""
    ensures Matches(Removed(s, r, now), Knowledge(k.told, k.dead + {(r.id, r.version)}))
  {
    var j := Knowledge(k.told, k.dead + {(r.id, r.version)});
    var t := Removed(s, r, now);
    forall x ensures Alive(j, x) <==> Alive(k, x) && (x.id == r.id ==> r.version < x.version) {
      AliveMore(k, r, x);
    }
    forall id, v: nat | (id, v) in j.dead ensures id in t.tombstones && v <= t.tombstones[id].version {
      assert (id, v) in k.dead || (id == r.id && v == r.version);
    }
    assert (r.id, r.version) in j.dead;
  }

  lemma AliveMore(k: Knowledge, r: Removal, x: Endpoint)
    ensures Alive(Knowledge(k.told, k.dead + {(r.id, r.version)}), x) <==>
            Alive(k, x) && (x.id == r.id ==> r.version < x.version)
  {
    var j := Knowledge(k.told, k.dead + {(r.id, r.version)});
    assert (r.id, r.version) in j.dead;
    forall v: nat | (x.id, v) in k.dead ensures (x.id, v) in j.dead {
    }
  }

  lemma {:induction false} RunMatches(events: seq<Event>)
    ensures Matches(Run(EMPTY, events), KnowledgeOf(events))
  {
    if events != [] {
      var n := |events| - 1;
      RunMatches(events[..n]);
      hide Matches, Merged, Removed;
      match events[n]
      case Learned(e) =>
        if e.id != "" {
          LearnedMatches(Run(EMPTY, events[..n]), KnowledgeOf(events[..n]), e);
        } else {
          NothingMerged(Run(EMPTY, events[..n]), e);
        }
      case Dropped(r, now) =>
        if r.id != "" {
          DroppedMatches(Run(EMPTY, events[..n]), KnowledgeOf(events[..n]), r, now);
        } else {
          NothingRemoved(Run(EMPTY, events[..n]), r, now);
        }
    }
  }

  lemma NothingMerged(s: State, e: Endpoint)
    requires e.id == ""
    ensures Merged(s, e) == s
  {}

  lemma NothingRemoved(s: State, r: Removal, now: nat)
    requires r.id == ""
    ensures Removed(s, r, now) == s
  {}

  // ---------- Convergence ----------

  /** The same id, version and time never come with different content. */
  ghost predicate Coherent(k: Knowledge) {
    forall a, b :: a in k.told && b in k.told && a.id == b.id && a.version == b.version && a.updatedMs == b.updatedMs
      ==> a == b
  }

  /** What replicas must agree on: the entries and the versions of the tombstones. */
  function Versions(s: State): map<string, nat> {
    map id | id in s.tombstones :: s.tombstones[id].version
  }

  lemma OneTombstone(s: State, t: State, k: Knowledge)
    requires TombstonesMatch(s, k) && TombstonesMatch(t, k)
    ensures Versions(s) == Versions(t)
  {
    forall id | id in s.tombstones || id in t.tombstones
      ensures id in s.tombstones && id in t.tombstones && s.tombstones[id].version == t.tombstones[id].version
    {
      if id in s.tombstones {
        assert (id, s.tombstones[id].version) in k.dead;
      }
      if id in t.tombstones {
        assert (id, t.tombstones[id].version) in k.dead;
      }
    }
  }

  lemma OneEntry(s: State, t: State, k: Knowledge)
    requires EntriesMatch(s, k) && EntriesMatch(t, k) && Coherent(k)
    ensures s.endpoints == t.endpoints
  {
    EntriesWithin(s, t, k);
    EntriesWithin(t, s, k);
    assert s.endpoints.Keys == t.endpoints.Keys;
  }

  lemma EntriesWithin(s: State, t: State, k: Knowledge)
    requires EntriesMatch(s, k) && EntriesMatch(t, k) && Coherent(k)
    ensures forall id :: id in s.endpoints ==> id in t.endpoints && t.endpoints[id] == s.endpoints[id]
  {
    forall id | id in s.endpoints ensures id in t.endpoints && t.endpoints[id] == s.endpoints[id] {
      var e := s.endpoints[id];
      assert e.id == id && e in k.told && Alive(k, e);
      assert id in t.endpoints && !Newer(e, t.endpoints[id]);
      var f := t.endpoints[id];
      assert f.id == id && f in k.told && Alive(k, f) && !Newer(f, e);
    }
  }

  /** The knowledge alone determines the state. */
  lemma KnowledgeDecides(s: State, t: State, k: Knowledge)
    requires Matches(s, k) && Matches(t, k) && Coherent(k)
    ensures s.endpoints == t.endpoints && Versions(s) == Versions(t)
  {
    OneTombstone(s, t, k);
    OneEntry(s, t, k);
  }

  function EventSet(events: seq<Event>): set<Event> {
    set e | e in events
  }

  function ToldBy(events: set<Event>): set<Endpoint> {
    set e | e in events && e.Learned? && e.endpoint.id != "" :: e.endpoint
  }

  function DeadBy(events: set<Event>): set<(string, nat)> {
    set e | e in events && e.Dropped? && e.removal.id != "" :: (e.removal.id, e.removal.version)
  }

  lemma {:induction false} KnowledgeFromSet(events: seq<Event>)
    ensures KnowledgeOf(events) == Knowledge(ToldBy(EventSet(events)), DeadBy(EventSet(events)))
  {
    if events != [] {
      var n := |events| - 1;
      var before, e := events[..n], events[n];
      KnowledgeFromSet(before);
      assert events == before + [e];
      assert EventSet(events) == EventSet(before) + {e};
      OneMore(EventSet(before), e);
    }
  }

  lemma OneMore(events: set<Event>, e: Event)
    ensures Knowledge(ToldBy(events + {e}), DeadBy(events + {e})) == With(Knowledge(ToldBy(events), DeadBy(events)), e)
  {
    var more := events + {e};
    match e
    case Learned(x) =>
      assert DeadBy(more) == DeadBy(events);
      assert ToldBy(more) == if x.id == "" then ToldBy(events) else ToldBy(events) + {x};
    case Dropped(r, _) =>
      assert ToldBy(more) == ToldBy(events);
      assert DeadBy(more) == if r.id == "" then DeadBy(events) else DeadBy(events) + {(r.id, r.version)};
  }

  /** Replicas that receive the same events, in any order and however often, hold the same directory. */
  lemma Convergence(a: seq<Event>, b: seq<Event>)
    requires EventSet(a) == EventSet(b) && Coherent(KnowledgeOf(a))
    ensures Run(EMPTY, a).endpoints == Run(EMPTY, b).endpoints
    ensures Versions(Run(EMPTY, a)) == Versions(Run(EMPTY, b))
  {
    KnowledgeFromSet(a);
    KnowledgeFromSet(b);
    RunMatches(a);
    RunMatches(b);
    hide *;
    KnowledgeDecides(Run(EMPTY, a), Run(EMPTY, b), KnowledgeOf(a));
  }

  // ---------- Snapshots ----------

  /** A snapshot of the state, its tombstones not yet expired, in any order. */
  ghost predicate SnapshotOf(snap: Snapshot, s: State) {
    && (forall e :: e in snap.endpoints <==> e.id in s.endpoints && s.endpoints[e.id] == e)
    && (forall r :: r in snap.removed ==>
          r.id in s.tombstones && r == Removal(r.id, s.tombstones[r.id].version, s.tombstones[r.id].updatedMs))
    && (forall id :: id in s.tombstones ==> exists r :: r in snap.removed && r.id == id)
  }

  function LearnedAll(es: seq<Endpoint>): seq<Event> {
    seq(|es|, i requires 0 <= i < |es| => Learned(es[i]))
  }

  function DroppedAll(rs: seq<Removal>, now: nat): seq<Event> {
    seq(|rs|, i requires 0 <= i < |rs| => Dropped(rs[i], now))
  }

  function SnapshotEvents(snap: Snapshot, now: nat): seq<Event> {
    LearnedAll(snap.endpoints) + DroppedAll(snap.removed, now)
  }

  lemma {:induction false} RunConcat(s: State, a: seq<Event>, b: seq<Event>)
    ensures Run(s, a + b) == Run(Run(s, a), b)
    decreases |b|
  {
    hide Applied;
    if b == [] {
      assert a + b == a;
    } else {
      assert (a + b)[..|a + b| - 1] == a + b[..|b| - 1];
      RunConcat(s, a, b[..|b| - 1]);
    }
  }

  lemma {:induction false} RunFrom(s: State, k: Knowledge, events: seq<Event>)
    requires Matches(s, k)
    ensures Matches(Run(s, events), Together(k, KnowledgeOf(events)))
    decreases |events|
  {
    if events == [] {
      assert Together(k, Knowledge({}, {})) == k;
    } else {
      var n := |events| - 1;
      RunFrom(s, k, events[..n]);
      var t, j := Run(s, events[..n]), Together(k, KnowledgeOf(events[..n]));
      TogetherWith(k, KnowledgeOf(events[..n]), events[n]);
      hide Matches, Merged, Removed, Together;
      match events[n]
      case Learned(e) =>
        if e.id != "" { LearnedMatches(t, j, e); } else { NothingMerged(t, e); }
      case Dropped(r, now) =>
        if r.id != "" { DroppedMatches(t, j, r, now); } else { NothingRemoved(t, r, now); }
    }
  }

  lemma TogetherWith(a: Knowledge, b: Knowledge, e: Event)
    ensures Together(a, With(b, e)) == With(Together(a, b), e)
  {
    match e
    case Learned(x) => assert a.told + (b.told + {x}) == a.told + b.told + {x};
    case Dropped(r, _) => assert a.dead + (b.dead + {(r.id, r.version)}) == a.dead + b.dead + {(r.id, r.version)};
  }

  ghost predicate DeadCovered(part: Knowledge, id: string, v: nat) {
    exists w: nat :: v <= w && (id, w) in part.dead
  }

  ghost predicate ToldCovered(part: Knowledge, k: Knowledge, e: Endpoint) {
    exists f :: f in part.told && f.id == e.id && Alive(k, f) && !Newer(e, f)
  }

  /** What a snapshot tells stands for everything its source knows. */
  ghost predicate Summarizes(part: Knowledge, k: Knowledge) {
    && part.told <= k.told && part.dead <= k.dead
    && (forall id, v: nat :: (id, v) in k.dead ==> DeadCovered(part, id, v))
    && (forall e :: e in k.told && Alive(k, e) ==> ToldCovered(part, k, e))
  }

  lemma CoveringRemoval(part: Knowledge, id: string, v: nat) returns (w: nat)
    requires DeadCovered(part, id, v)
    ensures v <= w && (id, w) in part.dead
  {
    w :| v <= w && (id, w) in part.dead;
  }

  lemma CoveringEndpoint(part: Knowledge, k: Knowledge, e: Endpoint) returns (f: Endpoint)
    requires ToldCovered(part, k, e)
    ensures f in part.told && f.id == e.id && Alive(k, f) && !Newer(e, f)
  {
    f :| f in part.told && f.id == e.id && Alive(k, f) && !Newer(e, f);
  }

  lemma SummaryKnowledge(snap: Snapshot, s: State, k: Knowledge, now: nat)
    requires Matches(s, k) && SnapshotOf(snap, s)
    requires forall e :: e in k.told ==> e.id != ""
    requires forall id, v: nat :: (id, v) in k.dead ==> id != ""
    ensures Summarizes(KnowledgeOf(SnapshotEvents(snap, now)), k)
  {
    var events := SnapshotEvents(snap, now);
    KnowledgeFromSet(events);
    SnapshotKnowledge(snap, now);
    var part := KnowledgeOf(events);
    forall x | x in part.dead ensures x in k.dead {
      assert exists r :: r in snap.removed && x == (r.id, r.version);
    }
    forall id, v: nat | (id, v) in k.dead ensures DeadCovered(part, id, v) {
      var r :| r in snap.removed && r.id == id;
      assert (r.id, r.version) in part.dead;
    }
    forall e | e in k.told && Alive(k, e) ensures ToldCovered(part, k, e) {
      var f := s.endpoints[e.id];
      assert f in snap.endpoints && f in part.told;
    }
  }

  lemma SnapshotKnowledge(snap: Snapshot, now: nat)
    ensures var all := EventSet(SnapshotEvents(snap, now));
            && (forall e :: e in ToldBy(all) <==> e in snap.endpoints && e.id != "")
            && (forall x :: x in DeadBy(all) <==> exists r :: r in snap.removed && r.id != "" && x == (r.id, r.version))
  {
    var events := SnapshotEvents(snap, now);
    var all, n := EventSet(events), |snap.endpoints|;
    forall e | e in snap.endpoints ensures Learned(e) in events {
      var i :| 0 <= i < n && snap.endpoints[i] == e;
      assert events[i] == Learned(e);
    }
    forall r | r in snap.removed ensures Dropped(r, now) in events {
      var i :| 0 <= i < |snap.removed| && snap.removed[i] == r;
      assert events[n + i] == Dropped(r, now);
    }
    forall e: Event | e in events
      ensures if e.Learned? then e.endpoint in snap.endpoints else e.removal in snap.removed
    {
      var i :| 0 <= i < |events| && events[i] == e;
    }
  }

  lemma SummaryTombstones(t: State, k: Knowledge, part: Knowledge, whole: Knowledge)
    requires Summarizes(part, whole) && TombstonesMatch(t, Together(k, part))
    ensures TombstonesMatch(t, Together(k, whole))
  {
    hide DeadCovered, ToldCovered;
    var some, all := Together(k, part), Together(k, whole);
    forall id, v: nat | (id, v) in all.dead ensures id in t.tombstones && v <= t.tombstones[id].version {
      if (id, v) in whole.dead {
        var w := CoveringRemoval(part, id, v);
        assert (id, w) in some.dead;
      } else {
        assert (id, v) in some.dead;
      }
    }
  }

  lemma SameAlive(t: State, a: Knowledge, b: Knowledge, e: Endpoint)
    requires TombstonesMatch(t, a) && TombstonesMatch(t, b)
    ensures Alive(a, e) <==> Alive(b, e)
  {
    BuriedIffDead(t, a, e);
    BuriedIffDead(t, b, e);
  }

  lemma AliveInPart(k: Knowledge, whole: Knowledge, e: Endpoint)
    requires Alive(Together(k, whole), e)
    ensures Alive(whole, e)
  {
    forall v: nat | (e.id, v) in whole.dead ensures v < e.version {
      assert (e.id, v) in Together(k, whole).dead;
    }
  }

  lemma EntryKnown(t: State, k: Knowledge, part: Knowledge, whole: Knowledge, e: Endpoint)
    requires Summarizes(part, whole) && Matches(t, Together(k, part)) && TombstonesMatch(t, Together(k, whole))
    requires e in Together(k, whole).told && Alive(Together(k, whole), e)
    ensures e.id in t.endpoints && !Newer(e, t.endpoints[e.id])
  {
    hide DeadCovered, ToldCovered, Alive, Newer, TombstonesMatch;
    var some, all := Together(k, part), Together(k, whole);
    if e in whole.told {
      AliveInPart(k, whole, e);
      var f := CoveringEndpoint(part, whole, e);
      NotOlderAlive(all, e, f);
      SameAlive(t, some, all, f);
      assert f in some.told;
      NewerTransitive(e, f, t.endpoints[e.id]);
    } else {
      SameAlive(t, some, all, e);
      assert e in some.told;
    }
  }

  /** A state that knows a summary holds what it would hold knowing everything. */
  lemma SummarySuffices(t: State, k: Knowledge, part: Knowledge, whole: Knowledge)
    requires Summarizes(part, whole) && Matches(t, Together(k, part))
    ensures Matches(t, Together(k, whole))
  {
    hide Alive, Newer, TombstonesMatch, Summarizes;
    var all := Together(k, whole);
    SummaryTold(part, whole);
    SummaryTombstones(t, k, part, whole);
    forall e | e in all.told && Alive(all, e) ensures e.id in t.endpoints && !Newer(e, t.endpoints[e.id]) {
      EntryKnown(t, k, part, whole, e);
    }
    forall id | id in t.endpoints
      ensures t.endpoints[id].id == id && t.endpoints[id] in all.told && Alive(all, t.endpoints[id])
    {
      SameAlive(t, Together(k, part), all, t.endpoints[id]);
    }
  }

  lemma SummaryTold(part: Knowledge, k: Knowledge)
    requires Summarizes(part, k)
    ensures part.told <= k.told
  {}

  lemma NotOlderAlive(k: Knowledge, e: Endpoint, f: Endpoint)
    requires f.id == e.id && Alive(k, e) && !Newer(e, f)
    ensures Alive(k, f)
  {
  }

  /** Merging the snapshot of another replica leads to the state of having received the events of both. */
  lemma SnapshotMergeIsJoin(a: seq<Event>, b: seq<Event>, snap: Snapshot, now: nat)
    requires SnapshotOf(snap, Run(EMPTY, b)) && Coherent(KnowledgeOf(a + b))
    ensures var joined := Run(Run(EMPTY, a), SnapshotEvents(snap, now));
            var both := Run(EMPTY, a + b);
            joined.endpoints == both.endpoints && Versions(joined) == Versions(both)
  {
    RunMatches(a);
    RunMatches(b);
    RunMatches(a + b);
    NoEmptyIds(b);
    SummaryKnowledge(snap, Run(EMPTY, b), KnowledgeOf(b), now);
    RunFrom(Run(EMPTY, a), KnowledgeOf(a), SnapshotEvents(snap, now));
    SummarySuffices(Run(Run(EMPTY, a), SnapshotEvents(snap, now)), KnowledgeOf(a),
                    KnowledgeOf(SnapshotEvents(snap, now)), KnowledgeOf(b));
    KnowledgeConcat(a, b);
    KnowledgeDecides(Run(Run(EMPTY, a), SnapshotEvents(snap, now)), Run(EMPTY, a + b), KnowledgeOf(a + b));
    hide *;
  }

  lemma {:induction false} NoEmptyIds(events: seq<Event>)
    ensures forall e :: e in KnowledgeOf(events).told ==> e.id != ""
    ensures forall id, v: nat :: (id, v) in KnowledgeOf(events).dead ==> id != ""
  {
    if events != [] {
      NoEmptyIds(events[..|events| - 1]);
    }
  }

  lemma {:induction false} KnowledgeConcat(a: seq<Event>, b: seq<Event>)
    ensures KnowledgeOf(a + b) == Together(KnowledgeOf(a), KnowledgeOf(b))
    decreases |b|
  {
    if b == [] {
      assert a + b == a;
    } else {
      var n := |b| - 1;
      assert (a + b)[..|a + b| - 1] == a + b[..n];
      KnowledgeConcat(a, b[..n]);
      TogetherWith(KnowledgeOf(a), KnowledgeOf(b[..n]), b[n]);
    }
  }

  // ---------- Local changes ----------

  function Upserted(s: State, e: Endpoint, now: nat): State {
    if e.id == "" then s
    else
      var version := if e.id in s.endpoints then s.endpoints[e.id].version + 1 else if e.version == 0 then 1
          else e.version;
      var stored := e.(version := version, updatedMs := if e.updatedMs == 0 then now else e.updatedMs);
      State(s.endpoints[e.id := stored], s.tombstones - {e.id}, s.version + 1)
  }

  function LocallyRemoved(s: State, id: string, now: nat): State {
    if id !in s.endpoints then s
    else
      var e := s.endpoints[id];
      State(s.endpoints - {id}, s.tombstones[id := Tombstone(e.version, e.updatedMs, now)], s.version + 1)
  }

  /** Every entry lies above the tombstone of its id. */
  ghost predicate AboveTombstones(s: State) {
    forall id :: id in s.endpoints ==> s.endpoints[id].id == id && id != "" && !Buried(s, s.endpoints[id])
  }

  /** Whatever is done to a directory, no entry sinks below its tombstone. */
  lemma StaysAbove(s: State, e: Endpoint, r: Removal, now: nat, id: string)
    requires AboveTombstones(s)
    ensures AboveTombstones(Merged(s, e)) && AboveTombstones(Removed(s, r, now))
    ensures AboveTombstones(Upserted(s, e, now)) && AboveTombstones(LocallyRemoved(s, id, now))
  {}

  /** Removing locally is applying the removal of the version held, so other replicas follow. */
  lemma LocalRemovalIsRemoval(s: State, id: string, now: nat)
    requires AboveTombstones(s) && id in s.endpoints
    ensures LocallyRemoved(s, id, now) == Removed(s, Removal(id, s.endpoints[id].version, s.endpoints[id].updatedMs),
        now)
  {}

  /** After any events a replica takes an endpoint up exactly when no removal it was ever told of reaches it, and
      it is newer than every endpoint of that id it was ever told of that is still alive. */
  lemma {:induction false} AcceptedIff(events: seq<Event>, e: Endpoint)
    requires e.id != ""
    ensures var s, k := Run(EMPTY, events), KnowledgeOf(events);
            Merged(s, e) != s <==>
            Alive(k, e) && forall x :: x in k.told && x.id == e.id && Alive(k, x) ==> Newer(e, x)
  {
    var s, k := Run(EMPTY, events), KnowledgeOf(events);
    RunMatches(events);
    BuriedIffDead(s, k, e);
    NewestAliveIff(s, k, e);
    hide Run, KnowledgeOf, Matches, Alive;
  }

  lemma NewestAliveIff(s: State, k: Knowledge, e: Endpoint)
    requires Matches(s, k)
    ensures (e.id in s.endpoints ==> Newer(e, s.endpoints[e.id]))
            <==> forall x :: x in k.told && x.id == e.id && Alive(k, x) ==> Newer(e, x)
  {
    hide Alive, TombstonesMatch;
    if e.id in s.endpoints && Newer(e, s.endpoints[e.id]) {
      forall x | x in k.told && x.id == e.id && Alive(k, x) ensures Newer(e, x) {
        assert !Newer(x, s.endpoints[e.id]);
      }
    }
  }

  /** A service removed and registered again comes back at other replicas exactly when its new version is
      above that of the removal: registered without a version it starts at 1 and never does. */
  lemma ReregisteredAcceptedIff(origin: State, other: State, e: Endpoint, removedAt: nat, now: nat)
    requires AboveTombstones(origin) && e.id in origin.endpoints && e.id !in other.endpoints
    requires var v := origin.endpoints[e.id].version;
             e.id in other.tombstones && other.tombstones[e.id].version == v
    ensures var v := origin.endpoints[e.id].version;
            var again := Upserted(LocallyRemoved(origin, e.id, removedAt), e, now).endpoints[e.id];
            && (e.id in Merged(other, again).endpoints <==> (if e.version == 0 then 1 else e.version) > v)
            && (e.version == 0 && v >= 1 ==> Merged(other, again) == other)
  {}

  /** Updating an endpoint that is still registered reaches every replica that holds what the origin held. */
  lemma UpdateReaches(origin: State, other: State, e: Endpoint, now: nat)
    requires AboveTombstones(origin) && AboveTombstones(other) && e.id in origin.endpoints
    requires e.id in other.endpoints && other.endpoints[e.id].version <= origin.endpoints[e.id].version
    requires e.id in other.tombstones ==> other.tombstones[e.id].version <= origin.endpoints[e.id].version
    ensures var updated := Upserted(origin, e, now).endpoints[e.id];
            Merged(other, updated).endpoints[e.id] == updated
  {}

  /** Registering an endpoint again and again, at the given times. */
  function UpsertedAt(s: State, e: Endpoint, times: seq<nat>): State {
    if times == [] then s else Upserted(UpsertedAt(s, e, times[..|times| - 1]), e, times[|times| - 1])
  }

  /** Every registration of a registered endpoint counts its version up by one, whatever version it comes with. */
  lemma {:induction false} RegistrationsCount(s: State, e: Endpoint, times: seq<nat>)
    requires e.id != "" && e.id in s.endpoints
    ensures var t := UpsertedAt(s, e, times);
            e.id in t.endpoints && t.endpoints[e.id].version == s.endpoints[e.id].version + |times|
  {
    if times != [] {
      RegistrationsCount(s, e, times[..|times| - 1]);
    }
  }

  // ---------- Tombstones that expire ----------

  /** The clock difference is taken modulo 2^64. */
  predicate Expired(t: Tombstone, now: nat) {
    (now - t.removedMs) % 0x1_0000_0000_0000_0000 >= TOMBSTONE_TTL_MS
  }

  function Unexpired(s: State, now: nat): State {
    s.(tombstones := map id | id in s.tombstones && !Expired(s.tombstones[id], now) :: s.tombstones[id])
  }

  /** On a 64-bit clock a tombstone expires sixty seconds after the removal, and at once when the clock has run back,
      unless by nearly its whole range. */
  lemma ExpiredIff(t: Tombstone, now: nat)
    requires t.removedMs < 0x1_0000_0000_0000_0000 && now < 0x1_0000_0000_0000_0000
    ensures now >= t.removedMs ==> (Expired(t, now) <==> now >= t.removedMs + 60000)
    ensures now < t.removedMs ==> (Expired(t, now) <==> t.removedMs - now <= 0x1_0000_0000_0000_0000 - 60000)
  {
  }

  /** What a snapshot leaves of the tombstones, and lists of them, on a clock that has not run back. */
  ghost predicate KeepsYoung(before: map<string, Tombstone>, after: map<string, Tombstone>, snap: Snapshot, now: nat) {
    && (forall id :: id in after ==> id in before && after[id] == before[id])
    && (forall id :: id in before && before[id].removedMs <= now < 0x1_0000_0000_0000_0000 ==>
          && (id in after <==> now < before[id].removedMs + 60000)
          && (Removal(id, before[id].version, before[id].updatedMs) in snap.removed
              <==> now < before[id].removedMs + 60000))
  }

  lemma YoungKept(s: State, snap: Snapshot, now: nat)
    requires SnapshotOf(snap, Unexpired(s, now))
    ensures KeepsYoung(s.tombstones, Unexpired(s, now).tombstones, snap, now)
  {
    var after := Unexpired(s, now).tombstones;
    forall id | id in s.tombstones && s.tombstones[id].removedMs <= now < 0x1_0000_0000_0000_0000
      ensures id in after <==> now < s.tombstones[id].removedMs + 60000
      ensures Removal(id, s.tombstones[id].version, s.tombstones[id].updatedMs) in snap.removed <==> id in after
    {
      ExpiredIff(s.tombstones[id], now);
      hide Expired;
      if id in after {
        var r :| r in snap.removed && r.id == id;
      }
    }
  }

  /** Every removal of the run was applied less than sixty seconds before, by a clock that has not run back. */
  ghost predicate Recent(events: seq<Event>, now: nat) {
    forall i :: 0 <= i < |events| && events[i].Dropped? ==> events[i].now <= now < events[i].now + 60000
  }

  lemma {:induction false} RecentTombstones(events: seq<Event>, now: nat)
    requires Recent(events, now)
    ensures forall id :: id in Run(EMPTY, events).tombstones ==>
              Run(EMPTY, events).tombstones[id].removedMs <= now < Run(EMPTY, events).tombstones[id].removedMs + 60000
  {
    if events != [] {
      RecentTombstones(events[..|events| - 1], now);
    }
  }

  /** Then a snapshot forgets nothing. */
  lemma RecentKept(events: seq<Event>, now: nat)
    requires Recent(events, now) && now < 0x1_0000_0000_0000_0000
    ensures Unexpired(Run(EMPTY, events), now) == Run(EMPTY, events)
  {
    RecentTombstones(events, now);
    var s := Run(EMPTY, events);
    hide Run;
    forall id | id in s.tombstones ensures !Expired(s.tombstones[id], now) {
      ExpiredIff(s.tombstones[id], now);
    }
    assert Unexpired(s, now).tombstones == s.tombstones;
  }

  /** A replica that only registered the endpoint, and one that also removed it and is asked for a snapshot later: the
      removal reaches the first exactly when the snapshot is taken within sixty seconds. */
  lemma RemovalReachesIff(e: Endpoint, removedMs: nat, snap: Snapshot, now: nat, later: nat)
    requires e.id != "" && removedMs <= now < 0x1_0000_0000_0000_0000
    requires SnapshotOf(snap, Unexpired(Run(EMPTY, Unregistered(e, removedMs)), now))
    ensures e.id !in Run(Run(EMPTY, [Learned(e)]), SnapshotEvents(snap, later)).endpoints <==> now < removedMs + 60000
  {
    OnlyTombstone(e, removedMs);
    var s := Run(EMPTY, Unregistered(e, removedMs));
    ExpiredIff(s.tombstones[e.id], now);
    hide Run, Expired;
    if now < removedMs + 60000 {
      assert Unexpired(s, now).tombstones == s.tombstones;
      SnapshotMergeIsJoin([Learned(e)], Unregistered(e, removedMs), snap, later);
      JoinedGone(e, removedMs);
    } else {
      assert snap.endpoints == [] && snap.removed == [] by { NothingListed(snap, Unexpired(s, now)); }
      NothingHappens(e, later);
    }
  }

  function Unregistered(e: Endpoint, removedMs: nat): seq<Event> {
    [Learned(e), Dropped(Removal(e.id, e.version, e.updatedMs), removedMs)]
  }

  lemma OnlyTombstone(e: Endpoint, removedMs: nat)
    requires e.id != ""
    ensures var s := Run(EMPTY, Unregistered(e, removedMs));
            s.endpoints == map[] && s.tombstones == map[e.id := Tombstone(e.version, e.updatedMs, removedMs)]
    ensures Coherent(KnowledgeOf([Learned(e)] + Unregistered(e, removedMs)))
  {
    var l, d := Learned(e), Dropped(Removal(e.id, e.version, e.updatedMs), removedMs);
    RunNext(EMPTY, [], l);
    RunNext(EMPTY, [l], d);
    assert [l] + [d] == Unregistered(e, removedMs) && [] + [l] == [l];
    KnowledgeNext([], l);
    KnowledgeNext([l], l);
    KnowledgeNext([l] + [l], d);
    assert [l] + [l] + [d] == [l] + Unregistered(e, removedMs);
    hide Run, KnowledgeOf;
  }

  lemma RunNext(s: State, events: seq<Event>, e: Event)
    ensures Run(s, events + [e]) == Applied(Run(s, events), e)
  {
    assert (events + [e])[..|events|] == events;
  }

  lemma KnowledgeNext(events: seq<Event>, e: Event)
    ensures KnowledgeOf(events + [e]) == With(KnowledgeOf(events), e)
  {
    assert (events + [e])[..|events|] == events;
  }

  lemma JoinedGone(e: Endpoint, removedMs: nat)
    requires e.id != ""
    ensures e.id !in Run(EMPTY, [Learned(e)] + Unregistered(e, removedMs)).endpoints
  {
    var l, d := Learned(e), Dropped(Removal(e.id, e.version, e.updatedMs), removedMs);
    RunNext(EMPTY, [], l);
    RunNext(EMPTY, [l], l);
    RunNext(EMPTY, [l] + [l], d);
    assert [] + [l] == [l] && [l] + [l] + [d] == [l] + Unregistered(e, removedMs);
    hide Run;
  }

  lemma NothingListed(snap: Snapshot, s: State)
    requires SnapshotOf(snap, s) && s.endpoints == map[] && s.tombstones == map[]
    ensures snap.endpoints == [] && snap.removed == []
  {
    FirstElement(snap.endpoints);
    FirstElement(snap.removed);
  }

  lemma FirstElement<T>(xs: seq<T>)
    ensures xs != [] ==> exists x :: x in xs
  {
    if xs != [] {
      assert xs[0] in xs;
    }
  }

  lemma NothingHappens(e: Endpoint, later: nat)
    requires e.id != ""
    ensures e.id in Run(Run(EMPTY, [Learned(e)]), SnapshotEvents(Snapshot([], []), later)).endpoints
  {
    RunNext(EMPTY, [], Learned(e));
    assert [] + [Learned(e)] == [Learned(e)];
    assert SnapshotEvents(Snapshot([], []), later) == [];
  }

  lemma {:induction false} RunAbove(events: seq<Event>)
    ensures AboveTombstones(Run(EMPTY, events))
  {
    if events != [] {
      RunAbove(events[..|events| - 1]);
    }
  }

  // ---------- The directory object ----------

  class EndpointDirectory {
    var endpoints: map<string, Endpoint>
    var tombstones: map<string, Tombstone>
    var version: nat

    function AsState(): State
      reads this
    {
      State(endpoints, tombstones, version)
    }

    constructor ()
      ensures AsState() == EMPTY
    {
      endpoints, tombstones, version := map[], map[], 0;
    }

    method Merge(e: Endpoint) returns (changed: bool)
      modifies this
      ensures AsState() == Merged(old(AsState()), e)
      ensures changed <==> AsState() != old(AsState())
    {
      if e.id == "" {
        return false;
      }
      if e.id in tombstones && e.version <= tombstones[e.id].version {
        return false;
      }
      if e.id !in endpoints {
        endpoints := endpoints[e.id := e];
        version := version + 1;
        return true;
      }
      var existing := endpoints[e.id];
      if e.version > existing.version {
        endpoints := endpoints[e.id := e];
        version := version + 1;
        return true;
      }
      if e.version == existing.version && e.updatedMs > existing.updatedMs {
        endpoints := endpoints[e.id := e];
        version := version + 1;
        return true;
      }
      return false;
    }

    method ApplyRemoval(r: Removal, now: nat) returns (changed: bool)
      modifies this
      ensures AsState() == Removed(old(AsState()), r, now)
      ensures changed <==> version != old(version)
    {
      if r.id == "" {
        return false;
      }
      changed := false;
      if r.id in endpoints && endpoints[r.id].version <= r.version {
        endpoints := endpoints - {r.id};
        version := version + 1;
        changed := true;
      }
      if r.id !in tombstones || tombstones[r.id].version < r.version {
        tombstones := tombstones[r.id := Tombstone(r.version, r.updatedMs, now)];
      }
    }

    method MergeEndpoints(es: seq<Endpoint>) returns (changed: bool)
      modifies this
      ensures AsState() == Run(old(AsState()), LearnedAll(es))
      ensures version >= old(version) && (changed <==> version != old(version))
    {
      hide Merged, Removed;
      ghost var before, events := AsState(), LearnedAll(es);
      changed := false;
      for i := 0 to |es|
        invariant AsState() == Run(before, events[..i])
        invariant version >= before.version && (changed <==> version != before.version)
      {
        VersionGrows(AsState(), events[i]);
        MergeCounted(AsState(), es[i]);
        assert events[..i + 1][..i] == events[..i];
        var c := Merge(es[i]);
        changed := changed || c;
      }
      assert events[..|es|] == events;
    }

    method ApplyRemovals(rs: seq<Removal>, now: nat) returns (changed: bool)
      modifies this
      ensures AsState() == Run(old(AsState()), DroppedAll(rs, now))
      ensures version >= old(version) && (changed <==> version != old(version))
    {
      hide Merged, Removed;
      ghost var before, events := AsState(), DroppedAll(rs, now);
      changed := false;
      for i := 0 to |rs|
        invariant AsState() == Run(before, events[..i])
        invariant version >= before.version && (changed <==> version != before.version)
      {
        VersionGrows(AsState(), events[i]);
        assert events[..i + 1][..i] == events[..i];
        var c := ApplyRemoval(rs[i], now);
        changed := changed || c;
      }
      assert events[..|rs|] == events;
    }

    /** The endpoints first, then the removals. */
    method MergeSnapshot(snap: Snapshot, now: nat) returns (changed: bool)
      modifies this
      ensures AsState() == Run(old(AsState()), SnapshotEvents(snap, now))
      ensures changed <==> version != old(version)
    {
      hide LearnedAll, DroppedAll, Run;
      RunConcat(AsState(), LearnedAll(snap.endpoints), DroppedAll(snap.removed, now));
      var learned := MergeEndpoints(snap.endpoints);
      var dropped := ApplyRemovals(snap.removed, now);
      changed := learned || dropped;
    }

    method UpsertLocal(e: Endpoint, now: nat)
      modifies this
      ensures AsState() == Upserted(old(AsState()), e, now)
    {
      if e.id == "" {
        return;
      }
      tombstones := tombstones - {e.id};
      var stored := e;
      if e.id !in endpoints {
        if stored.version == 0 {
          stored := stored.(version := 1);
        }
      } else {
        stored := stored.(version := endpoints[e.id].version + 1);
      }
      if stored.updatedMs == 0 {
        stored := stored.(updatedMs := now);
      }
      endpoints := endpoints[e.id := stored];
      version := version + 1;
    }

    method RemoveLocal(id: string, now: nat) returns (removed: bool)
      modifies this
      ensures AsState() == LocallyRemoved(old(AsState()), id, now)
      ensures removed <==> id in old(endpoints)
    {
      if id !in endpoints {
        return false;
      }
      var e := endpoints[id];
      endpoints := endpoints - {id};
      tombstones := tombstones[id := Tombstone(e.version, e.updatedMs, now)];
      version := version + 1;
      return true;
    }

    /** Lists every entry and every tombstone, forgetting the tombstones that have expired. */
    method TakeSnapshot(now: nat) returns (snap: Snapshot)
      requires AboveTombstones(AsState())
      modifies this`tombstones
      ensures AsState() == Unexpired(old(AsState()), now)
      ensures SnapshotOf(snap, AsState()) && KeepsYoung(old(tombstones), tombstones, snap, now)
    {
      hide KeepsYoung;
      var es: seq<Endpoint> := [];
      var todo := endpoints.Keys;
      while todo != {}
        invariant todo <= endpoints.Keys
        invariant forall e :: e in es <==> e.id in endpoints.Keys - todo && endpoints[e.id] == e
        decreases todo
      {
        var id :| id in todo;
        es := es + [endpoints[id]];
        todo := todo - {id};
      }
      var rs: seq<Removal> := [];
      var all := tombstones;
      todo := all.Keys;
      while todo != {}
        invariant todo <= all.Keys
        invariant tombstones == map id | id in all && (id in todo || !Expired(all[id], now)) :: all[id]
        invariant forall r :: r in rs ==> r.id in tombstones && r.id !in todo
                                          && r == Removal(r.id, tombstones[r.id].version, tombstones[r.id].updatedMs)
        invariant forall id :: id in tombstones && id !in todo ==> exists r :: r in rs && r.id == id
        decreases todo
      {
        var id :| id in todo;
        var t := all[id];
        todo := todo - {id};
        if Expired(t, now) {
          tombstones := tombstones - {id};
        } else {
          var r := Removal(id, t.version, t.updatedMs);
          rs := rs + [r];
          assert r in rs;
        }
      }
      snap := Snapshot(es, rs);
      assert AsState() == Unexpired(old(AsState()), now);
      YoungKept(old(AsState()), snap, now);
    }
  }

  /** One replica hands its snapshot to another.  If all its removals are recent its own state stays, and the other
      replica comes to hold what it would hold had it received the events of both. */
  method Exchange(from: EndpointDirectory, to: EndpointDirectory, now: nat, later: nat,
                  ghost sent: seq<Event>, ghost known: seq<Event>) returns (changed: bool)
    requires from != to && from.AsState() == Run(EMPTY, sent) && to.AsState() == Run(EMPTY, known)
    requires Recent(sent, now) && now < 0x1_0000_0000_0000_0000 && Coherent(KnowledgeOf(known + sent))
    modifies from`tombstones, to
    ensures from.AsState() == Run(EMPTY, sent)
    ensures to.endpoints == Run(EMPTY, known + sent).endpoints
    ensures Versions(to.AsState()) == Versions(Run(EMPTY, known + sent))
  {
    hide Run, KnowledgeOf, SnapshotEvents, Recent, Coherent, Unexpired, KeepsYoung, SnapshotOf, AboveTombstones,
        Versions;
    RunAbove(sent);
    RecentKept(sent, now);
    var snap := from.TakeSnapshot(now);
    SnapshotMergeIsJoin(known, sent, snap, later);
    changed := to.MergeSnapshot(snap, later);
  }

  lemma VersionGrows(s: State, e: Event)
    ensures Applied(s, e).version >= s.version
  {}

  lemma MergeCounted(s: State, e: Endpoint)
    ensures Merged(s, e) != s <==> Merged(s, e).version != s.version
  {}
}
