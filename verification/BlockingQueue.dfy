/** The bounded queue between threads: linked nodes, with emptied ones kept for reuse. */
module BlockingQueue {
  import opened Common

  const MAX_FREE := 16

  class Node<T> {
    var item: Option<T>
    var next: Node?<T>

    constructor ()
      ensures item == None && next == null
    {
      item, next := None, null;
    }
  }

  function After<T>(nodes: seq<Node<T>>, i: nat): Node?<T>
    requires i < |nodes|
  {
    if i + 1 < |nodes| then nodes[i + 1] else null
  }

  ghost predicate Distinct<T>(nodes: seq<Node<T>>) {
    forall i, j :: 0 <= i < j < |nodes| ==> nodes[i] != nodes[j]
  }

  ghost predicate Apart<T>(a: seq<Node<T>>, b: seq<Node<T>>) {
    forall n :: n in a ==> n !in b
  }

  /** A chain of nodes from first, ending in null. */
  ghost predicate Chained<T>(nodes: seq<Node<T>>, first: Node?<T>)
    reads nodes`next
  {
    && first == (if nodes == [] then null else nodes[0])
    && (forall i: nat :: i < |nodes| ==> nodes[i].next == After(nodes, i))
  }

  /** The nodes carry the items, in order. */
  ghost predicate Stores<T>(nodes: seq<Node<T>>, items: seq<T>)
    reads nodes`item
  {
    |nodes| == |items| && forall i: nat :: i < |nodes| ==> nodes[i].item == Some(items[i])
  }

  ghost predicate Emptied<T>(nodes: seq<Node<T>>)
    reads nodes`item
  {
    forall n :: n in nodes ==> n.item == None
  }

  lemma ChainFirst<T>(nodes: seq<Node<T>>, first: Node?<T>)
    requires Chained(nodes, first)
    ensures first == null <==> nodes == []
    ensures nodes != [] ==> first == nodes[0]
  {}

  /** Without its first node a chain is a chain. */
  lemma ChainRest<T>(nodes: seq<Node<T>>, first: Node?<T>)
    requires nodes != [] && Chained(nodes, first) && Distinct(nodes)
    ensures first == nodes[0] && Chained(nodes[1..], nodes[0].next) && Distinct(nodes[1..]) && nodes[0] !in nodes[1..]
    ensures nodes[0].next == null <==> nodes[1..] == []
  {
    var rest := nodes[1..];
    assert nodes[0].next == After(nodes, 0);
    forall i: nat | i < |rest| ensures rest[i].next == After(rest, i) && rest[i] != nodes[0] {
      assert rest[i] == nodes[i + 1] && nodes[i + 1].next == After(nodes, i + 1);
    }
  }

  lemma StoresRest<T>(nodes: seq<Node<T>>, items: seq<T>)
    requires nodes != [] && Stores(nodes, items)
    ensures |items| == |nodes| && nodes[0].item == Some(items[0]) && Stores(nodes[1..], items[1..])
  {}

  lemma StoresMore<T>(nodes: seq<Node<T>>, items: seq<T>, node: Node<T>, x: T)
    requires Stores(nodes, items) && node.item == Some(x)
    ensures Stores(nodes + [node], items + [x])
  {}

  lemma EmptiedRest<T>(nodes: seq<Node<T>>)
    requires nodes != [] && Emptied(nodes)
    ensures nodes[0].item == None && Emptied(nodes[1..])
  {}

  lemma EmptiedMore<T>(node: Node<T>, nodes: seq<Node<T>>)
    requires Emptied(nodes) && node.item == None
    ensures Emptied([node] + nodes)
  {}

  lemma ApartRest<T>(a: seq<Node<T>>, b: seq<Node<T>>)
    requires Apart(a, b)
    ensures a != [] ==> Apart(a[1..], b) && a[0] !in b
    ensures b != [] ==> Apart(a, b[1..]) && b[0] !in a
  {}

  lemma OnlyLast<T>(nodes: seq<Node<T>>, free: seq<Node<T>>)
    requires nodes != [] && Apart(nodes, free)
    ensures nodes[|nodes| - 1] !in free
  {}

  lemma ApartMore<T>(a: seq<Node<T>>, b: seq<Node<T>>, node: Node<T>)
    requires Apart(a, b)
    ensures node !in b ==> Apart(a + [node], b)
    ensures node !in a ==> Apart(a, [node] + b)
  {}

  lemma DistinctMore<T>(nodes: seq<Node<T>>, node: Node<T>)
    requires Distinct(nodes) && node !in nodes
    ensures Distinct([node] + nodes) && Distinct(nodes + [node])
  {}

  /** With a node before the first a chain is a chain. */
  lemma ChainBefore<T>(node: Node<T>, nodes: seq<Node<T>>, first: Node?<T>)
    requires Chained(nodes, first) && node.next == first
    ensures Chained([node] + nodes, node)
  {
    var more := [node] + nodes;
    forall i: nat | i < |more| ensures more[i].next == After(more, i) {
      if i > 0 {
        assert more[i] == nodes[i - 1] && nodes[i - 1].next == After(nodes, i - 1);
      }
    }
  }

  lemma ChainLinks<T>(nodes: seq<Node<T>>, first: Node?<T>)
    requires nodes != [] && Chained(nodes, first) && Distinct(nodes)
    ensures first == nodes[0]
    ensures forall i: nat :: i < |nodes| - 1 ==> nodes[i].next == After(nodes, i) && nodes[i] != nodes[|nodes| - 1]
  {}

  /** Once the last node points to a new one, the chain reaches it. */
  lemma ChainBehind<T>(nodes: seq<Node<T>>, node: Node<T>)
    requires nodes != [] && nodes[|nodes| - 1].next == node && node.next == null
    requires forall i: nat :: i < |nodes| - 1 ==> nodes[i].next == After(nodes, i)
    ensures Chained(nodes + [node], nodes[0])
  {
    var more := nodes + [node];
    forall i: nat | i < |more| ensures more[i].next == After(more, i) {
      if i < |nodes| - 1 {
        assert more[i] == nodes[i] && nodes[i].next == After(nodes, i);
      }
    }
  }

  class Queue<T> {
    const capacity: nat
    var size: nat
    var head: Node?<T>
    var tail: Node?<T>
    var freeNodes: Node?<T>
    var freeCount: nat
    var closed: bool

    /** The nodes of the two lists, first to last. */
    ghost var live: seq<Node<T>>
    ghost var free: seq<Node<T>>

    /** The queued items, the oldest first. */
    ghost var contents: seq<T>

    /** Both lists are chains without a node in common; queued nodes carry their items, free ones none; the
        counts are the lengths; at most sixteen nodes are kept. */
    ghost predicate Valid()
      reads this, live, free
    {
      && Chained(live, head) && Chained(free, freeNodes)
      && Distinct(live) && Distinct(free) && Apart(live, free)
      && tail == (if live == [] then null else live[|live| - 1])
      && Stores(live, contents) && Emptied(free)
      && size == |live| && freeCount == |free| <= MAX_FREE
      && (capacity > 0 ==> size <= capacity)
    }

    constructor (capacity: nat)
      ensures Valid() && contents == [] && live == [] && free == [] && !closed && this.capacity == capacity
    {
      this.capacity := capacity;
      size, head, tail, freeNodes, freeCount, closed, live, free, contents := 0, null, null, null, 0, false, [], [], [];
    }

    predicate Full()
      reads this
    {
      capacity > 0 && size >= capacity
    }

    /** A node to fill: a kept one if there is one. */
    method ObtainNode() returns (node: Node<T>)
      requires Valid()
      modifies this, free`next
      ensures Valid()
      ensures unchanged(`size, `head, `tail, `closed, `live, `contents)
      ensures node !in live && node !in free && node.item == None && node.next == null
      ensures node in old(free) || fresh(node)
      ensures free == if old(free) == [] then [] else old(free)[1..]
    {
      hide Chained, Distinct, Apart, Stores, Emptied;
      ChainFirst(free, freeNodes);
      if freeNodes != null {
        ChainRest(free, freeNodes);
        EmptiedRest(free);
        ApartRest(live, free);
        node := freeNodes;
        freeNodes := node.next;
        free := free[1..];
        node.next := null;
        freeCount := freeCount - 1;
      } else {
        node := new Node();
      }
    }

    /** An emptied node is kept for reuse, up to the limit. */
    method RecycleNode(node: Node<T>)
      requires Valid() && node !in live && node !in free
      modifies this, node
      ensures Valid()
      ensures unchanged(`size, `head, `tail, `closed, `live, `contents)
      ensures node.item == None && free == if |old(free)| < MAX_FREE then [node] + old(free) else old(free)
    {
      hide Chained, Distinct, Apart, Stores, Emptied;
      node.item := None;
      if freeCount < MAX_FREE {
        node.next := freeNodes;
        ChainBefore(node, free, freeNodes);
        DistinctMore(free, node);
        ApartMore(live, free, node);
        EmptiedMore(node, free);
        freeNodes := node;
        free := [node] + free;
        freeCount := freeCount + 1;
      }
    }

    method LinkTail(node: Node<T>)
      requires Valid() && !Full() && node !in live && node !in free && node.item.Some? && node.next == null
      modifies this, live`next
      ensures Valid() && live == old(live) + [node] && free == old(free) && closed == old(closed)
      ensures contents == old(contents) + [node.item.value]
    {
      if tail != null {
        LinkBehind(node);
      } else {
        LinkFirst(node);
      }
    }

    method LinkFirst(node: Node<T>)
      requires Valid() && live == [] && node !in free && node.item.Some? && node.next == null
      modifies this
      ensures Valid() && live == [node] && free == old(free) && closed == old(closed)
      ensures contents == [node.item.value]
    {
      hide Emptied;
      ApartMore(live, free, node);
      head, tail := node, node;
      size := size + 1;
      live, contents := [node], [node.item.value];
      assert [] + [node] == [node];
    }

    method LinkBehind(node: Node<T>)
      requires Valid() && live != [] && !Full()
      requires node !in live && node !in free && node.item.Some? && node.next == null
      modifies this, live`next
      ensures Valid() && live == old(live) + [node] && free == old(free) && closed == old(closed)
      ensures contents == old(contents) + [node.item.value]
    {
      hide Chained, Distinct, Apart, Stores, Emptied;
      ghost var nodes := live;
      OnlyLast(live, free);
      ChainLinks(live, head);
      tail.next := node;
      ChainBehind(live, node);
      DistinctMore(live, node);
      ApartMore(live, free, node);
      StoresMore(live, contents, node, node.item.value);
      tail := node;
      size := size + 1;
      live, contents := live + [node], contents + [node.item.value];
    }

    method UnlinkHead() returns (item: Option<T>)
      requires Valid() && size > 0
      modifies this, live
      ensures Valid() && live == old(live)[1..] && closed == old(closed)
      ensures item == Some(old(contents)[0]) && contents == old(contents)[1..]
      ensures free == if |old(free)| < MAX_FREE then [old(live)[0]] + old(free) else old(free)
    {
      hide Chained, Distinct, Apart, Stores, Emptied;
      ChainFirst(live, head);
      ChainRest(live, head);
      StoresRest(live, contents);
      ApartRest(live, free);
      var node := head;
      head := node.next;
      if head == null {
        tail := null;
      }
      size := size - 1;
      live, contents := live[1..], contents[1..];
      item := Some(node.item.value);
      RecycleNode(node);
    }

    /** Pushing fails on a closed or a full queue. */
    method TryPush(x: T) returns (ok: bool)
      requires Valid()
      modifies this, live, free
      ensures Valid() && closed == old(closed)
      ensures ok <==> !old(closed) && !old(Full())
      ensures contents == if ok then old(contents) + [x] else old(contents)
      ensures (Fifo(contents, closed), ok) ==
                (Apply(old(Fifo(contents, closed)), Operation.Push(x), capacity).0,
                    Apply(old(Fifo(contents, closed)), Operation.Push(x), capacity).2)
      ensures ok ==> |free| == (if old(free) == [] then 0 else |old(free)| - 1)
      ensures !ok ==> free == old(free) && live == old(live)
    {
      if closed || (capacity > 0 && size >= capacity) {
        return false;
      }
      hide Chained, Distinct, Apart, Stores, Emptied;
      var node := ObtainNode();
      node.item := Some(x);
      LinkTail(node);
      ok := true;
    }

    /** The blocking push, once there is room or the queue has been closed. */
    method Push(x: T) returns (ok: bool)
      requires Valid() && (closed || !Full())
      modifies this, live, free
      ensures Valid() && closed == old(closed)
      ensures ok <==> !old(closed)
      ensures contents == if ok then old(contents) + [x] else old(contents)
    {
      ok := TryPush(x);
    }

    method Poll() returns (item: Option<T>)
      requires Valid()
      modifies this, live
      ensures Valid() && closed == old(closed)
      ensures (Fifo(contents, closed), item) ==
                (Apply(old(Fifo(contents, closed)), Operation.Poll, capacity).0,
                    Apply(old(Fifo(contents, closed)), Operation.Poll, capacity).1)
      ensures item == if old(contents) == [] then None else Some(old(contents)[0])
      ensures contents == if old(contents) == [] then [] else old(contents)[1..]
    {
      if size == 0 {
        return None;
      }
      item := UnlinkHead();
    }

    /** The blocking take, once there is an item or the queue has been closed: what was queued before the
        closing still comes out. */
    method Take() returns (item: Option<T>)
      requires Valid() && (size > 0 || closed)
      modifies this, live
      ensures Valid() && closed == old(closed)
      ensures item == if old(contents) == [] then None else Some(old(contents)[0])
      ensures contents == if old(contents) == [] then [] else old(contents)[1..]
    {
      if closed && size == 0 {
        return None;
      }
      item := UnlinkHead();
    }

    method Close()
      requires Valid()
      modifies `closed
      ensures Valid() && closed && contents == old(contents)
    {
      closed := true;
    }
  }

  // ---------- The queue as a sequence ----------

  datatype Operation<T> = Push(item: T) | Poll | Close

  datatype Fifo<T> = Fifo(items: seq<T>, closed: bool)

  function Apply<T>(q: Fifo<T>, op: Operation<T>, capacity: nat): (Fifo<T>, Option<T>, bool) {
    match op
    case Push(x) =>
      if q.closed || (capacity > 0 && |q.items| >= capacity) then (q, None, false)
      else (q.(items := q.items + [x]), None, true)
    case Poll => if q.items == [] then (q, None, false) else (q.(items := q.items[1..]), Some(q.items[0]), true)
    case Close => (q.(closed := true), None, true)
  }

  function Queued<T>(ops: seq<Operation<T>>, capacity: nat): Fifo<T> {
    if ops == [] then Fifo([], false) else Apply(Queued(ops[..|ops| - 1], capacity), ops[|ops| - 1], capacity).0
  }

  function Accepted<T>(ops: seq<Operation<T>>, capacity: nat): seq<T> {
    if ops == [] then []
    else
      var op := ops[|ops| - 1];
      Accepted(ops[..|ops| - 1], capacity) +
      if op.Push? && Apply(Queued(ops[..|ops| - 1], capacity), op, capacity).2 then [op.item] else []
  }

  function Polled<T>(ops: seq<Operation<T>>, capacity: nat): seq<T> {
    if ops == [] then []
    else
      var out := Apply(Queued(ops[..|ops| - 1], capacity), ops[|ops| - 1], capacity).1;
      Polled(ops[..|ops| - 1], capacity) + if out.Some? then [out.value] else []
  }

  /** Items come out in the order they were accepted, none lost and none twice, and never more than the
      capacity is queued. */
  lemma {:induction false} FifoConserves<T>(ops: seq<Operation<T>>, capacity: nat)
    ensures Accepted(ops, capacity) == Polled(ops, capacity) + Queued(ops, capacity).items
    ensures capacity > 0 ==> |Queued(ops, capacity).items| <= capacity
  {
    if ops != [] {
      var before, op := ops[..|ops| - 1], ops[|ops| - 1];
      FifoConserves(before, capacity);
      hide Apply;
      StepConserves(Queued(before, capacity), op, capacity, Accepted(before, capacity), Polled(before, capacity));
    }
  }

  lemma StepConserves<T>(q: Fifo<T>, op: Operation<T>, capacity: nat, accepted: seq<T>, polled: seq<T>)
    requires accepted == polled + q.items && (capacity > 0 ==> |q.items| <= capacity)
    ensures var (r, out, ok) := Apply(q, op, capacity);
            && accepted + (if op.Push? && ok then [op.item] else []) == polled
                + (if out.Some? then [out.value] else []) + r.items
            && (capacity > 0 ==> |r.items| <= capacity)
  {
    assert accepted + [] == accepted && polled + [] == polled;
    match op
    case Push(x) => assert polled + q.items + [x] == polled + (q.items + [x]);
    case Poll =>
      if q.items != [] {
        assert polled + [q.items[0]] + q.items[1..] == polled + q.items;
      }
    case Close =>
  }
}
