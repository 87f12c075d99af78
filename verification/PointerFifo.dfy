/** PointerFIFO: a singly linked queue that keeps the nodes of removed items in a free list. */
module PointerFifo {
  import opened Wrappers

  class ListNode<T> {
    var mNext: ListNode?<T>
    var mData: Option<T>

    constructor () {}
  }

  /** The nodes, in order, are linked from first, and the last one points to end. */
  ghost predicate Links<T>(nodes: seq<ListNode<T>>, first: ListNode?<T>, end: ListNode?<T>)
    reads nodes
  {
    if nodes == [] then first == end else first == nodes[0] && Links(nodes[1..], nodes[0].mNext, end)
  }

  lemma LinksFirst<T>(nodes: seq<ListNode<T>>, first: ListNode?<T>, end: ListNode?<T>)
    ensures nodes == [] ==> (Links(nodes, first, end) <==> first == end)
    ensures nodes != [] && Links(nodes, first, end) ==> first == nodes[0]
  {
  }

  /** A null-terminated list. */
  ghost predicate Chain<T>(nodes: seq<ListNode<T>>, first: ListNode?<T>)
    reads nodes
  {
    Links(nodes, first, null)
  }

  lemma {:induction false} LinksSnoc<T>(nodes: seq<ListNode<T>>, first: ListNode?<T>, last: ListNode<T>)
    ensures Links(nodes + [last], first, last.mNext) <==> Links(nodes, first, last)
  {
    if nodes == [] {
      assert [] + [last] == [last];
    } else {
      LinksSnoc(nodes[1..], nodes[0].mNext, last);
      assert (nodes + [last])[1..] == nodes[1..] + [last];
    }
  }

  /** The list ends where its last node points. */
  lemma {:induction false} LinksEnd<T>(nodes: seq<ListNode<T>>, first: ListNode?<T>, end: ListNode?<T>)
    requires nodes != [] && Links(nodes, first, end)
    ensures nodes[|nodes| - 1].mNext == end
  {
    if |nodes| > 1 { LinksEnd(nodes[1..], nodes[0].mNext, end); }
  }

  predicate Distinct<T(==)>(nodes: seq<T>) {
    nodes == [] || (nodes[0] !in nodes[1..] && Distinct(nodes[1..]))
  }

  lemma {:induction false} DistinctSnoc<T>(nodes: seq<T>, last: T)
    ensures Distinct(nodes + [last]) <==> Distinct(nodes) && last !in nodes
  {
    if nodes == [] {
      assert [] + [last] == [last];
    } else {
      DistinctSnoc(nodes[1..], last);
      assert (nodes + [last])[1..] == nodes[1..] + [last];
    }
  }

  function Max(a: nat, b: nat): nat { if a < b then b else a }

  class PointerFIFO<T> {
    var mHead: ListNode?<T>
    var mTail: ListNode?<T>
    var mFreeList: ListNode?<T>
    var mSize: nat

    /** The abstract queue, the nodes that hold it, the recycled nodes, every node ever
        allocated, and the greatest length the queue has had. */
    ghost var queue: seq<T>
    ghost var live: seq<ListNode<T>>
    ghost var free: seq<ListNode<T>>
    ghost var pool: set<ListNode<T>>
    ghost var peak: nat

    /** The queue's nodes from mHead to mTail, apart from the free list. */
    ghost predicate Lists()
      reads this, live, free
    {
      && Chain(live, mHead) && Chain(free, mFreeList)
      && mTail == (if live == [] then null else live[|live| - 1])
      && mSize == |live| == |queue|
      && (forall i :: 0 <= i < |live| ==> live[i].mData == Some(queue[i]))
      && Distinct(live) && Distinct(free) && (forall n | n in live :: n !in free)
    }

    ghost predicate Valid()
      reads this, pool
    {
      pool == Nodes(live) + Nodes(free) && Lists() && |live| + |free| == peak
    }

    constructor ()
      ensures Valid() && queue == [] && pool == {} && peak == 0
    {
      mHead, mTail, mFreeList, mSize := null, null, null, 0;
      queue, live, free, pool, peak := [], [], [], {}, 0;
    }

    function Size(): nat
      reads this
    {
      mSize
    }

    /** A node off the free list, or a new one when there is none. */
    method Allocate() returns (node: ListNode<T>)
      requires Lists()
      modifies `mFreeList, `free
      ensures Lists() && node !in live && node !in free
      ensures if old(free) == [] then fresh(node) && free == [] else node in old(free) && [node] + free == old(free)
    {
      if mFreeList == null {
        node := new ListNode();
        return;
      }
      node := mFreeList;
      mFreeList := mFreeList.mNext;
      free := free[1..];
    }

    /** A removed node onto the free list. */
    method Release(wNode: ListNode<T>)
      requires Chain(free, mFreeList) && wNode !in free
      modifies wNode`mNext, `mFreeList, `free
      ensures free == [wNode] + old(free) && Chain(free, mFreeList)
    {
      wNode.mNext := mFreeList;
      mFreeList := wNode;
      assert ([wNode] + free)[1..] == free;
      free := [wNode] + free;
    }

    lemma PeakIsEnough()
      requires Valid()
      ensures |queue| <= peak && |pool| == peak
    {
      DistinctCount(live, free);
    }

    method Put(val: T)
      requires Valid()
      modifies this, pool
      ensures Valid() && fresh(pool - old(pool)) && old(pool) <= pool
      ensures queue == old(queue) + [val] && peak == Max(old(peak), |queue|)
    {
      hide Links, Distinct;
      ghost var before := free;
      var node := Allocate();
      PoolAfter(live, before, free, node, live + [node]);
      Append(node, val);
      pool, peak := pool + {node}, Max(peak, |live|);
    }

    /** mTail->next(node) */
    method LinkTail(last: ListNode<T>, node: ListNode<T>)
      requires live != [] && last == live[|live| - 1] && Distinct(live) && last !in free
      requires Chain(live, mHead) && Chain(free, mFreeList)
      modifies last`mNext
      ensures Links(live, mHead, node) && Chain(free, mFreeList)
    {
      hide Links, Distinct;
      ghost var init := live[..|live| - 1];
      assert init + [last] == live;
      LinksSnoc(init, mHead, last);
      LinksEnd(live, mHead, null);
      DistinctSnoc(init, last);
      last.mNext := node;
      LinksSnoc(init, mHead, last);
    }

    /** The links of put: node behind mTail, and mHead too when it was null. */
    method LinkLast(node: ListNode<T>)
      requires Lists() && node !in live && node !in free
      modifies `mHead, `mTail, (set n | n in live)`mNext, node`mNext
      ensures Chain(live + [node], mHead) && Chain(free, mFreeList) && mTail == node
    {
      hide Links, Distinct;
      LinksFirst(live, mHead, null);
      node.mNext := null;
      if mTail != null { LinkTail(mTail, node); }
      mTail := node;
      if mHead == null { mHead := node; }
      LinksFirst(live, mHead, node);
      LinksSnoc(live, mHead, node);
    }

    /** The rest of put: node at the back. */
    method Append(node: ListNode<T>, val: T)
      requires Lists() && node !in live && node !in free
      modifies `mHead, `mTail, `mSize, `queue, `live, live, node
      ensures Lists() && queue == old(queue) + [val] && live == old(live) + [node]
    {
      hide Links, Distinct, Chain;
      node.mData := Some(val);
      LinkLast(node);
      DistinctSnoc(live, node);
      mSize := mSize + 1;
      queue, live := queue + [val], live + [node];
    }

    method PushFront(val: T)
      requires Valid()
      modifies this, pool
      ensures Valid() && fresh(pool - old(pool)) && old(pool) <= pool
      ensures queue == [val] + old(queue) && peak == Max(old(peak), |queue|)
    {
      hide Links, Distinct;
      ghost var before := free;
      var node := Allocate();
      PoolAfter(live, before, free, node, [node] + live);
      Prepend(node, val);
      pool, peak := pool + {node}, Max(peak, |live|);
    }

    /** The rest of push_front: node at the front. */
    method Prepend(node: ListNode<T>, val: T)
      requires Lists() && node !in live && node !in free
      modifies `mHead, `mTail, `mSize, `queue, `live, node
      ensures Lists() && queue == [val] + old(queue) && live == [node] + old(live)
    {
      hide Nodes;
      node.mData := Some(val);
      node.mNext := mHead;
      mHead := node;
      if mTail == null { mTail := node; }
      assert ([node] + live)[1..] == live;
      mSize := mSize + 1;
      queue, live := [val] + queue, [node] + live;
    }

    /** None is the NULL of an empty queue. */
    method Get() returns (retVal: Option<T>)
      requires Valid()
      modifies this, pool
      ensures Valid() && pool == old(pool) && peak == old(peak)
      ensures if old(queue) == [] then retVal == None && queue == []
              else retVal == Some(old(queue)[0]) && queue == old(queue)[1..]
    {
      LinksFirst(live, mHead, null);
      if mHead == null { return None; }
      assert mHead in pool;
      hide Distinct, Nodes;
      PoolAfterGet(live, free);
      retVal := TakeFirst(mHead);
    }

    /** The normal case of get: the first node off the queue and onto the free list. */
    method TakeFirst(first: ListNode<T>) returns (retVal: Option<T>)
      requires Lists() && first == mHead
      modifies `mHead, `mTail, `mSize, `mFreeList, `queue, `live, `free, first
      ensures Lists() && old(live) != [] && live == old(live)[1..] && free == [old(live)[0]] + old(free)
      ensures retVal == Some(old(queue)[0]) && queue == old(queue)[1..]
    {
      assert live == [first] + live[1..] && live[0] !in free;
      var next := first.mNext;
      retVal := first.mData;
      Release(first);
      mHead := next;
      if next == null { mTail := null; }
      mSize := mSize - 1;
      queue, live := queue[1..], live[1..];
    }

    function Front(): (r: Option<T>)
      requires Valid()
      reads this, pool
      ensures r == if queue == [] then None else Some(queue[0])
    {
      if mHead == null then None else mHead.mData
    }
  }

  lemma PoolAfterGet<T>(live: seq<T>, free: seq<T>)
    requires live != []
    ensures Nodes(live[1..]) + Nodes([live[0]] + free) == Nodes(live) + Nodes(free)
  {
    assert live == [live[0]] + live[1..];
  }

  ghost function Nodes<T>(s: seq<T>): set<T> { set n | n in s }

  lemma NodesFirst<T>(s: seq<T>)
    requires s != []
    ensures Nodes(s) == {s[0]} + Nodes(s[1..])
  {
    assert s == [s[0]] + s[1..];
  }

  lemma {:induction false} NodesCount<T>(s: seq<T>)
    requires Distinct(s)
    ensures |Nodes(s)| == |s|
  {
    if s != [] {
      assert s[0] !in Nodes(s[1..]);
      NodesFirst(s);
      hide Nodes;
      NodesCount(s[1..]);
    }
  }

  lemma DistinctCount<T>(live: seq<T>, free: seq<T>)
    requires Distinct(live) && Distinct(free) && forall n | n in live :: n !in free
    ensures |Nodes(live) + Nodes(free)| == |live| + |free|
  {
    assert Nodes(live) !! Nodes(free);
    hide Nodes, Distinct;
    NodesCount(live);
    NodesCount(free);
  }

  /** A node taken for the live list is in the pool already, or is new to it. */
  lemma PoolAfter<T>(live: seq<T>, before: seq<T>, free: seq<T>, node: T, live': seq<T>)
    requires before == [node] + free || (before == [] && free == [])
    requires live' == live + [node] || live' == [node] + live
    ensures Nodes(live') + Nodes(free) == Nodes(live) + Nodes(before) + {node}
  {
  }

  // ---------- whole runs ----------

  datatype Op<T> = Put(val: T) | PushFront(val: T) | Get

  function QueueAfter<T>(queue: seq<T>, op: Op<T>): seq<T> {
    match op
    case Put(val) => queue + [val]
    case PushFront(val) => [val] + queue
    case Get => if queue == [] then [] else queue[1..]
  }

  /** The queue, the items that the gets delivered, and the greatest length on the way. */
  datatype Trace<T> = Trace(queue: seq<T>, delivered: seq<T>, peak: nat)

  function Next<T>(t: Trace<T>, op: Op<T>): Trace<T> {
    var queue := QueueAfter(t.queue, op);
    Trace(queue, if op.Get? && t.queue != [] then t.delivered + [t.queue[0]] else t.delivered, Max(t.peak, |queue|))
  }

  function Run<T>(t: Trace<T>, ops: seq<Op<T>>): Trace<T>
    decreases |ops|
  {
    if ops == [] then t else Run(Next(t, ops[0]), ops[1..])
  }

  function Puts<T>(ops: seq<Op<T>>): seq<T> {
    if ops == [] then [] else (if ops[0].Put? then [ops[0].val] else []) + Puts(ops[1..])
  }

  method Step<T>(fifo: PointerFIFO<T>, op: Op<T>, delivered: seq<T>) returns (delivered': seq<T>)
    requires fifo.Valid()
    modifies fifo, fifo.pool
    ensures fifo.Valid() && old(fifo.pool) <= fifo.pool && fresh(fifo.pool - old(fifo.pool))
    ensures Trace(fifo.queue, delivered', fifo.peak) == Next(Trace(old(fifo.queue), delivered, old(fifo.peak)), op)
  {
    fifo.PeakIsEnough();
    delivered' := delivered;
    match op
    case Put(val) => fifo.Put(val);
    case PushFront(val) => fifo.PushFront(val);
    case Get =>
      var item := fifo.Get();
      if item.Some? { delivered' := delivered + [item.value]; }
  }

  /** The operations of a run on a real list, from any state of it: the items come out and
      remain as in the abstract run, and the nodes ever allocated number the greatest length
      the queue has had. */
  method Replay<T>(fifo: PointerFIFO<T>, ops: seq<Op<T>>) returns (delivered: seq<T>)
    requires fifo.Valid()
    modifies fifo, fifo.pool
    ensures fifo.Valid()
    ensures Trace(fifo.queue, delivered, fifo.peak) == Run(Trace(old(fifo.queue), [], old(fifo.peak)), ops)
  {
    hide Run, Next;
    delivered := [];
    var i := 0;
    ghost var start := Trace(fifo.queue, [], fifo.peak);
    assert ops[0..] == ops;
    while i < |ops|
      invariant i <= |ops| && fifo.Valid() && fresh(fifo.pool - old(fifo.pool))
      invariant Run(Trace(fifo.queue, delivered, fifo.peak), ops[i..]) == Run(start, ops)
    {
      RunFirst(Trace(fifo.queue, delivered, fifo.peak), ops[i..]);
      assert ops[i..][1..] == ops[i + 1..];
      delivered := Step(fifo, ops[i], delivered);
      i := i + 1;
    }
    assert ops[i..] == [];
    RunNone(Trace(fifo.queue, delivered, fifo.peak));
  }

  lemma RunFirst<T>(t: Trace<T>, ops: seq<Op<T>>)
    requires ops != []
    ensures Run(t, ops) == Run(Next(t, ops[0]), ops[1..])
  {
  }

  lemma RunNone<T>(t: Trace<T>)
    ensures Run(t, []) == t
  {
  }

  /** Without push_front, what was delivered and what remains are the items put, in order. */
  lemma {:induction false} FirstInFirstOut<T>(t: Trace<T>, ops: seq<Op<T>>)
    requires forall i :: 0 <= i < |ops| ==> !ops[i].PushFront?
    ensures Run(t, ops).delivered + Run(t, ops).queue == t.delivered + t.queue + Puts(ops)
    decreases |ops|
  {
    if ops == [] {
      assert t.delivered + t.queue + [] == t.delivered + t.queue;
    } else {
      hide Run, Next;
      RunFirst(t, ops);
      OneOperation(t, ops[0]);
      FirstInFirstOut(Next(t, ops[0]), ops[1..]);
      ThenMore(t.delivered + t.queue, if ops[0].Put? then [ops[0].val] else [], Puts(ops[1..]));
    }
  }

  lemma ThenMore<T>(a: seq<T>, b: seq<T>, c: seq<T>)
    ensures a + b + c == a + (b + c)
  {
  }

  lemma OneOperation<T>(t: Trace<T>, op: Op<T>)
    requires !op.PushFront?
    ensures Next(t, op).delivered + Next(t, op).queue == t.delivered + t.queue + (if op.Put? then [op.val] else [])
  {
    if op.Get? && t.queue != [] { assert [t.queue[0]] + t.queue[1..] == t.queue; }
  }
}
