/** InterthreadQueue: any number of readers and writers over one queue, one mutex and one
    condition variable.  Writers signal after they have released the mutex. */
module Interthread {

  type Tid = nat

  /** What is written: the pointers are told apart by a number. */
  datatype Item = Null | Ptr(id: nat)

  datatype Kind = Blocking | Timed | NoBlock

  datatype Pc =
    | Idle
    | WantRead(k: Kind)                  // at the ScopedLock of a read
    | Reading(k: Kind, woken: bool)      // holds the mutex, at the test of the read
    | Asleep(k: Kind)                    // in wait(), mutex released
    | Woken(k: Kind)                     // out of the wait, at the mutex again
    | WantWrite(v: Item, front: bool)
    | Writing(v: Item, front: bool)      // holds the mutex
    | Signalling                         // has released the mutex, before signal()

  datatype Return = Return(k: Kind, v: Item)

  /** mQ, the holder of mLock, where each thread is, and what has happened so far. */
  datatype State = State(
    queue: seq<Item>,
    holder: set<Tid>,
    pc: map<Tid, Pc>,
    written: seq<Item>,
    results: seq<Return>)

  /** What the callers do: may they write null pointers, may they use write_front. */
  datatype Usage = Usage(nulls: bool, fronts: bool)

  datatype Step =
    | BeginRead(t: Tid, k: Kind)
    | BeginWrite(t: Tid, v: Item, front: bool)
    | Acquire(t: Tid)
    | Act(t: Tid, timedOut: bool)
    | Signal(t: Tid, wakes: set<Tid>)
    | Wake(t: Tid)                       // a timeout, or a spurious return

  predicate AtMutex(pc: Pc) { pc.WantRead? || pc.Woken? || pc.WantWrite? }

  function Sleepers(s: State): set<Tid> { set t | t in s.pc && s.pc[t].Asleep? }

  /** Writers that have put an item and not yet signalled. */
  function Pending(s: State): set<Tid> { set t | t in s.pc && s.pc[t] == Signalling }

  /** Readers that have been woken and have not yet looked at the queue again. */
  function Roused(s: State): set<Tid> { set t | t in s.pc && (s.pc[t].Woken? || (s.pc[t].Reading? && s.pc[t].woken)) }

  predicate Enabled(u: Usage, s: State, e: Step) {
    && e.t in s.pc
    && var pc := s.pc[e.t];
       match e
       case BeginRead(_, _) => pc.Idle?
       case BeginWrite(_, v, front) => pc.Idle? && (v.Null? ==> u.nulls) && (front ==> u.fronts)
       case Acquire(_) => AtMutex(pc) && s.holder == {}
       case Act(_, _) => pc.Reading? || pc.Writing?
       case Signal(_, wakes) =>
         // pthread_cond_signal wakes one waiting thread if there is any
         pc.Signalling? && wakes <= Sleepers(s) && (if Sleepers(s) == {} then wakes == {} else |wakes| == 1)
       case Wake(_) => pc.Asleep?
  }

  /** get(): the queue and the item taken, Null when there is none. */
  function Get(q: seq<Item>): (seq<Item>, Item) { if q == [] then (q, Null) else (q[1..], q[0]) }

  function Leave(s: State, t: Tid, k: Kind, v: Item): State {
    s.(holder := {}, pc := s.pc[t := Idle], results := s.results + [Return(k, v)])
  }

  function Sleep(s: State, t: Tid, k: Kind): State { s.(holder := {}, pc := s.pc[t := Asleep(k)]) }

  /** What a reader does with the mutex held, up to its return or its next wait. */
  function ReadStep(s: State, t: Tid, k: Kind, timedOut: bool): State {
    var (rest, v) := Get(s.queue);
    match k
    case Blocking => if v.Null? then Sleep(s.(queue := rest), t, k) else Leave(s.(queue := rest), t, k, v)
    case Timed =>
      if s.queue == [] then (if timedOut then Leave(s, t, k, Null) else Sleep(s, t, k))
      else Leave(s.(queue := rest), t, k, v)
    case NoBlock => Leave(s.(queue := rest), t, k, v)
  }

  function Next(u: Usage, s: State, e: Step): State
    requires Enabled(u, s, e)
  {
    var pc := s.pc[e.t];
    match e
    case BeginRead(t, k) => s.(pc := s.pc[t := WantRead(k)])
    case BeginWrite(t, v, front) => s.(pc := s.pc[t := WantWrite(v, front)])
    case Acquire(t) =>
      s.(holder := {t},
         pc := s.pc[t := if pc.WantWrite? then Writing(pc.v, pc.front) else Reading(pc.k, pc.Woken?)])
    case Act(t, timedOut) =>
      if pc.Reading? then ReadStep(s, t, pc.k, timedOut)
      else s.(queue := if pc.front then [pc.v] + s.queue else s.queue + [pc.v],
              holder := {}, pc := s.pc[t := Signalling], written := s.written + [pc.v])
    case Signal(t, wakes) =>
      s.(pc := map r | r in s.pc ::
           if r == t then Idle else if r in wakes && s.pc[r].Asleep? then Woken(s.pc[r].k) else s.pc[r])
    case Wake(t) => s.(pc := s.pc[t := Woken(pc.k)])
  }

  predicate Init(s: State) {
    && s.queue == [] && s.holder == {} && s.written == [] && s.results == []
    && forall t :: t in s.pc ==> s.pc[t] == Idle
  }

  predicate Legal(u: Usage, s: State, run: seq<Step>)
    decreases |run|
  {
    run == [] || (Enabled(u, s, run[0]) && Legal(u, Next(u, s, run[0]), run[1..]))
  }

  function Exec(u: Usage, s: State, run: seq<Step>): State
    requires Legal(u, s, run)
    decreases |run|
  {
    if run == [] then s else Exec(u, Next(u, s, run[0]), run[1..])
  }

  ghost predicate Reachable(u: Usage, s: State) {
    exists s0, run :: Init(s0) && Legal(u, s0, run) && Exec(u, s0, run) == s
  }

  // ---------- what is kept by every step ----------

  /** The non-null items in order. */
  function Pointers(q: seq<Item>): seq<Item> {
    if q == [] then [] else (if q[0].Null? then [] else [q[0]]) + Pointers(q[1..])
  }

  function Values(r: seq<Return>): seq<Item> { if r == [] then [] else Values(r[..|r| - 1]) + [r[|r| - 1].v] }

  /** Every non-null item written has been returned once or is in the queue once. */
  ghost predicate Conserved(s: State) {
    multiset(Pointers(s.written)) == multiset(Pointers(Values(s.results))) + multiset(Pointers(s.queue))
  }

  /** The returned items, then the queue, are the items in the order they were written. */
  ghost predicate InOrder(s: State) {
    Pointers(s.written) == Pointers(Values(s.results)) + Pointers(s.queue)
  }

  ghost predicate MutexOk(s: State) {
    && (forall t :: t in s.holder <==> t in s.pc && (s.pc[t].Reading? || s.pc[t].Writing?))
    && (forall t, r :: t in s.holder && r in s.holder ==> t == r)
  }

  ghost predicate BlockingOk(s: State) { forall i :: 0 <= i < |s.results| && s.results[i].k == Blocking ==> s.results[i].v.Ptr? }

  ghost predicate NoNulls(s: State) {
    && (forall i :: 0 <= i < |s.queue| ==> s.queue[i].Ptr?)
    && (forall t :: t in s.pc && (s.pc[t].WantWrite? || s.pc[t].Writing?) ==> s.pc[t].v.Ptr?)
  }

  ghost predicate NoFronts(s: State) {
    forall t :: t in s.pc && (s.pc[t].WantWrite? || s.pc[t].Writing?) ==> !s.pc[t].front
  }

  /** Nobody sleeps unless enough threads are on their way to the items in the queue. */
  ghost predicate NoLostWakeup(s: State) {
    Sleepers(s) != {} ==> |s.queue| <= |Pending(s)| + |Roused(s)|
  }

  ghost predicate Inv(u: Usage, s: State) {
    && MutexOk(s) && BlockingOk(s) && DataOk(u, s)
    && (!u.nulls ==> NoNulls(s) && NoLostWakeup(s))
    && (!u.fronts ==> NoFronts(s))
  }

  lemma {:induction false} PointersConcat(a: seq<Item>, b: seq<Item>)
    ensures Pointers(a + b) == Pointers(a) + Pointers(b)
  {
    if a == [] {
      assert a + b == b;
    } else {
      assert (a + b)[1..] == a[1..] + b;
      PointersConcat(a[1..], b);
    }
  }

  lemma ValuesSnoc(r: seq<Return>, k: Kind, v: Item)
    ensures Values(r + [Return(k, v)]) == Values(r) + [v]
    ensures Pointers(Values(r + [Return(k, v)])) == Pointers(Values(r)) + (if v.Null? then [] else [v])
  {
    assert (r + [Return(k, v)])[..|r|] == r;
    PointersConcat(Values(r), [v]);
    assert Pointers([v]) == if v.Null? then [] else [v];
  }

  lemma MoveItem(w: seq<Item>, r: seq<Item>, x: seq<Item>, rest: seq<Item>)
    ensures multiset(w) == multiset(r) + multiset(x + rest) ==> multiset(w) == multiset(r + x) + multiset(rest)
    ensures w == r + (x + rest) ==> w == r + x + rest
  {
    assert multiset(x + rest) == multiset(x) + multiset(rest) && multiset(r + x) == multiset(r) + multiset(x);
  }

  /** Taking an item from the queue and returning it. */
  lemma ReturnKeepsData(s: State, t: Tid, k: Kind)
    ensures var (rest, v) := Get(s.queue); var s' := Leave(s.(queue := rest), t, k, v);
      (Conserved(s) ==> Conserved(s')) && (InOrder(s) ==> InOrder(s'))
  {
    var (rest, v) := Get(s.queue);
    var x := if v.Null? then [] else [v];
    assert Pointers(s.queue) == x + Pointers(rest);
    ValuesSnoc(s.results, k, v);
    MoveItem(Pointers(s.written), Pointers(Values(s.results)), x, Pointers(rest));
  }

  lemma SkipNull(s: State)
    requires s.queue != [] && s.queue[0].Null?
    ensures Pointers(s.queue) == Pointers(s.queue[1..])
  {
  }

  lemma ReturnNullKeepsData(s: State, t: Tid, k: Kind)
    ensures (Conserved(s) ==> Conserved(Leave(s, t, k, Null))) && (InOrder(s) ==> InOrder(Leave(s, t, k, Null)))
  {
    ValuesSnoc(s.results, k, Null);
    hide Pointers, Values;
    var before := Pointers(Values(s.results));
    assert before + [] == before;
  }

  /** What the queue holds, what has been written and what has been returned is sound. */
  ghost predicate DataOk(u: Usage, s: State) { Conserved(s) && (!u.fronts ==> InOrder(s)) }

  lemma SleepKeepsData(u: Usage, s: State, t: Tid, k: Kind, rest: seq<Item>)
    requires DataOk(u, s) && Pointers(rest) == Pointers(s.queue)
    ensures DataOk(u, Sleep(s.(queue := rest), t, k))
  {
  }

  lemma TakeKeepsData(u: Usage, s: State, t: Tid, k: Kind)
    requires DataOk(u, s)
    ensures DataOk(u, Leave(s.(queue := Get(s.queue).0), t, k, Get(s.queue).1))
  {
    ReturnKeepsData(s, t, k);
  }

  lemma ReadKeepsData(u: Usage, s: State, t: Tid, k: Kind, timedOut: bool)
    requires DataOk(u, s)
    ensures DataOk(u, ReadStep(s, t, k, timedOut))
  {
    if k.Blocking? && Get(s.queue).1.Null? {
      if s.queue != [] { SkipNull(s); }
      SleepKeepsData(u, s, t, k, Get(s.queue).0);
    } else if k.Timed? && s.queue == [] {
      SleepKeepsData(u, s, t, k, s.queue);
      ReturnNullKeepsData(s, t, k);
    } else {
      TakeKeepsData(u, s, t, k);
    }
  }

  lemma BlockingKept(u: Usage, s: State, e: Step)
    requires BlockingOk(s) && Enabled(u, s, e)
    ensures BlockingOk(Next(u, s, e))
  {
  }

  lemma AddItem(w: seq<Item>, r: seq<Item>, q: seq<Item>, x: seq<Item>)
    ensures multiset(w) == multiset(r) + multiset(q) ==> multiset(w + x) == multiset(r) + multiset(q + x)
    ensures multiset(w) == multiset(r) + multiset(q) ==> multiset(w + x) == multiset(r) + multiset(x + q)
    ensures w == r + q ==> w + x == r + (q + x)
  {
    assert multiset(w + x) == multiset(w) + multiset(x) && multiset(q + x) == multiset(q) + multiset(x);
    assert multiset(x + q) == multiset(q) + multiset(x);
  }

  lemma WriteKeepsData(s: State, v: Item, front: bool)
    ensures var s' := s.(queue := if front then [v] + s.queue else s.queue + [v], written := s.written + [v]);
      (Conserved(s) ==> Conserved(s')) && (InOrder(s) && !front ==> InOrder(s'))
  {
    PointersConcat(s.written, [v]);
    PointersConcat([v], s.queue);
    PointersConcat(s.queue, [v]);
    assert Pointers([v]) == if v.Null? then [] else [v];
    AddItem(Pointers(s.written), Pointers(Values(s.results)), Pointers(s.queue), Pointers([v]));
  }

  lemma DataKept(u: Usage, s: State, e: Step)
    requires Inv(u, s) && Enabled(u, s, e)
    ensures DataOk(u, Next(u, s, e))
  {
    var pc := s.pc[e.t];
    if e.Act? {
      if pc.Reading? { ReadKeepsData(u, s, e.t, pc.k, e.timedOut); } else { WriteKeepsData(s, pc.v, pc.front); }
    }
  }

  lemma MutexKept(u: Usage, s: State, e: Step)
    requires MutexOk(s) && Enabled(u, s, e) && !e.Signal?
    ensures MutexOk(Next(u, s, e))
  {
    var s' := Next(u, s, e);
    assert s'.pc == s.pc[e.t := s'.pc[e.t]];
    forall t ensures t in s'.holder <==> t in s'.pc && (s'.pc[t].Reading? || s'.pc[t].Writing?) {
      if t != e.t && e.Act? { assert e.t in s.holder; }
    }
  }

  lemma WritesKept(u: Usage, s: State, e: Step)
    requires Enabled(u, s, e) && !e.Signal?
    ensures !u.nulls && NoNulls(s) ==> NoNulls(Next(u, s, e))
    ensures !u.fronts && NoFronts(s) ==> NoFronts(Next(u, s, e))
  {
    var s' := Next(u, s, e);
    assert s'.pc == s.pc[e.t := s'.pc[e.t]];
  }

  lemma ControlKept(u: Usage, s: State, e: Step)
    requires Inv(u, s) && Enabled(u, s, e)
    ensures MutexOk(Next(u, s, e))
    ensures !u.nulls ==> NoNulls(Next(u, s, e))
    ensures !u.fronts ==> NoFronts(Next(u, s, e))
  {
    if e.Signal? {
      SignalControl(u, s, e);
    } else {
      MutexKept(u, s, e);
      WritesKept(u, s, e);
    }
  }

  lemma SignalControl(u: Usage, s: State, e: Step)
    requires Enabled(u, s, e) && e.Signal?
    ensures MutexOk(s) ==> MutexOk(Next(u, s, e))
    ensures NoNulls(s) ==> NoNulls(Next(u, s, e))
    ensures NoFronts(s) ==> NoFronts(Next(u, s, e))
  {
  }

  // ---------- counting the threads that are on their way ----------

  lemma CountMoves(a: set<Tid>, b: set<Tid>, t: Tid)
    requires a - {t} == b - {t}
    ensures |b| == |a| + (if t in b && t !in a then 1 else if t in a && t !in b then -1 else 0)
  {
    CountWithout(a, t);
    CountWithout(b, t);
  }

  lemma CountWithout(a: set<Tid>, t: Tid)
    ensures |a| == |a - {t}| + if t in a then 1 else 0
  {
    if t in a { assert a == (a - {t}) + {t}; } else { assert a == a - {t}; }
  }

  /** A step that moves only thread t. */
  lemma OneThreadMoves(s: State, s': State, t: Tid, pc: Pc)
    requires t in s.pc && s'.pc == s.pc[t := pc]
    ensures |Pending(s')| == |Pending(s)| + (if t in Pending(s') then 1 else 0) - (if t in Pending(s) then 1 else 0)
    ensures |Roused(s')| == |Roused(s)| + (if t in Roused(s') then 1 else 0) - (if t in Roused(s) then 1 else 0)
    ensures Sleepers(s') - {t} == Sleepers(s) - {t}
  {
    CountMoves(Pending(s), Pending(s'), t);
    CountMoves(Roused(s), Roused(s'), t);
  }

  function OnWay(pc: Pc): int {
    if pc.Signalling? || pc.Woken? || (pc.Reading? && pc.woken) then 1 else 0
  }

  /** With as many threads on their way as items, a step of one thread that adds an item
      adds a thread, and a step that removes a thread removes an item or empties the queue. */
  lemma MoveKeepsWakeup(s: State, s': State, t: Tid, pc: Pc)
    requires NoLostWakeup(s) && t in s.pc && s'.pc == s.pc[t := pc]
    requires s'.queue == [] || (!pc.Asleep? && |s'.queue| - |s.queue| <= OnWay(pc) - OnWay(s.pc[t]))
    ensures NoLostWakeup(s')
  {
    OneThreadMoves(s, s', t, pc);
    if Sleepers(s') != {} && !pc.Asleep? {
      var r :| r in Sleepers(s');
      assert r in Sleepers(s);
    }
  }

  lemma ReadKeepsWakeup(s: State, t: Tid, k: Kind, timedOut: bool)
    requires t in s.pc && s.pc[t].Reading? && NoLostWakeup(s)
    requires forall i :: 0 <= i < |s.queue| ==> s.queue[i].Ptr?
    ensures NoLostWakeup(ReadStep(s, t, k, timedOut))
  {
    var s' := ReadStep(s, t, k, timedOut);
    MoveKeepsWakeup(s, s', t, s'.pc[t]);
  }

  lemma ActKeepsWakeup(u: Usage, s: State, t: Tid, timedOut: bool)
    requires NoNulls(s) && NoLostWakeup(s) && Enabled(u, s, Act(t, timedOut))
    ensures NoLostWakeup(Next(u, s, Act(t, timedOut)))
  {
    if s.pc[t].Reading? {
      ReadKeepsWakeup(s, t, s.pc[t].k, timedOut);
    } else {
      MoveKeepsWakeup(s, Next(u, s, Act(t, timedOut)), t, Signalling);
    }
  }

  lemma AcquireKeepsWakeup(u: Usage, s: State, t: Tid)
    requires NoLostWakeup(s) && Enabled(u, s, Acquire(t))
    ensures NoLostWakeup(Next(u, s, Acquire(t)))
  {
    var s' := Next(u, s, Acquire(t));
    MoveKeepsWakeup(s, s', t, s'.pc[t]);
  }

  lemma WakeupKept(u: Usage, s: State, e: Step)
    requires NoNulls(s) && NoLostWakeup(s) && Enabled(u, s, e)
    ensures NoLostWakeup(Next(u, s, e))
  {
    match e
    case Signal(_, _) => SignalKeeps(u, s, e);
    case Act(t, timedOut) => ActKeepsWakeup(u, s, t, timedOut);
    case Acquire(t) => AcquireKeepsWakeup(u, s, t);
    case BeginRead(t, k) => MoveKeepsWakeup(s, Next(u, s, e), t, WantRead(k));
    case BeginWrite(t, v, front) => MoveKeepsWakeup(s, Next(u, s, e), t, WantWrite(v, front));
    case Wake(t) => MoveKeepsWakeup(s, Next(u, s, e), t, Woken(s.pc[t].k));
  }

  lemma SignalKeeps(u: Usage, s: State, e: Step)
    requires NoLostWakeup(s) && Enabled(u, s, e) && e.Signal?
    ensures NoLostWakeup(Next(u, s, e))
  {
    var s' := Next(u, s, e);
    if Sleepers(s) == {} {
      assert Sleepers(s') == {};
    } else {
      var w :| w in e.wakes;
      SignalMoves(u, s, e, w);
      hide Sleepers, Pending, Roused;
      assert |Pending(s)| + |Roused(s)| == |Pending(s')| + |Roused(s')|;
    }
  }

  lemma SignalMoves(u: Usage, s: State, e: Step, w: Tid)
    requires Enabled(u, s, e) && e.Signal? && w in e.wakes
    ensures var s' := Next(u, s, e);
      |Pending(s)| == |Pending(s')| + 1 && |Roused(s')| == |Roused(s)| + 1
      && s'.queue == s.queue && Sleepers(s) != {}
  {
    var s' := Next(u, s, e);
    OneElement(e.wakes, w);
    forall t ensures (t in Pending(s') <==> t in Pending(s) && t != e.t) && (t in Roused(s') <==> t in Roused(s) || t == w) {
      SignalOne(u, s, e, w, t);
    }
    assert e.t in Pending(s) && w !in Roused(s) && w in Sleepers(s);
    hide Pending, Roused, Sleepers, Next;
    CountMoves(Pending(s), Pending(s'), e.t);
    CountMoves(Roused(s), Roused(s'), w);
  }

  lemma SignalOne(u: Usage, s: State, e: Step, w: Tid, t: Tid)
    requires Enabled(u, s, e) && e.Signal? && e.wakes == {w}
    ensures t in Pending(Next(u, s, e)) <==> t in Pending(s) && t != e.t
    ensures t in Roused(Next(u, s, e)) <==> t in Roused(s) || t == w
  {
    assert w in Sleepers(s);
  }

  lemma OneElement(a: set<Tid>, w: Tid)
    requires |a| == 1 && w in a
    ensures a == {w}
  {
    assert |a - {w}| == 0;
  }

  lemma StepKeepsInv(u: Usage, s: State, e: Step)
    requires Inv(u, s) && Enabled(u, s, e)
    ensures Inv(u, Next(u, s, e))
  {
    DataKept(u, s, e);
    BlockingKept(u, s, e);
    ControlKept(u, s, e);
    if !u.nulls { WakeupKept(u, s, e); }
  }

  lemma {:induction false} RunKeepsInv(u: Usage, s: State, run: seq<Step>)
    requires Inv(u, s) && Legal(u, s, run)
    ensures Inv(u, Exec(u, s, run))
    decreases |run|
  {
    if run != [] {
      StepKeepsInv(u, s, run[0]);
      RunKeepsInv(u, Next(u, s, run[0]), run[1..]);
    }
  }

  lemma ReachableInv(u: Usage, s: State)
    requires Reachable(u, s)
    ensures Inv(u, s)
  {
    var s0, run :| Init(s0) && Legal(u, s0, run) && Exec(u, s0, run) == s;
    RunKeepsInv(u, s0, run);
  }

  // ---------- what the queue guarantees ----------

  /** Each non-null item is returned at most once, and is still queued if not returned;
      a blocking read never returns null. */
  lemma EachItemOnce(u: Usage, s: State)
    requires Reachable(u, s)
    ensures multiset(Pointers(s.written)) == multiset(Pointers(Values(s.results))) + multiset(Pointers(s.queue))
    ensures forall i :: 0 <= i < |s.results| && s.results[i].k == Blocking ==> s.results[i].v.Ptr?
  {
    ReachableInv(u, s);
  }

  /** Without write_front, items are returned in the order in which they were written. */
  lemma FirstInFirstOut(u: Usage, s: State)
    requires Reachable(u, s) && !u.fronts
    ensures Pointers(Values(s.results)) <= Pointers(s.written)
    ensures Pointers(s.written)[|Pointers(Values(s.results))|..] == Pointers(s.queue)
  {
    ReachableInv(u, s);
  }

  /** If a reader is asleep while something is queued, a writer is about to signal or a
      woken reader is about to look, and that thread, or the holder of the mutex, can move. */
  lemma SomeoneIsOnTheWay(u: Usage, s: State)
    requires Reachable(u, s) && !u.nulls && Sleepers(s) != {} && s.queue != []
    ensures Pending(s) + Roused(s) != {}
    ensures exists e :: Enabled(u, s, e) && !e.BeginRead? && !e.BeginWrite? && !e.Wake?
  {
    ReachableInv(u, s);
    if Pending(s) != {} {
      var t :| t in Pending(s);
      assert t in Pending(s) + Roused(s);
      var r :| r in Sleepers(s);
      assert Enabled(u, s, Signal(t, {r}));
    } else {
      assert |Pending(s)| == 0 && |Roused(s)| > 0;
      var t :| t in Roused(s);
      assert t in Pending(s) + Roused(s);
      if s.holder == {} {
        assert s.pc[t].Woken?;
        assert Enabled(u, s, Acquire(t));
      } else {
        var h :| h in s.holder;
        assert Enabled(u, s, Act(h, false));
      }
    }
  }

  // ---------- what one call does ----------

  /** A writer that holds the mutex puts its item behind all others, or with write_front before
      them, and then signals. */
  lemma WritePuts(u: Usage, s: State, t: Tid, timedOut: bool)
    requires Enabled(u, s, Act(t, timedOut)) && s.pc[t].Writing?
    ensures var s' := Next(u, s, Act(t, timedOut));
      && |s'.queue| == |s.queue| + 1 && s'.results == s.results && s'.holder == {} && s'.pc[t] == Signalling
      && (!s.pc[t].front ==> s'.queue[..|s.queue|] == s.queue && s'.queue[|s.queue|] == s.pc[t].v)
      && (s.pc[t].front ==> s'.queue[1..] == s.queue && s'.queue[0] == s.pc[t].v)
  {
  }

  /** A reader that holds the mutex returns the first item if it is not null.  On an empty queue
      a blocking read goes to sleep, a timed one too until its time is up, and otherwise null
      is returned; a null at the front is taken off, and a blocking read sleeps then too. */
  lemma ReadGives(u: Usage, s: State, t: Tid, timedOut: bool)
    requires Enabled(u, s, Act(t, timedOut)) && s.pc[t].Reading?
    ensures var s', k := Next(u, s, Act(t, timedOut)), s.pc[t].k;
      && s'.holder == {} && s'.written == s.written
      && s'.queue == (if s.queue == [] then [] else s.queue[1..])
      && (s.queue != [] && (s.queue[0].Ptr? || !k.Blocking?) ==>
           s'.pc[t] == Idle && s'.results == s.results + [Return(k, s.queue[0])])
      && (s.queue != [] && s.queue[0].Null? && k.Blocking? ==> s'.pc[t] == Asleep(k) && s'.results == s.results)
      && (s.queue == [] && (k.NoBlock? || (k.Timed? && timedOut)) ==>
           s'.pc[t] == Idle && s'.results == s.results + [Return(k, Null)])
      && (s.queue == [] && (k.Blocking? || (k.Timed? && !timedOut)) ==> s'.pc[t] == Asleep(k) && s'.results == s.results)
  {
  }

  lemma OneStep(u: Usage, s: State, e: Step)
    requires Enabled(u, s, e)
    ensures Legal(u, s, [e]) && Exec(u, s, [e]) == Next(u, s, e)
  {
    hide Enabled, Next;
    assert [e][1..] == [];
  }

  lemma ThreeSteps(u: Usage, s: State, a: Step, b: Step, c: Step)
    requires Enabled(u, s, a) && Enabled(u, Next(u, s, a), b) && Enabled(u, Next(u, Next(u, s, a), b), c)
    ensures Legal(u, s, [a, b, c]) && Exec(u, s, [a, b, c]) == Next(u, Next(u, Next(u, s, a), b), c)
  {
    hide Enabled, Next;
    OneStep(u, Next(u, Next(u, s, a), b), c);
    assert [a, b, c][1..] == [b, c] && [b, c][1..] == [c];
    assert Legal(u, Next(u, s, a), [b, c]);
  }

  /** A whole write while the mutex is free: the item is in the queue, and the writer signals. */
  lemma WriteCall(u: Usage, s: State, t: Tid, v: Item, front: bool)
    requires t in s.pc && s.pc[t].Idle? && s.holder == {} && (v.Null? ==> u.nulls) && (front ==> u.fronts)
    ensures var run := [BeginWrite(t, v, front), Acquire(t), Act(t, false)];
      && Legal(u, s, run)
      && var e := Exec(u, s, run);
         e.queue == (if front then [v] + s.queue else s.queue + [v]) && e.pc == s.pc[t := Signalling]
         && e.holder == {} && e.results == s.results
  {
    var s1 := Next(u, s, BeginWrite(t, v, front));
    ThreeSteps(u, s, BeginWrite(t, v, front), Acquire(t), Act(t, false));
    assert s1.pc[t] == WantWrite(v, front);
  }

  /** A whole read of any kind while the mutex is free and the first item is not null. */
  lemma ReadCall(u: Usage, s: State, t: Tid, k: Kind)
    requires t in s.pc && s.pc[t].Idle? && s.holder == {} && s.queue != [] && s.queue[0].Ptr?
    ensures var run := [BeginRead(t, k), Acquire(t), Act(t, false)];
      && Legal(u, s, run)
      && var e := Exec(u, s, run);
         e.results == s.results + [Return(k, s.queue[0])] && e.queue == s.queue[1..] && e.pc == s.pc && e.holder == {}
  {
    ThreeSteps(u, s, BeginRead(t, k), Acquire(t), Act(t, false));
    assert s.pc[t := WantRead(k)][t := Reading(k, false)][t := Idle] == s.pc;
  }

  /** A signal to a sleeping reader with an item in the queue: the reader returns it. */
  lemma SignalledReads(u: Usage, s: State, w: Tid, t: Tid)
    requires w in s.pc && s.pc[w] == Signalling && t in s.pc && s.pc[t].Asleep?
    requires s.holder == {} && s.queue != [] && s.queue[0].Ptr?
    ensures var run := [Signal(w, {t}), Acquire(t), Act(t, false)];
      && Legal(u, s, run)
      && var e := Exec(u, s, run);
         e.results == s.results + [Return(s.pc[t].k, s.queue[0])] && e.queue == s.queue[1..]
         && t in e.pc && w in e.pc && e.pc[t] == e.pc[w] == Idle
  {
    assert t in Sleepers(s) && |{t}| == 1;
    var s1 := Next(u, s, Signal(w, {t}));
    assert s1.pc[t] == Woken(s.pc[t].k) && s1.pc[w] == Idle;
    ThreeSteps(u, s, Signal(w, {t}), Acquire(t), Act(t, false));
  }

  /** A timed read whose time is up returns null if the queue is empty then. */
  lemma TimedReadEnds(u: Usage, s: State, t: Tid)
    requires t in s.pc && s.pc[t] == Asleep(Timed) && s.holder == {} && s.queue == []
    ensures var run := [Wake(t), Acquire(t), Act(t, true)];
      Legal(u, s, run) && Exec(u, s, run) == s.(pc := s.pc[t := Idle], results := s.results + [Return(Timed, Null)])
  {
    ThreeSteps(u, s, Wake(t), Acquire(t), Act(t, true));
    assert s.pc[t := Woken(Timed)][t := Reading(Timed, true)][t := Idle] == s.pc[t := Idle];
  }

  /** The item that was first when the results were those before is still first, or has been
      returned next. */
  predicate NextOut(s: State, before: seq<Return>, v: Item) {
    || (s.results == before && s.queue != [] && s.queue[0] == v)
    || (before < s.results && s.results[|before|].v == v)
  }

  lemma StepKeepsNext(u: Usage, s: State, e: Step, before: seq<Return>, v: Item)
    requires !u.fronts && NoFronts(s) && Enabled(u, s, e) && v.Ptr? && NextOut(s, before, v)
    ensures NoFronts(Next(u, s, e)) && NextOut(Next(u, s, e), before, v)
  {
    if e.Signal? { SignalControl(u, s, e); } else { WritesKept(u, s, e); }
    hide Pointers, Values;
  }

  lemma {:induction false} RunKeepsNext(u: Usage, s: State, run: seq<Step>, before: seq<Return>, v: Item)
    requires !u.fronts && NoFronts(s) && Legal(u, s, run) && v.Ptr? && NextOut(s, before, v)
    ensures NextOut(Exec(u, s, run), before, v)
    decreases |run|
  {
    if run != [] {
      StepKeepsNext(u, s, run[0], before, v);
      hide Next, Enabled, NoFronts, NextOut;
      RunKeepsNext(u, Next(u, s, run[0]), run[1..], before, v);
    }
  }

  /** An item written in front is the next one returned, whatever threads do meanwhile, if
      nobody writes in front once more. */
  lemma FrontComesNext(u: Usage, s: State, t: Tid, timedOut: bool, run: seq<Step>)
    requires Enabled(u, s, Act(t, timedOut)) && s.pc[t].Writing? && s.pc[t].front && s.pc[t].v.Ptr?
    requires forall r :: r in s.pc && r != t && (s.pc[r].WantWrite? || s.pc[r].Writing?) ==> !s.pc[r].front
    requires Legal(Usage(u.nulls, false), Next(u, s, Act(t, timedOut)), run)
    ensures NextOut(Exec(Usage(u.nulls, false), Next(u, s, Act(t, timedOut)), run), s.results, s.pc[t].v)
  {
    WritePuts(u, s, t, timedOut);
    var s' := Next(u, s, Act(t, timedOut));
    assert NoFronts(s') && NextOut(s', s.results, s.pc[t].v);
    hide Next, Enabled, NoFronts, NextOut;
    RunKeepsNext(Usage(u.nulls, false), s', run, s.results, s.pc[t].v);
  }

  // ---------- null pointers break it ----------

  lemma {:induction false} ExecSnoc(u: Usage, s: State, run: seq<Step>, e: Step)
    requires Legal(u, s, run) && Enabled(u, Exec(u, s, run), e)
    ensures Legal(u, s, run + [e]) && Exec(u, s, run + [e]) == Next(u, Exec(u, s, run), e)
    decreases |run|
  {
    var all := run + [e];
    if run == [] {
      assert all[1..] == [];
    } else {
      ExecSnoc(u, Next(u, s, run[0]), run[1..], e);
      assert all[1..] == run[1..] + [e];
    }
  }

  lemma ReachStep(u: Usage, s: State, e: Step, s': State)
    requires Reachable(u, s) && Enabled(u, s, e) && Next(u, s, e) == s'
    ensures Reachable(u, s')
  {
    var s0, run :| Init(s0) && Legal(u, s0, run) && Exec(u, s0, run) == s;
    ExecSnoc(u, s0, run, e);
  }

  lemma WriteLocked(u: Usage, s: State, v: Item)
    requires Reachable(u, s) && s.pc == map[0 := Idle, 1 := Idle] && s.holder == {} && (v.Null? ==> u.nulls)
    ensures Reachable(u, s.(pc := map[0 := Writing(v, false), 1 := Idle], holder := {0}))
  {
    var s1 := s.(pc := map[0 := WantWrite(v, false), 1 := Idle]);
    ReachStep(u, s, BeginWrite(0, v, false), s1);
    ReachStep(u, s1, Acquire(0), s.(pc := map[0 := Writing(v, false), 1 := Idle], holder := {0}));
  }

  /** Thread 0 writes v and signals while nobody sleeps; the signal is lost. */
  lemma WriteUnheard(u: Usage, s: State, v: Item)
    requires Reachable(u, s) && s.pc == map[0 := Idle, 1 := Idle] && s.holder == {} && (v.Null? ==> u.nulls)
    ensures Reachable(u, s.(queue := s.queue + [v], written := s.written + [v]))
  {
    WriteLocked(u, s, v);
    var s2 := s.(pc := map[0 := Writing(v, false), 1 := Idle], holder := {0});
    var s3 := s.(pc := map[0 := Signalling, 1 := Idle], queue := s.queue + [v], written := s.written + [v]);
    ReachStep(u, s2, Act(0, false), s3);
    assert Sleepers(s3) == {};
    ReachStep(u, s3, Signal(0, {}), s.(queue := s.queue + [v], written := s.written + [v]));
  }

  /** Thread 1 takes a null for an empty queue and sleeps, with an item behind it. */
  lemma ReadPastNull(u: Usage, s: State, v: Item)
    requires Reachable(u, s) && s.pc == map[0 := Idle, 1 := Idle] && s.holder == {} && s.queue == [Null, v]
    ensures Reachable(u, s.(queue := [v], pc := map[0 := Idle, 1 := Asleep(Blocking)]))
  {
    var s1 := s.(pc := map[0 := Idle, 1 := WantRead(Blocking)]);
    ReachStep(u, s, BeginRead(1, Blocking), s1);
    var s2 := s.(pc := map[0 := Idle, 1 := Reading(Blocking, false)], holder := {1});
    ReachStep(u, s1, Acquire(1), s2);
    ReachStep(u, s2, Act(1, false), s.(queue := [v], pc := map[0 := Idle, 1 := Asleep(Blocking)]));
  }

  lemma NullLosesWakeup(u: Usage)
    requires u.nulls
    ensures exists s :: Reachable(u, s) && !NoLostWakeup(s)
  {
    var s0 := State([], {}, map[0 := Idle, 1 := Idle], [], []);
    assert Init(s0) && Legal(u, s0, []) && Exec(u, s0, []) == s0;
    WriteUnheard(u, s0, Null);
    WriteUnheard(u, s0.(queue := [Null], written := [Null]), Ptr(7));
    var s := State([Null, Ptr(7)], {}, map[0 := Idle, 1 := Idle], [Null, Ptr(7)], []);
    assert [Null] + [Ptr(7)] == [Null, Ptr(7)];
    ReadPastNull(u, s, Ptr(7));
    var z := s.(queue := [Ptr(7)], pc := map[0 := Idle, 1 := Asleep(Blocking)]);
    assert 1 in Sleepers(z);
    assert Pending(z) == {} && Roused(z) == {};
  }

  /** In every run, with timeouts and spurious wake-ups, whenever a reader is asleep the
      queued items number at most the pending signals plus the woken readers: this holds
      exactly when the callers never write a null pointer. */
  lemma NoLostWakeups(u: Usage)
    ensures (forall s :: Reachable(u, s) ==> NoLostWakeup(s)) <==> !u.nulls
  {
    if u.nulls {
      NullLosesWakeup(u);
    } else {
      forall s | Reachable(u, s) ensures NoLostWakeup(s) { ReachableInv(u, s); }
    }
  }
}
