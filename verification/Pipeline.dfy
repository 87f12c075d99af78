/** The smqueue pipeline: readers push raw messages, and the acker takes them with separately
    locked front and pop, and pushes those that validate to a queue of its own. */
module Pipeline {

  /** Messages a, a+1, ..., b-1, where message k is the k-th one pushed by any reader. */
  function Range(a: nat, b: nat): (r: seq<nat>)
    requires a <= b
    ensures |r| == b - a && forall i :: 0 <= i < |r| ==> r[i] == a + i
  {
    seq(b - a, i requires 0 <= i => a + i)
  }

  /** The messages with result code 0, in order. */
  function Valid<T>(validate: T -> nat, s: seq<T>): seq<T> {
    if s == [] then []
    else Valid(validate, s[..|s| - 1]) + if validate(s[|s| - 1]) == 0 then [s[|s| - 1]] else []
  }

  // ---------- the objects, used by one thread ----------

  class SmqThreadSafeQueue<T> {
    var m_queue: seq<T>

    constructor ()
      ensures m_queue == []
    {
      m_queue := [];
    }

    method Push(item: T)
      modifies this
      ensures m_queue == old(m_queue) + [item]
    {
      m_queue := m_queue + [item];
    }

    /** Returns once the queue is not empty. */
    method Front() returns (item: T)
      requires m_queue != []
      ensures item == m_queue[0]
    {
      item := m_queue[0];
    }

    method Pop()
      requires m_queue != []
      modifies this
      ensures m_queue == old(m_queue)[1..]
    {
      m_queue := m_queue[1..];
    }

    function Count(): nat
      reads this
    {
      |m_queue|
    }
  }

  class SmqAcker<T> {
    const m_reader: SmqThreadSafeQueue<T>
    const m_tsq: SmqThreadSafeQueue<T>
    const validate: T -> nat

    constructor (reader: SmqThreadSafeQueue<T>, validate: T -> nat)
      ensures m_reader == reader && this.validate == validate && fresh(m_tsq) && m_tsq.m_queue == []
    {
      m_reader := reader;
      m_tsq := new SmqThreadSafeQueue();
      this.validate := validate;
    }

    method ProcessMessage()
      requires m_reader != m_tsq && m_reader.m_queue != []
      modifies m_reader, m_tsq
      ensures m_reader.m_queue == old(m_reader.m_queue)[1..]
      ensures m_tsq.m_queue == old(m_tsq.m_queue) + Valid(validate, old(m_reader.m_queue)[..1])
    {
      var rmsg := m_reader.Front();
      m_reader.Pop();
      assert old(m_reader.m_queue)[..1] == [] + [rmsg] && [rmsg][..0] == [];
      if validate(rmsg) == 0 { m_tsq.Push(rmsg); }
    }

    /** The thread's loop until the reader's queue is empty: all of it is handled, in order. */
    method Drain()
      requires m_reader != m_tsq
      modifies m_reader, m_tsq
      ensures m_reader.m_queue == [] && m_tsq.m_queue == old(m_tsq.m_queue) + Valid(validate, old(m_reader.m_queue))
    {
      ghost var all, n := m_reader.m_queue, 0;
      assert all[0..] == all;
      while m_reader.Count() != 0
        invariant n <= |all| && m_reader.m_queue == all[n..]
        invariant m_tsq.m_queue == old(m_tsq.m_queue) + Valid(validate, all[..n])
        decreases |all| - n
      {
        ValidSplit(validate, all[..n], m_reader.m_queue[..1]);
        assert all[..n] + m_reader.m_queue[..1] == all[..n + 1];
        ProcessMessage();
        n := n + 1;
      }
      assert all[..n] == all;
    }
  }

  lemma {:induction false} ValidSplit<T>(validate: T -> nat, a: seq<T>, b: seq<T>)
    ensures Valid(validate, a + b) == Valid(validate, a) + Valid(validate, b)
    decreases |b|
  {
    if b == [] {
      assert a + b == a;
    } else {
      assert (a + b)[..|a + b| - 1] == a + b[..|b| - 1];
      ValidSplit(validate, a, b[..|b| - 1]);
    }
  }

  // ---------- threads ----------

  /** A consuming thread: between messages, past the check of queue_count, with the reference
      that front returned to the item at a place, counted from the first one ever pushed, with
      its copy of the message, and with it after pop. */
  datatype Phase = Idle | Seen | Ref(place: nat) | Got(message: nat) | Have(message: nat)

  /** popped lists what pop removed; accepted what reached the second queue.  wrongPop says that
      pop removed another message than the one read, emptyPop that it met an empty queue, and
      dangling that a message was copied from an item no longer in the queue.  A push leaves
      references into the queue good; what a dangling one gives is anything, here 0. */
  datatype State = State(
    queue: seq<nat>, pushed: nat, consumers: seq<Phase>,
    popped: seq<nat>, handled: seq<nat>, accepted: seq<nat>, wrongPop: bool, emptyPop: bool,
    dangling: bool)

  datatype Step =
    | Push                  // by any reader
    | Check(i: nat)         // queue_count() != 0, read without the lock
    | Front(i: nat)         // returns a reference and releases the lock
    | Copy(i: nat)          // reads through the reference, without the lock
    | Pop(i: nat)
    | Finish(i: nat)        // validate, and push when the code is 0

  predicate Enabled(s: State, a: Step) {
    match a
    case Push => true
    case Check(i) => i < |s.consumers| && s.consumers[i].Idle? && s.queue != []
    case Front(i) => i < |s.consumers| && s.consumers[i].Seen? && s.queue != []
    case Copy(i) => i < |s.consumers| && s.consumers[i].Ref?
    case Pop(i) => i < |s.consumers| && s.consumers[i].Got?
    case Finish(i) => i < |s.consumers| && s.consumers[i].Have?
  }

  function Next(s: State, a: Step, validate: nat -> nat): State
    requires Enabled(s, a)
  {
    match a
    case Push => s.(queue := s.queue + [s.pushed], pushed := s.pushed + 1)
    case Check(i) => s.(consumers := s.consumers[i := Seen])
    case Front(i) => s.(consumers := s.consumers[i := Ref(|s.popped|)])
    case Copy(i) =>
      var at := s.consumers[i].place - |s.popped|;
      if 0 <= at < |s.queue| then s.(consumers := s.consumers[i := Got(s.queue[at])])
      else s.(consumers := s.consumers[i := Got(0)], dangling := true)
    case Pop(i) =>
      var m := s.consumers[i].message;
      var s' := s.(consumers := s.consumers[i := Have(m)]);
      if s.queue == [] then s'.(emptyPop := true)
      else s'.(queue := s.queue[1..], popped := s.popped + [s.queue[0]], wrongPop := s.wrongPop || s.queue[0] != m)
    case Finish(i) =>
      var m := s.consumers[i].message;
      s.(consumers := s.consumers[i := Idle], handled := s.handled + [m],
         accepted := if validate(m) == 0 then s.accepted + [m] else s.accepted)
  }

  function Start(n: nat): State {
    State([], 0, seq(n, _ => Idle), [], [], [], false, false, false)
  }

  predicate IsRun(s: State, run: seq<Step>, validate: nat -> nat)
    decreases |run|
  {
    run != [] ==> Enabled(s, run[0]) && IsRun(Next(s, run[0], validate), run[1..], validate)
  }

  function After(s: State, run: seq<Step>, validate: nat -> nat): State
    requires IsRun(s, run, validate)
    decreases |run|
  {
    if run == [] then s else After(Next(s, run[0], validate), run[1..], validate)
  }

  /** Every message was read while in the queue, and its pop removed it; messages are handled at most once and in
      arrival order, none is missing, and the second queue got exactly the valid ones. */
  ghost predicate Delivered(s: State, validate: nat -> nat) {
    && !s.wrongPop && !s.emptyPop && !s.dangling
    && s.popped + s.queue == Range(0, s.pushed)
    && s.handled <= s.popped
    && s.accepted == Valid(validate, s.handled)
  }

  // ---------- one consumer ----------

  /** What a single consumer's phase says about the queues. */
  ghost predicate OneOk(s: State, validate: nat -> nat) {
    && Delivered(s, validate) && |s.consumers| <= 1
    && (s.consumers == [] ==> s.handled == s.popped)
    && (s.consumers != [] ==>
        match s.consumers[0]
        case Idle => s.handled == s.popped
        case Seen => s.handled == s.popped && s.queue != []
        case Ref(place) => s.handled == s.popped && s.queue != [] && place == |s.popped|
        case Got(m) => s.handled == s.popped && s.queue != [] && s.queue[0] == m
        case Have(m) => s.popped == s.handled + [m])
  }

  lemma RangeSnoc(a: nat, b: nat)
    requires a <= b
    ensures Range(a, b + 1) == Range(a, b) + [b]
  {
  }

  lemma ValidSnoc(validate: nat -> nat, s: seq<nat>, m: nat)
    ensures Valid(validate, s + [m]) == Valid(validate, s) + if validate(m) == 0 then [m] else []
  {
    assert (s + [m])[..|s|] == s;
  }

  lemma StepKeepsOne(s: State, a: Step, validate: nat -> nat)
    requires OneOk(s, validate) && Enabled(s, a)
    ensures OneOk(Next(s, a, validate), validate)
  {
    hide Range, Valid;
    match a
    case Push =>
      RangeSnoc(0, s.pushed);
      assert s.popped + (s.queue + [s.pushed]) == s.popped + s.queue + [s.pushed];
    case Pop(_) => assert s.popped + [s.queue[0]] + s.queue[1..] == s.popped + s.queue;
    case Finish(_) => ValidSnoc(validate, s.handled, s.consumers[0].message);
    case _ =>
  }

  lemma {:induction false} RunKeepsOne(s: State, run: seq<Step>, validate: nat -> nat)
    requires OneOk(s, validate) && IsRun(s, run, validate)
    ensures OneOk(After(s, run, validate), validate)
    decreases |run|
  {
    if run != [] {
      hide OneOk, Next, Enabled;
      StepKeepsOne(s, run[0], validate);
      RunKeepsOne(Next(s, run[0], validate), run[1..], validate);
    }
  }

  /** The five steps of a single consumer handle the first message, and take no other. */
  lemma OneRound(s: State, validate: nat -> nat)
    requires OneOk(s, validate) && s.consumers == [Idle] && s.queue != []
    ensures var run := [Check(0), Front(0), Copy(0), Pop(0), Finish(0)];
      && IsRun(s, run, validate)
      && var e := After(s, run, validate);
         && e.queue == s.queue[1..] && e.consumers == [Idle] && e.handled == s.handled + [s.queue[0]]
         && e.accepted == s.accepted + if validate(s.queue[0]) == 0 then [s.queue[0]] else []
  {
    hide Range, Valid;
    var run := [Check(0), Front(0), Copy(0), Pop(0), Finish(0)];
    var s1 := Next(s, Check(0), validate);
    var s2 := Next(s1, Front(0), validate);
    var s3 := Next(s2, Copy(0), validate);
    var s4 := Next(s3, Pop(0), validate);
    var e := Next(s4, Finish(0), validate);
    assert run[1..] == [Front(0), Copy(0), Pop(0), Finish(0)] && run[1..][1..] == [Copy(0), Pop(0), Finish(0)];
    assert [Copy(0), Pop(0), Finish(0)][1..] == [Pop(0), Finish(0)] && [Pop(0), Finish(0)][1..] == [Finish(0)];
    assert [Finish(0)][1..] == [] && After(e, [], validate) == e;
    assert IsRun(s4, [Finish(0)], validate) && After(s4, [Finish(0)], validate) == e;
    assert IsRun(s3, [Pop(0), Finish(0)], validate) && After(s3, [Pop(0), Finish(0)], validate) == e;
    assert IsRun(s2, [Copy(0), Pop(0), Finish(0)], validate) && After(s2, [Copy(0), Pop(0), Finish(0)], validate) == e;
    assert IsRun(s1, run[1..], validate) && After(s1, run[1..], validate) == e;
  }

  // ---------- more consumers ----------

  lemma {:induction false} RunSnoc(s: State, run: seq<Step>, a: Step, validate: nat -> nat)
    requires IsRun(s, run, validate) && Enabled(After(s, run, validate), a)
    ensures IsRun(s, run + [a], validate) && After(s, run + [a], validate) == Next(After(s, run, validate), a, validate)
    decreases |run|
  {
    hide Enabled, Next;
    if run == [] {
      assert [] + [a] == [a] && [a][1..] == [];
    } else {
      RunSnoc(Next(s, run[0], validate), run[1..], a, validate);
      assert (run + [a])[1..] == run[1..] + [a];
    }
  }

  /** A state that some run leads to. */
  ghost predicate Reachable(n: nat, validate: nat -> nat, s: State) {
    exists run :: IsRun(Start(n), run, validate) && After(Start(n), run, validate) == s
  }

  lemma ReachStep(n: nat, validate: nat -> nat, s: State, a: Step)
    requires Reachable(n, validate, s) && Enabled(s, a)
    ensures Reachable(n, validate, Next(s, a, validate))
  {
    var run :| IsRun(Start(n), run, validate) && After(Start(n), run, validate) == s;
    RunSnoc(Start(n), run, a, validate);
    assert IsRun(Start(n), run + [a], validate);
  }

  lemma StartReachable(n: nat, validate: nat -> nat)
    ensures Reachable(n, validate, Start(n))
  {
    assert IsRun(Start(n), [], validate);
  }

  /** Two consumers with references to the only message. */
  lemma TwoReferences(n: nat, validate: nat -> nat) returns (s: State)
    requires n >= 2
    ensures Reachable(n, validate, s) && s.queue == [0] && s.popped == [] && |s.consumers| == n
    ensures s.consumers[0] == s.consumers[1] == Ref(0)
  {
    hide Reachable;
    StartReachable(n, validate);
    var s1 := Next(Start(n), Push, validate);
    ReachStep(n, validate, Start(n), Push);
    var s2 := Next(s1, Check(0), validate);
    ReachStep(n, validate, s1, Check(0));
    var s3 := Next(s2, Check(1), validate);
    ReachStep(n, validate, s2, Check(1));
    var s4 := Next(s3, Front(0), validate);
    ReachStep(n, validate, s3, Front(0));
    s := Next(s4, Front(1), validate);
    ReachStep(n, validate, s4, Front(1));
  }

  /** Two consumers both read the only message, and the second pop meets an empty queue. */
  lemma TwoConsumersClash(n: nat, validate: nat -> nat)
    requires n >= 2
    ensures exists s :: Reachable(n, validate, s) && s.emptyPop
  {
    hide Reachable;
    var s := TwoReferences(n, validate);
    var s1 := Next(s, Copy(0), validate);
    ReachStep(n, validate, s, Copy(0));
    var s2 := Next(s1, Copy(1), validate);
    ReachStep(n, validate, s1, Copy(1));
    var s3 := Next(s2, Pop(0), validate);
    ReachStep(n, validate, s2, Pop(0));
    var s4 := Next(s3, Pop(1), validate);
    ReachStep(n, validate, s3, Pop(1));
    assert s4.emptyPop;
  }

  /** One of two consumers copies the message after the other has popped it. */
  lemma TwoConsumersDangle(n: nat, validate: nat -> nat)
    requires n >= 2
    ensures exists s :: Reachable(n, validate, s) && s.dangling
  {
    hide Reachable;
    var s := TwoReferences(n, validate);
    var s1 := Next(s, Copy(0), validate);
    ReachStep(n, validate, s, Copy(0));
    var s2 := Next(s1, Pop(0), validate);
    ReachStep(n, validate, s1, Pop(0));
    var s3 := Next(s2, Copy(1), validate);
    ReachStep(n, validate, s2, Copy(1));
    assert s3.dangling;
  }

  /** With readers pushing at any time, delivery is right in every run exactly when at most
      one thread consumes the queue. */
  lemma DeliveredIffOneConsumer(n: nat, validate: nat -> nat)
    ensures (forall s :: Reachable(n, validate, s) ==> Delivered(s, validate)) <==> n <= 1
  {
    if n <= 1 {
      forall s | Reachable(n, validate, s) ensures Delivered(s, validate) {
        var run :| IsRun(Start(n), run, validate) && After(Start(n), run, validate) == s;
        assert OneOk(Start(n), validate) by { assert [] + [] == Range(0, 0); }
        RunKeepsOne(Start(n), run, validate);
      }
    } else {
      TwoConsumersClash(n, validate);
      var s :| Reachable(n, validate, s) && s.emptyPop;
      assert !Delivered(s, validate);
    }
  }
}
