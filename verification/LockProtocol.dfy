/** ScopedLockMultiple: a back-off protocol over three recursive mutexes.

    Any number of threads run.  A thread takes single mutexes with Mutex::lock or
    Mutex::trylock, or builds a ScopedLockMultiple over three distinct mutexes,
    telling it with an owner mask which of the three it holds already.  Every call
    of Mutex::lock, trylock and unlock made by _lockAll and _restoreState is one
    step of the model, so steps of different threads interleave between them. */
module LockProtocol {

  type Tid = nat
  type Mid = nat
  type Round = a: nat | a < 3

  /** A locked recursive mutex; a mutex that is not in the map is free. */
  datatype Lock = Lock(owner: Tid, count: nat)
  type Mutexes = map<Mid, Lock>

  datatype Pc =
    | Outside                 // running code that is not in a ScopedLockMultiple
    | FirstLock(m: Mid)       // in Mutex::lock
    | LockFirst(a: Round)     // attempt a of _lockAll: _lock(First(a))
    | TrySecond(a: Round)     //   _trylock(Second(a))
    | TryThird(a: Round)      //   _trylock(Third(a))
    | FreeSecond(a: Round)    //   _unlock(Second(a))
    | FreeFirst(a: Round)     //   _unlock(First(a))
    | Inside                  // the constructor has returned
    | Restore(i: nat)         // _restoreState, loop index i

  datatype Thread = Thread(pc: Pc, mA: seq<Mid>, ownA: seq<bool>, state: seq<bool>)
  datatype Sys = Sys(mutexes: Mutexes, threads: map<Tid, Thread>)

  datatype Act =
    | PlainLock(m: Mid)
    | TryLock(m: Mid)
    | Unlock(m: Mid)
    | Construct(mask: nat, mA: seq<Mid>)
    | Destroy
    | Advance

  datatype Step = Step(t: Tid, act: Act)

  // ---------- the order in which the three attempts of _lockAll go ----------

  function First(a: Round): nat { a }
  function Second(a: Round): nat { if a == 0 then 1 else 0 }
  function Third(a: Round): nat { if a == 2 then 1 else 2 }

  // ---------- mutexes ----------

  predicate Holds(mu: Mutexes, t: Tid, m: Mid) { m in mu && mu[m].owner == t }
  predicate CanTake(mu: Mutexes, t: Tid, m: Mid) { m in mu ==> mu[m].owner == t }

  function Take(mu: Mutexes, t: Tid, m: Mid): Mutexes
    requires CanTake(mu, t, m)
  {
    mu[m := Lock(t, if m in mu then mu[m].count + 1 else 1)]
  }

  function Drop(mu: Mutexes, m: Mid): Mutexes
    requires m in mu
  {
    if mu[m].count <= 1 then mu - {m} else mu[m := Lock(mu[m].owner, mu[m].count - 1)]
  }

  // ---------- steps ----------

  function MaskBits(mask: nat): seq<bool> { [mask % 2 == 1, mask / 2 % 2 == 1, mask / 4 % 2 == 1] }

  predicate Three(mA: seq<Mid>) { |mA| == 3 && mA[0] != mA[1] && mA[0] != mA[2] && mA[1] != mA[2] }

  /** The owner bits say exactly which mutexes the caller holds, each locked once. */
  ghost predicate HoldsExactly(mu: Mutexes, t: Tid, mA: seq<Mid>, bits: seq<bool>)
    requires |mA| == 3 && |bits| == 3
  {
    && (forall i :: 0 <= i < 3 && bits[i] ==> Holds(mu, t, mA[i]) && mu[mA[i]].count == 1)
    && (forall m :: Holds(mu, t, m) ==>
         (m == mA[0] && bits[0]) || (m == mA[1] && bits[1]) || (m == mA[2] && bits[2]))
  }

  ghost predicate HoldsNone(mu: Mutexes, t: Tid) { forall m :: m in mu ==> mu[m].owner != t }

  predicate Sized(th: Thread) {
    !th.pc.Outside? && !th.pc.FirstLock? ==> |th.mA| == 3 && |th.ownA| == 3 && |th.state| == 3
  }

  /** The mutex the next step of a thread has to lock with a blocking call, if any. */
  function Wanted(th: Thread): (r: set<Mid>)
    requires Sized(th)
  {
    match th.pc
    case FirstLock(m) => {m}
    case LockFirst(a) => if th.state[First(a)] then {} else {th.mA[First(a)]}
    case Restore(i) => if i < 3 && th.ownA[i] && !th.state[i] then {th.mA[i]} else {}
    case _ => {}
  }

  ghost predicate Enabled(masks: set<nat>, s: Sys, st: Step) {
    && st.t in s.threads
    && var th := s.threads[st.t];
       Sized(th) &&
       match st.act
       case PlainLock(m) => th.pc.Outside? && HoldsNone(s.mutexes, st.t)
       case TryLock(m) => th.pc.Outside?
       case Unlock(m) => th.pc.Outside? && Holds(s.mutexes, st.t, m)
       case Construct(mask, mA) =>
         && th.pc.Outside? && mask in masks && Three(mA)
         && HoldsExactly(s.mutexes, st.t, mA, MaskBits(mask))
       case Destroy => th.pc.Inside?
       case Advance =>
         && !th.pc.Outside? && !th.pc.Inside? && (th.pc.Restore? ==> th.pc.i <= 3)
         && (forall i :: 0 <= i < |th.state| && th.state[i] && Sized(th) && !th.pc.FirstLock? ==> th.mA[i] in s.mutexes)
         && (forall m :: m in Wanted(th) ==> CanTake(s.mutexes, st.t, m))
  }

  /** What _lock, _trylock and _unlock do to the mutexes and to state[]. */
  function LockAt(mu: Mutexes, t: Tid, th: Thread, i: nat, pc: Pc): (Mutexes, Thread)
    requires |th.mA| == 3 && |th.state| == 3 && i < 3 && (!th.state[i] ==> CanTake(mu, t, th.mA[i]))
  {
    if th.state[i] then (mu, th.(pc := pc))
    else (Take(mu, t, th.mA[i]), th.(state := th.state[i := true], pc := pc))
  }

  function TryLockAt(mu: Mutexes, t: Tid, th: Thread, i: nat, yes: Pc, no: Pc): (Mutexes, Thread)
    requires |th.mA| == 3 && |th.state| == 3 && i < 3
  {
    if th.state[i] then (mu, th.(pc := yes))
    else if CanTake(mu, t, th.mA[i]) then (Take(mu, t, th.mA[i]), th.(state := th.state[i := true], pc := yes))
    else (mu, th.(pc := no))
  }

  function UnlockAt(mu: Mutexes, th: Thread, i: nat, pc: Pc): (Mutexes, Thread)
    requires |th.mA| == 3 && |th.state| == 3 && i < 3 && (th.state[i] ==> th.mA[i] in mu)
  {
    (if th.state[i] then Drop(mu, th.mA[i]) else mu, th.(state := th.state[i := false], pc := pc))
  }

  function AdvanceThread(mu: Mutexes, t: Tid, th: Thread): (Mutexes, Thread)
    requires Sized(th) && !th.pc.Outside? && !th.pc.Inside? && (th.pc.Restore? ==> th.pc.i <= 3)
    requires forall i :: 0 <= i < |th.state| && th.state[i] && Sized(th) && !th.pc.FirstLock? ==> th.mA[i] in mu
    requires forall m :: m in Wanted(th) ==> CanTake(mu, t, m)
  {
    match th.pc
    case FirstLock(m) => (Take(mu, t, m), th.(pc := Outside))
    case LockFirst(a) => LockAt(mu, t, th, First(a), TrySecond(a))
    case TrySecond(a) => TryLockAt(mu, t, th, Second(a), TryThird(a), FreeSecond(a))
    case TryThird(a) => TryLockAt(mu, t, th, Third(a), Inside, FreeSecond(a))
    case FreeSecond(a) => UnlockAt(mu, th, Second(a), FreeFirst(a))
    case FreeFirst(a) => UnlockAt(mu, th, First(a), LockFirst((a + 1) % 3))
    case Restore(i) =>
      if i == 3 then (mu, th.(pc := Outside))
      else if !th.ownA[i] && th.state[i] then UnlockAt(mu, th, i, Restore(i + 1))
      else if th.ownA[i] && !th.state[i] then LockAt(mu, t, th, i, Restore(i + 1))
      else (mu, th.(pc := Restore(i + 1)))
  }

  ghost function NextOf(masks: set<nat>, s: Sys, st: Step): (Mutexes, Thread)
    requires Enabled(masks, s, st)
  {
    var mu, th := s.mutexes, s.threads[st.t];
    match st.act
    case PlainLock(m) => (mu, th.(pc := FirstLock(m)))
    case TryLock(m) => (if CanTake(mu, st.t, m) then Take(mu, st.t, m) else mu, th)
    case Unlock(m) => (Drop(mu, m), th)
    case Construct(mask, mA) => (mu, Thread(LockFirst(0), mA, MaskBits(mask), MaskBits(mask)))
    case Destroy => (mu, th.(pc := Restore(0)))
    case Advance => AdvanceThread(mu, st.t, th)
  }

  ghost function Next(masks: set<nat>, s: Sys, st: Step): Sys
    requires Enabled(masks, s, st)
  {
    var r := NextOf(masks, s, st);
    Sys(r.0, s.threads[st.t := r.1])
  }

  ghost predicate Init(s: Sys) {
    s.mutexes == map[] && forall t :: t in s.threads ==> s.threads[t].pc == Outside
  }

  ghost predicate Legal(masks: set<nat>, s: Sys, run: seq<Step>)
    decreases |run|
  {
    run == [] || (Enabled(masks, s, run[0]) && Legal(masks, Next(masks, s, run[0]), run[1..]))
  }

  ghost function Exec(masks: set<nat>, s: Sys, run: seq<Step>): Sys
    requires Legal(masks, s, run)
    decreases |run|
  {
    if run == [] then s else Exec(masks, Next(masks, s, run[0]), run[1..])
  }

  // ---------- waiting ----------

  /** t is really blocked: the mutex it must lock is held by u, another thread. */
  ghost predicate WaitsFor(s: Sys, t: Tid, u: Tid) {
    && t in s.threads && Sized(s.threads[t]) && u != t
    && exists m :: m in Wanted(s.threads[t]) && Holds(s.mutexes, u, m)
  }

  ghost predicate WaitCycle(s: Sys, c: seq<Tid>) {
    |c| > 0 && forall i :: 0 <= i < |c| ==> WaitsFor(s, c[i], c[if i + 1 == |c| then 0 else i + 1])
  }

  ghost predicate Deadlock(s: Sys) { exists c :: WaitCycle(s, c) }

  // ---------- the invariant ----------

  predicate GoodMask(own: seq<bool>) {
    |own| == 3 && (own[2] ==> own[1]) && (own[1] ==> own[0])
  }

  /** Which of the three mutexes the object can have locked at each point. */
  predicate Shape(pc: Pc, own: seq<bool>, state: seq<bool>)
    requires |own| == 3 && |state| == 3
  {
    match pc
    case LockFirst(a) => (!state[0] && !state[1] && !state[2]) || (a == 0 && state == own)
    case TrySecond(a) => state[First(a)] && ((!state[Second(a)] && !state[Third(a)]) || (a == 0 && state == own))
    case TryThird(a) => state[First(a)] && state[Second(a)] && (!state[Third(a)] || (a == 0 && state == own))
    case FreeSecond(a) => state[First(a)] && !state[Third(a)]
    case FreeFirst(a) => state[First(a)] && !state[Second(a)] && !state[Third(a)]
    case Inside => state[0] && state[1] && state[2]
    case Restore(i) => i <= 3 && forall j :: 0 <= j < 3 ==> state[j] == (if j < i then own[j] else true)
    case _ => true
  }

  ghost predicate ThreadOk(mu: Mutexes, t: Tid, th: Thread) {
    if th.pc.Outside? then true
    else if th.pc.FirstLock? then HoldsNone(mu, t)
    else
      && Three(th.mA) && GoodMask(th.ownA) && |th.state| == 3
      && HoldsExactly(mu, t, th.mA, th.state)
      && Shape(th.pc, th.ownA, th.state)
  }

  ghost predicate Inv(s: Sys) {
    && (forall m :: m in s.mutexes ==> s.mutexes[m].count >= 1 && s.mutexes[m].owner in s.threads)
    && (forall t :: t in s.threads ==> ThreadOk(s.mutexes, t, s.threads[t]))
  }

  ghost predicate GoodMasks(masks: set<nat>) { masks <= {0, 1, 3, 7} }

  // ---------- preservation ----------

  /** One thread's step leaves what every other thread holds as it was. */
  ghost predicate SameForOthers(mu: Mutexes, mu': Mutexes, t: Tid) {
    forall m :: (m in mu && mu[m].owner != t ==> m in mu' && mu'[m] == mu[m])
             && (m in mu' && mu'[m].owner != t ==> m in mu && mu[m] == mu'[m])
  }

  lemma OthersKeepOk(mu: Mutexes, mu': Mutexes, t: Tid, u: Tid, th: Thread)
    requires SameForOthers(mu, mu', t) && u != t && ThreadOk(mu, u, th)
    ensures ThreadOk(mu', u, th)
  {
    if !th.pc.Outside? && !th.pc.FirstLock? {
      forall m | Holds(mu', u, m) ensures Holds(mu, u, m) {}
    }
  }

  lemma TakeKeeps(mu: Mutexes, t: Tid, mA: seq<Mid>, bits: seq<bool>, i: nat)
    requires Three(mA) && |bits| == 3 && i < 3 && !bits[i]
    requires HoldsExactly(mu, t, mA, bits) && CanTake(mu, t, mA[i])
    ensures HoldsExactly(Take(mu, t, mA[i]), t, mA, bits[i := true])
    ensures SameForOthers(mu, Take(mu, t, mA[i]), t)
  {
    assert !Holds(mu, t, mA[i]);
    var mu', bits' := Take(mu, t, mA[i]), bits[i := true];
    forall j | 0 <= j < 3 && bits'[j] ensures Holds(mu', t, mA[j]) && mu'[mA[j]].count == 1 {
      if j != i { assert bits[j] && Holds(mu, t, mA[j]); }
    }
    forall m | Holds(mu', t, m) && m != mA[i] ensures Holds(mu, t, m) {}
  }

  lemma DropKeeps(mu: Mutexes, t: Tid, mA: seq<Mid>, bits: seq<bool>, i: nat)
    requires Three(mA) && |bits| == 3 && i < 3 && bits[i]
    requires HoldsExactly(mu, t, mA, bits)
    ensures mA[i] in mu
    ensures HoldsExactly(Drop(mu, mA[i]), t, mA, bits[i := false])
    ensures SameForOthers(mu, Drop(mu, mA[i]), t)
  {
    assert Holds(mu, t, mA[i]);
    var mu', bits' := Drop(mu, mA[i]), bits[i := false];
    forall j | 0 <= j < 3 && bits'[j] ensures Holds(mu', t, mA[j]) && mu'[mA[j]].count == 1 {
      assert bits[j] && Holds(mu, t, mA[j]);
    }
    forall m | Holds(mu', t, m) ensures m != mA[i] && Holds(mu, t, m) {}
  }

  ghost predicate Positive(mu: Mutexes) { forall m :: m in mu ==> mu[m].count >= 1 }

  /** state[] says exactly which of the three mutexes the thread holds. */
  ghost predicate Tracks(mu: Mutexes, t: Tid, th: Thread) {
    Positive(mu) && Three(th.mA) && |th.state| == 3 && HoldsExactly(mu, t, th.mA, th.state)
  }

  lemma LockAtKeeps(mu: Mutexes, t: Tid, th: Thread, i: nat, pc: Pc)
    requires Tracks(mu, t, th) && LockAt.requires(mu, t, th, i, pc)
    ensures var r := LockAt(mu, t, th, i, pc);
      && Tracks(r.0, t, r.1) && SameForOthers(mu, r.0, t)
      && r.1 == th.(state := th.state[i := true], pc := pc)
  {
    if th.state[i] { assert th.state[i := true] == th.state; } else { TakeKeeps(mu, t, th.mA, th.state, i); }
  }

  lemma TryLockAtKeeps(mu: Mutexes, t: Tid, th: Thread, i: nat, yes: Pc, no: Pc)
    requires Tracks(mu, t, th) && TryLockAt.requires(mu, t, th, i, yes, no)
    ensures var r := TryLockAt(mu, t, th, i, yes, no);
      && Tracks(r.0, t, r.1) && SameForOthers(mu, r.0, t)
      && (r.1 == th.(state := th.state[i := true], pc := yes) || (!th.state[i] && r.1 == th.(pc := no)))
  {
    if th.state[i] { assert th.state[i := true] == th.state; }
    else if CanTake(mu, t, th.mA[i]) { TakeKeeps(mu, t, th.mA, th.state, i); }
  }

  lemma UnlockAtKeeps(mu: Mutexes, t: Tid, th: Thread, i: nat, pc: Pc)
    requires Tracks(mu, t, th) && UnlockAt.requires(mu, th, i, pc)
    ensures var r := UnlockAt(mu, th, i, pc);
      && Tracks(r.0, t, r.1) && SameForOthers(mu, r.0, t)
      && r.1 == th.(state := th.state[i := false], pc := pc)
  {
    if th.state[i] { DropKeeps(mu, t, th.mA, th.state, i); } else { assert th.state[i := false] == th.state; }
  }

  /** The attempts of _lockAll, seen only through owner bits and state[]. */
  lemma ShapeOfAttempt(own: seq<bool>, state: seq<bool>, a: Round)
    requires GoodMask(own) && |state| == 3
    ensures Shape(LockFirst(a), own, state) ==> Shape(TrySecond(a), own, state[First(a) := true])
    ensures Shape(TrySecond(a), own, state) ==>
      Shape(TryThird(a), own, state[Second(a) := true]) && (!state[Second(a)] ==> Shape(FreeSecond(a), own, state))
    ensures Shape(TryThird(a), own, state) ==>
      Shape(Inside, own, state[Third(a) := true]) && (!state[Third(a)] ==> Shape(FreeSecond(a), own, state))
    ensures Shape(FreeSecond(a), own, state) ==> Shape(FreeFirst(a), own, state[Second(a) := false])
    ensures Shape(FreeFirst(a), own, state) ==> Shape(LockFirst((a + 1) % 3), own, state[First(a) := false])
  {
    if state == own { assert state[First(a) := true] == own || !own[First(a)]; }
    if state == own { assert state[Second(a) := true] == own || !own[Second(a)]; }
  }

  lemma AttemptKeeps(mu: Mutexes, t: Tid, th: Thread, a: Round)
    requires th.pc == LockFirst(a) || th.pc == TrySecond(a) || th.pc == TryThird(a) || th.pc == FreeSecond(a) || th.pc == FreeFirst(a)
    requires Tracks(mu, t, th) && GoodMask(th.ownA) && Shape(th.pc, th.ownA, th.state)
    requires AdvanceThread.requires(mu, t, th)
    ensures var r := AdvanceThread(mu, t, th);
      && Tracks(r.0, t, r.1) && SameForOthers(mu, r.0, t)
      && r.1.ownA == th.ownA && !r.1.pc.Outside? && !r.1.pc.FirstLock? && Shape(r.1.pc, r.1.ownA, r.1.state)
  {
    ShapeOfAttempt(th.ownA, th.state, a);
    match th.pc
    case LockFirst(_) =>
      assert !th.state[First(a)] ==> th.mA[First(a)] in Wanted(th);
      LockAtKeeps(mu, t, th, First(a), TrySecond(a));
    case TrySecond(_) => TryLockAtKeeps(mu, t, th, Second(a), TryThird(a), FreeSecond(a));
    case TryThird(_) => TryLockAtKeeps(mu, t, th, Third(a), Inside, FreeSecond(a));
    case FreeSecond(_) => UnlockAtKeeps(mu, t, th, Second(a), FreeFirst(a));
    case FreeFirst(_) => UnlockAtKeeps(mu, t, th, First(a), LockFirst((a + 1) % 3));
  }

  lemma AdvanceKeeps(mu: Mutexes, t: Tid, th: Thread)
    requires Positive(mu) && ThreadOk(mu, t, th) && AdvanceThread.requires(mu, t, th)
    ensures var r := AdvanceThread(mu, t, th);
      Positive(r.0) && ThreadOk(r.0, t, r.1) && SameForOthers(mu, r.0, t)
  {
    if th.pc.FirstLock? {
      assert th.pc.m in Wanted(th) && CanTake(mu, t, th.pc.m);
      assert th.pc.m !in mu;
    } else if th.pc.Restore? {
      var i := th.pc.i;
      if i < 3 && !th.ownA[i] { UnlockAtKeeps(mu, t, th, i, Restore(i + 1)); }
    } else {
      AttemptKeeps(mu, t, th, th.pc.a);
    }
  }

  lemma ActorKeepsOk(masks: set<nat>, s: Sys, st: Step)
    requires GoodMasks(masks) && Inv(s) && Enabled(masks, s, st)
    ensures var r := NextOf(masks, s, st);
      Positive(r.0) && ThreadOk(r.0, st.t, r.1) && SameForOthers(s.mutexes, r.0, st.t)
  {
    if st.act.Advance? {
      AdvanceKeeps(s.mutexes, st.t, s.threads[st.t]);
    } else if st.act.Construct? {
      assert st.act.mask in {0, 1, 3, 7};
    } else if st.act.Destroy? {
      assert ThreadOk(s.mutexes, st.t, s.threads[st.t]);
    }
  }

  lemma StepKeepsInv(masks: set<nat>, s: Sys, st: Step)
    requires GoodMasks(masks) && Inv(s) && Enabled(masks, s, st)
    ensures Inv(Next(masks, s, st))
  {
    var mu, th := s.mutexes, s.threads[st.t];
    var r := NextOf(masks, s, st);
    assert ThreadOk(mu, st.t, th);
    ActorKeepsOk(masks, s, st);
    forall u | u in s.threads && u != st.t ensures ThreadOk(r.0, u, s.threads[u]) {
      OthersKeepOk(mu, r.0, st.t, u, s.threads[u]);
    }
  }

  // ---------- what the protocol guarantees ----------

  ghost predicate Reachable(masks: set<nat>, s: Sys) {
    exists s0, run :: Init(s0) && Legal(masks, s0, run) && Exec(masks, s0, run) == s
  }

  lemma {:induction false} RunKeepsInv(masks: set<nat>, s: Sys, run: seq<Step>)
    requires GoodMasks(masks) && Inv(s) && Legal(masks, s, run)
    ensures Inv(Exec(masks, s, run))
    decreases |run|
  {
    if run != [] {
      StepKeepsInv(masks, s, run[0]);
      RunKeepsInv(masks, Next(masks, s, run[0]), run[1..]);
    }
  }

  lemma ReachableInv(masks: set<nat>, s: Sys)
    requires GoodMasks(masks) && Reachable(masks, s)
    ensures Inv(s)
  {
    var s0, run :| Init(s0) && Legal(masks, s0, run) && Exec(masks, s0, run) == s;
    RunKeepsInv(masks, s0, run);
  }

  /** A thread that is really blocked holds no mutex at all. */
  lemma BlockedHoldsNothing(masks: set<nat>, s: Sys, t: Tid, u: Tid)
    requires GoodMasks(masks) && Reachable(masks, s) && WaitsFor(s, t, u)
    ensures HoldsNone(s.mutexes, t)
  {
    ReachableInv(masks, s);
    var th := s.threads[t];
    assert ThreadOk(s.mutexes, t, th);
    if th.pc.LockFirst? { assert !th.state[0] && !th.state[1] && !th.state[2]; }
    forall m | m in s.mutexes ensures s.mutexes[m].owner != t {
      assert Holds(s.mutexes, t, m) ==> !th.pc.FirstLock?;
    }
  }

  /** The thread a blocked thread waits for is itself not waiting, so it can go on. */
  lemma HolderIsNotBlocked(masks: set<nat>, s: Sys, t: Tid, u: Tid, w: Tid)
    requires GoodMasks(masks) && Reachable(masks, s) && WaitsFor(s, t, u)
    ensures u in s.threads && !WaitsFor(s, u, w)
  {
    ReachableInv(masks, s);
    var m :| m in Wanted(s.threads[t]) && Holds(s.mutexes, u, m);
    if WaitsFor(s, u, w) { BlockedHoldsNothing(masks, s, u, w); }
  }

  lemma NoDeadlock(masks: set<nat>, s: Sys)
    requires GoodMasks(masks) && Reachable(masks, s)
    ensures !Deadlock(s)
  {
    if Deadlock(s) {
      var c :| WaitCycle(s, c);
      var j := if |c| == 1 then 0 else 1;
      var k := if j + 1 == |c| then 0 else j + 1;
      assert WaitsFor(s, c[0], c[j]) && WaitsFor(s, c[j], c[k]);
      HolderIsNotBlocked(masks, s, c[0], c[j], c[k]);
    }
  }

  /** Inside _lockAll, _restoreState or Mutex::lock a thread can take its next step
      unless another thread holds the mutex it needs. */
  lemma BlockedOnlyByHolder(masks: set<nat>, s: Sys, t: Tid)
    requires GoodMasks(masks) && Reachable(masks, s) && t in s.threads
    requires !s.threads[t].pc.Outside? && !s.threads[t].pc.Inside?
    ensures Enabled(masks, s, Step(t, Advance)) <==> forall u :: !WaitsFor(s, t, u)
  {
    ReachableInv(masks, s);
    var th := s.threads[t];
    assert ThreadOk(s.mutexes, t, th);
    if !th.pc.FirstLock? {
      forall i | 0 <= i < 3 && th.state[i] ensures th.mA[i] in s.mutexes { assert Holds(s.mutexes, t, th.mA[i]); }
    }
    if m :| m in Wanted(th) && !CanTake(s.mutexes, t, m) {
      assert Holds(s.mutexes, s.mutexes[m].owner, m);
      assert WaitsFor(s, t, s.mutexes[m].owner);
    }
  }

  // ---------- one ScopedLockMultiple from constructor to destructor ----------

  /** t is inside the object built with these arguments, or has just left its destructor. */
  ghost predicate InScope(s: Sys, t: Tid, mask: nat, mA: seq<Mid>) {
    && t in s.threads && Three(mA)
    && var th := s.threads[t];
       !th.pc.FirstLock?
       && if th.pc.Outside? then HoldsExactly(s.mutexes, t, mA, MaskBits(mask))
          else th.mA == mA && th.ownA == MaskBits(mask)
  }

  lemma StepKeepsScope(masks: set<nat>, s: Sys, st: Step, t: Tid, mask: nat, mA: seq<Mid>)
    requires GoodMasks(masks) && Inv(s) && Enabled(masks, s, st) && InScope(s, t, mask, mA)
    requires st.t == t ==> st.act.Advance? || st.act.Destroy?
    ensures InScope(Next(masks, s, st), t, mask, mA)
  {
    ActorKeepsOk(masks, s, st);
    var r := NextOf(masks, s, st);
    var th := s.threads[t];
    if st.t == t {
      assert ThreadOk(s.mutexes, t, th);
      if th.pc == Restore(3) { assert th.state == th.ownA; }
    } else if th.pc.Outside? {
      forall m | Holds(r.0, t, m) ensures Holds(s.mutexes, t, m) {}
    }
  }

  lemma {:induction false} RunKeepsScope(masks: set<nat>, s: Sys, run: seq<Step>, t: Tid, mask: nat, mA: seq<Mid>)
    requires GoodMasks(masks) && Inv(s) && Legal(masks, s, run) && InScope(s, t, mask, mA)
    requires forall i :: 0 <= i < |run| && run[i].t == t ==> run[i].act.Advance? || run[i].act.Destroy?
    ensures Inv(Exec(masks, s, run)) && InScope(Exec(masks, s, run), t, mask, mA)
    decreases |run|
  {
    if run != [] {
      StepKeepsInv(masks, s, run[0]);
      StepKeepsScope(masks, s, run[0], t, mask, mA);
      RunKeepsScope(masks, Next(masks, s, run[0]), run[1..], t, mask, mA);
    }
  }

  lemma InsideHasAll(th: Thread)
    requires th.pc.Inside? && |th.ownA| == 3 && |th.state| == 3 && Shape(th.pc, th.ownA, th.state)
    ensures th.state == [true, true, true]
  {
  }

  /** From the constructor call on, whatever the other threads do meanwhile: once the
      constructor has returned the thread holds all three mutexes, each once; once the
      destructor has returned it holds exactly the mutexes it held before the call. */
  lemma ScopedLifetime(masks: set<nat>, s: Sys, run: seq<Step>, t: Tid, mask: nat, mA: seq<Mid>)
    requires GoodMasks(masks) && Reachable(masks, s) && Enabled(masks, s, Step(t, Construct(mask, mA)))
    requires Legal(masks, Next(masks, s, Step(t, Construct(mask, mA))), run)
    requires forall i :: 0 <= i < |run| && run[i].t == t ==> run[i].act.Advance? || run[i].act.Destroy?
    ensures var e := Exec(masks, Next(masks, s, Step(t, Construct(mask, mA))), run);
      && t in e.threads
      && (e.threads[t].pc.Inside? ==> HoldsExactly(e.mutexes, t, mA, [true, true, true]))
      && (e.threads[t].pc.Outside? ==>
           forall m :: Holds(e.mutexes, t, m) <==> Holds(s.mutexes, t, m))
      && (e.threads[t].pc.Outside? ==>
           forall m :: Holds(e.mutexes, t, m) ==> e.mutexes[m].count == 1)
  {
    hide Exec, Legal, Reachable, Shape, AdvanceThread;
    ReachableInv(masks, s);
    var st := Step(t, Construct(mask, mA));
    StepKeepsInv(masks, s, st);
    var s1 := Next(masks, s, st);
    RunKeepsScope(masks, s1, run, t, mask, mA);
    var e := Exec(masks, s1, run);
    if e.threads[t].pc.Inside? {
      assert ThreadOk(e.mutexes, t, e.threads[t]);
      InsideHasAll(e.threads[t]);
    }
  }

  // ---------- what single calls do ----------

  /** Mutex::lock waits exactly while another thread holds the mutex, and then takes it. */
  lemma PlainLockTakes(masks: set<nat>, s: Sys, t: Tid)
    requires t in s.threads && s.threads[t].pc.FirstLock?
    ensures var m := s.threads[t].pc.m;
      && (Enabled(masks, s, Step(t, Advance)) <==> !HeldByOther(s, t, m))
      && (Enabled(masks, s, Step(t, Advance)) ==>
           var e := Next(masks, s, Step(t, Advance)); e.threads[t].pc == Outside && Holds(e.mutexes, t, m))
  {
    CanTakeUnlessHeld(s, t, s.threads[t].pc.m);
    assert s.threads[t].pc.m in Wanted(s.threads[t]);
  }

  /** Mutex::trylock takes the mutex unless another thread holds it. */
  lemma PlainTryTakes(masks: set<nat>, s: Sys, t: Tid, m: Mid)
    requires Enabled(masks, s, Step(t, TryLock(m)))
    ensures var e := Next(masks, s, Step(t, TryLock(m)));
      && (Holds(e.mutexes, t, m) <==> !HeldByOther(s, t, m)) && e.threads == s.threads
      && (!HeldByOther(s, t, m) ==> e.mutexes[m].count == 1 + if m in s.mutexes then s.mutexes[m].count else 0)
  {
    CanTakeUnlessHeld(s, t, m);
    assert s.threads[t := s.threads[t]] == s.threads;
  }

  /** Mutex::unlock takes one lock off; the mutex is free after the last. */
  lemma PlainUnlockFrees(masks: set<nat>, s: Sys, t: Tid, m: Mid)
    requires Enabled(masks, s, Step(t, Unlock(m))) && s.mutexes[m].count >= 1
    ensures var e := Next(masks, s, Step(t, Unlock(m)));
      && (m in e.mutexes <==> s.mutexes[m].count > 1)
      && (m in e.mutexes ==> e.mutexes[m] == Lock(t, s.mutexes[m].count - 1))
      && e.mutexes - {m} == s.mutexes - {m}
  {
  }

  // ---------- what an attempt gets ----------

  /** The mutexes in the order in which each of the three attempts goes for them. */
  const ORDERS: seq<seq<nat>> := [[0, 1, 2], [1, 0, 2], [2, 0, 1]]

  ghost predicate HeldByOther(s: Sys, t: Tid, m: Mid) { exists u :: u != t && Holds(s.mutexes, u, m) }

  /** No mutex comes to another thread or from it. */
  ghost predicate OthersHoldSame(s: Sys, e: Sys, t: Tid) {
    && (forall u, m :: u != t ==> (Holds(s.mutexes, u, m) <==> Holds(e.mutexes, u, m)))
    && forall u :: u in s.threads && u != t ==> u in e.threads && e.threads[u] == s.threads[u]
  }

  function Advances(t: Tid, n: nat): (run: seq<Step>) { seq(n, _ => Step(t, Advance)) }

  lemma StateOfThread(masks: set<nat>, s: Sys, t: Tid)
    requires GoodMasks(masks) && Reachable(masks, s) && t in s.threads
    ensures Inv(s) && ThreadOk(s.mutexes, t, s.threads[t])
  {
    ReachableInv(masks, s);
  }

  lemma CanTakeUnlessHeld(s: Sys, t: Tid, m: Mid)
    ensures CanTake(s.mutexes, t, m) <==> !HeldByOther(s, t, m)
  {
    if m in s.mutexes && s.mutexes[m].owner != t { assert Holds(s.mutexes, s.mutexes[m].owner, m); }
  }

  lemma StepIsMine(masks: set<nat>, s: Sys, st: Step)
    requires GoodMasks(masks) && Inv(s) && Enabled(masks, s, st)
    ensures OthersHoldSame(s, Next(masks, s, st), st.t)
  {
    hide NextOf, Enabled;
    ActorKeepsOk(masks, s, st);
  }

  /** The first call of an attempt takes its mutex as soon as no other thread holds it. */
  lemma FirstTaken(masks: set<nat>, s: Sys, t: Tid)
    requires GoodMasks(masks) && Reachable(masks, s) && t in s.threads && s.threads[t].pc.LockFirst?
    ensures |s.threads[t].mA| == 3
    ensures var th := s.threads[t]; var m := th.mA[ORDERS[th.pc.a][0]];
      && (Enabled(masks, s, Step(t, Advance)) <==> !HeldByOther(s, t, m))
      && (Enabled(masks, s, Step(t, Advance)) ==>
           var e := Next(masks, s, Step(t, Advance));
           e.threads[t].pc == TrySecond(th.pc.a) && Holds(e.mutexes, t, m) && OthersHoldSame(s, e, t)
           && e.threads[t].mA == th.mA)
  {
    StateOfThread(masks, s, t);
    var th := s.threads[t];
    CanTakeUnlessHeld(s, t, th.mA[th.pc.a]);
    forall i | 0 <= i < 3 && th.state[i] ensures th.mA[i] in s.mutexes { assert Holds(s.mutexes, t, th.mA[i]); }
    if th.state[th.pc.a] { assert Holds(s.mutexes, t, th.mA[th.pc.a]); }
    if Enabled(masks, s, Step(t, Advance)) {
      StepIsMine(masks, s, Step(t, Advance));
      if !th.state[th.pc.a] { assert th.mA[th.pc.a] in Wanted(th); }
    }
  }

  /** The mutex that the next trylock of an attempt is for. */
  function Tried(th: Thread): (m: Mid)
    requires (th.pc.TrySecond? || th.pc.TryThird?) && |th.mA| == 3
  {
    th.mA[ORDERS[th.pc.a][if th.pc.TrySecond? then 1 else 2]]
  }

  /** A trylock never waits, and the thread holds the mutex behind it if and only if no other
      thread held it; then the attempt goes on, and else it gives up. */
  lemma TryTakesFree(masks: set<nat>, s: Sys, t: Tid)
    requires GoodMasks(masks) && Reachable(masks, s) && t in s.threads
    requires s.threads[t].pc.TrySecond? || s.threads[t].pc.TryThird?
    ensures |s.threads[t].mA| == 3 && Enabled(masks, s, Step(t, Advance))
    ensures var th, e := s.threads[t], Next(masks, s, Step(t, Advance)); var m := Tried(th);
      && (Holds(e.mutexes, t, m) <==> !HeldByOther(s, t, m))
      && e.threads[t].pc == (if HeldByOther(s, t, m) then FreeSecond(th.pc.a)
                             else if th.pc.TrySecond? then TryThird(th.pc.a) else Inside)
      && OthersHoldSame(s, e, t) && e.threads[t].mA == th.mA
      && (forall k :: k != m ==> (Holds(e.mutexes, t, k) <==> Holds(s.mutexes, t, k)))
  {
    StateOfThread(masks, s, t);
    var th := s.threads[t];
    var m := Tried(th);
    CanTakeUnlessHeld(s, t, m);
    NeverWaits(masks, s, t);
    hide Reachable, Inv, HoldsExactly;
    assert Holds(s.mutexes, t, m) <==> th.state[ORDERS[th.pc.a][if th.pc.TrySecond? then 1 else 2]] by { StateIsHeld(masks, s, t); }
    StepIsMine(masks, s, Step(t, Advance));
  }

  lemma StateIsHeld(masks: set<nat>, s: Sys, t: Tid)
    requires GoodMasks(masks) && Reachable(masks, s) && t in s.threads
    requires !s.threads[t].pc.Outside? && !s.threads[t].pc.FirstLock?
    ensures var th := s.threads[t];
      && |th.mA| == |th.state| == 3 && (forall i :: 0 <= i < 3 ==> (Holds(s.mutexes, t, th.mA[i]) <==> th.state[i]))
      && forall m :: Holds(s.mutexes, t, m) ==> m in th.mA
  {
    StateOfThread(masks, s, t);
  }

  /** Neither a trylock nor an unlock waits. */
  lemma NeverWaits(masks: set<nat>, s: Sys, t: Tid)
    requires GoodMasks(masks) && Reachable(masks, s) && t in s.threads
    requires var pc := s.threads[t].pc; pc.TrySecond? || pc.TryThird? || pc.FreeSecond? || pc.FreeFirst?
    ensures Enabled(masks, s, Step(t, Advance))
  {
    StateOfThread(masks, s, t);
    var th := s.threads[t];
    forall i | 0 <= i < 3 && th.state[i] ensures th.mA[i] in s.mutexes { assert Holds(s.mutexes, t, th.mA[i]); }
  }

  /** An attempt that gives up frees what it has in two steps, neither of which waits, and the
      next attempt begins with nothing held. */
  lemma GivesUp(masks: set<nat>, s: Sys, t: Tid)
    requires GoodMasks(masks) && Reachable(masks, s) && t in s.threads && s.threads[t].pc.FreeSecond?
    ensures Legal(masks, s, Advances(t, 2))
    ensures var th, e := s.threads[t], Exec(masks, s, Advances(t, 2));
      && t in e.threads && e.threads[t].pc == LockFirst(if th.pc.a == 2 then 0 else th.pc.a + 1) && e.threads[t].mA == th.mA
      && (forall m :: !Holds(e.mutexes, t, m)) && OthersHoldSame(s, e, t)
  {
    var st := Step(t, Advance);
    var e1 := Freed(masks, s, t);
    var e2 := Freed(masks, e1, t);
    OthersTwice(s, e1, e2, t);
    hide *;
    RunOfNone(masks, e2);
    RunOfMore(masks, e1, st, []);
    RunOfMore(masks, s, st, [st]);
    assert [st] + [] == [st] && Advances(t, 2) == [st] + [st] by { AdvancesAre(t); }
  }

  lemma OthersTwice(s: Sys, e1: Sys, e2: Sys, t: Tid)
    requires OthersHoldSame(s, e1, t) && OthersHoldSame(e1, e2, t)
    ensures OthersHoldSame(s, e2, t)
  {
  }

  lemma AdvancesAre(t: Tid)
    ensures var st := Step(t, Advance);
      Advances(t, 2) == [st] + [st] && Advances(t, 3) == [st] + ([st] + [st])
      && Advances(t, 4) == [st] + ([st] + ([st] + [st]))
  {
  }

  lemma Freed(masks: set<nat>, s: Sys, t: Tid) returns (e: Sys)
    requires GoodMasks(masks) && Reachable(masks, s) && t in s.threads
    requires s.threads[t].pc.FreeSecond? || s.threads[t].pc.FreeFirst?
    ensures Enabled(masks, s, Step(t, Advance)) && e == Next(masks, s, Step(t, Advance)) && Reachable(masks, e)
    ensures t in e.threads && OthersHoldSame(s, e, t) && e.threads[t].mA == s.threads[t].mA
    ensures var pc := s.threads[t].pc;
      e.threads[t].pc == if pc.FreeSecond? then FreeFirst(pc.a) else LockFirst(if pc.a == 2 then 0 else pc.a + 1)
    ensures s.threads[t].pc.FreeFirst? ==> forall m :: !Holds(e.mutexes, t, m)
  {
    StateOfThread(masks, s, t);
    NeverWaits(masks, s, t);
    e := Next(masks, s, Step(t, Advance));
    ReachStep(masks, s, Step(t, Advance));
    hide Reachable;
    StepIsMine(masks, s, Step(t, Advance));
    assert s.threads[t].pc.FreeFirst? ==> e.threads[t].state == [false, false, false];
    StateIsHeld(masks, e, t);
    hide *;
  }

  lemma RunOfNone(masks: set<nat>, s: Sys)
    ensures Legal(masks, s, []) && Exec(masks, s, []) == s
  {
  }

  lemma RunOfMore(masks: set<nat>, s: Sys, a: Step, run: seq<Step>)
    requires Enabled(masks, s, a) && Legal(masks, Next(masks, s, a), run)
    ensures Legal(masks, s, [a] + run) && Exec(masks, s, [a] + run) == Exec(masks, Next(masks, s, a), run)
  {
    hide Enabled, Next;
    assert ([a] + run)[1..] == run;
  }

  /** One step of an attempt to which no other thread stands in the way. */
  lemma AttemptGoesOn(masks: set<nat>, s: Sys, t: Tid, mA: seq<Mid>) returns (e: Sys)
    requires GoodMasks(masks) && Reachable(masks, s) && t in s.threads && s.threads[t].mA == mA
    requires s.threads[t].pc.LockFirst? || s.threads[t].pc.TrySecond? || s.threads[t].pc.TryThird?
    requires |mA| == 3 && Unheld(s, t, mA)
    ensures Enabled(masks, s, Step(t, Advance)) && e == Next(masks, s, Step(t, Advance)) && Reachable(masks, e)
    ensures t in e.threads && OthersHoldSame(s, e, t) && Unheld(e, t, mA) && e.threads[t].mA == mA
    ensures var pc := s.threads[t].pc;
      e.threads[t].pc == match pc case LockFirst(a) => TrySecond(a) case TrySecond(a) => TryThird(a) case _ => Inside
  {
    var st := Step(t, Advance);
    if s.threads[t].pc.LockFirst? { FirstTaken(masks, s, t); } else { TryTakesFree(masks, s, t); }
    e := Next(masks, s, st);
    ReachStep(masks, s, st);
    FreeStays(s, e, t, mA);
  }

  /** No other thread holds one of the three. */
  ghost predicate Unheld(s: Sys, t: Tid, mA: seq<Mid>)
    requires |mA| == 3
  {
    forall i :: 0 <= i < 3 ==> !HeldByOther(s, t, mA[i])
  }

  lemma InsideHolds(masks: set<nat>, s: Sys, t: Tid)
    requires GoodMasks(masks) && Reachable(masks, s) && t in s.threads && s.threads[t].pc.Inside?
    ensures |s.threads[t].mA| == |s.threads[t].ownA| == 3
    ensures HoldsExactly(s.mutexes, t, s.threads[t].mA, [true, true, true])
  {
    StateOfThread(masks, s, t);
    InsideHasAll(s.threads[t]);
  }

  /** An attempt, of whatever order, to which no other thread stands in the way gets all three
      mutexes in three steps: the constructor returns. */
  lemma UncontendedAttempt(masks: set<nat>, s: Sys, t: Tid)
    requires GoodMasks(masks) && Reachable(masks, s) && t in s.threads && s.threads[t].pc.LockFirst?
    requires |s.threads[t].mA| == 3 && Unheld(s, t, s.threads[t].mA)
    ensures Legal(masks, s, Advances(t, 3))
    ensures var e := Exec(masks, s, Advances(t, 3));
      && t in e.threads && e.threads[t].pc.Inside? && OthersHoldSame(s, e, t)
      && HoldsExactly(e.mutexes, t, s.threads[t].mA, [true, true, true])
  {
    hide *;
    var st, mA := Step(t, Advance), s.threads[t].mA;
    var s1 := AttemptGoesOn(masks, s, t, mA);
    var s2 := AttemptGoesOn(masks, s1, t, mA);
    var e := AttemptGoesOn(masks, s2, t, mA);
    OthersTwice(s, s1, s2, t);
    OthersTwice(s, s2, e, t);
    InsideHolds(masks, e, t);
    RunOfNone(masks, e);
    RunOfMore(masks, s2, st, []);
    assert [st] + [] == [st];
    RunOfMore(masks, s1, st, [st]);
    RunOfMore(masks, s, st, [st] + [st]);
    AdvancesAre(t);
  }

  lemma FreeStays(s: Sys, e: Sys, t: Tid, mA: seq<Mid>)
    requires OthersHoldSame(s, e, t) && |mA| == 3 && Unheld(s, t, mA)
    ensures Unheld(e, t, mA)
  {
  }

  /** The destructor returns after its four tests of the loop, without waiting, with what the
      caller held before. */
  lemma DestructorReturns(masks: set<nat>, s: Sys, t: Tid)
    requires GoodMasks(masks) && Reachable(masks, s) && t in s.threads && s.threads[t].pc.Inside?
    ensures |s.threads[t].mA| == |s.threads[t].ownA| == 3
    ensures Legal(masks, s, [Step(t, Destroy)] + Advances(t, 4))
    ensures var e := Exec(masks, s, [Step(t, Destroy)] + Advances(t, 4));
      && t in e.threads && e.threads[t].pc.Outside? && OthersHoldSame(s, e, t)
      && HoldsExactly(e.mutexes, t, s.threads[t].mA, s.threads[t].ownA)
  {
    hide *;
    var st := Step(t, Advance);
    InsideHolds(masks, s, t);
    var s0 := Destroyed(masks, s, t);
    var s1 := Restored(masks, s0, t);
    var s2 := Restored(masks, s1, t);
    var s3 := Restored(masks, s2, t);
    var e := Restored(masks, s3, t);
    OthersTwice(s, s0, s1, t);
    OthersTwice(s, s1, s2, t);
    OthersTwice(s, s2, s3, t);
    OthersTwice(s, s3, e, t);
    RunOfNone(masks, e);
    RunOfMore(masks, s3, st, []);
    assert [st] + [] == [st];
    RunOfMore(masks, s2, st, [st]);
    RunOfMore(masks, s1, st, [st] + [st]);
    RunOfMore(masks, s0, st, [st] + ([st] + [st]));
    RunOfMore(masks, s, Step(t, Destroy), [st] + ([st] + ([st] + [st])));
    AdvancesAre(t);
  }

  lemma Destroyed(masks: set<nat>, s: Sys, t: Tid) returns (e: Sys)
    requires GoodMasks(masks) && Reachable(masks, s) && t in s.threads && s.threads[t].pc.Inside?
    ensures Enabled(masks, s, Step(t, Destroy)) && e == Next(masks, s, Step(t, Destroy)) && Reachable(masks, e)
    ensures t in e.threads && OthersHoldSame(s, e, t) && e.threads[t].pc == Restore(0)
    ensures e.threads[t].mA == s.threads[t].mA && e.threads[t].ownA == s.threads[t].ownA
  {
    StateOfThread(masks, s, t);
    e := Next(masks, s, Step(t, Destroy));
    ReachStep(masks, s, Step(t, Destroy));
    StepIsMine(masks, s, Step(t, Destroy));
  }

  lemma Restored(masks: set<nat>, s: Sys, t: Tid) returns (e: Sys)
    requires GoodMasks(masks) && Reachable(masks, s) && t in s.threads
    requires s.threads[t].pc.Restore? && s.threads[t].pc.i <= 3
    ensures Enabled(masks, s, Step(t, Advance)) && e == Next(masks, s, Step(t, Advance)) && Reachable(masks, e)
    ensures t in e.threads && OthersHoldSame(s, e, t)
    ensures e.threads[t].mA == s.threads[t].mA && e.threads[t].ownA == s.threads[t].ownA
    ensures var i := s.threads[t].pc.i; e.threads[t].pc == if i == 3 then Outside else Restore(i + 1)
    ensures |s.threads[t].mA| == |s.threads[t].ownA| == 3
    ensures s.threads[t].pc.i == 3 ==> HoldsExactly(e.mutexes, t, s.threads[t].mA, s.threads[t].ownA)
  {
    StateOfThread(masks, s, t);
    var th := s.threads[t];
    forall i | 0 <= i < 3 && th.state[i] ensures th.mA[i] in s.mutexes { assert Holds(s.mutexes, t, th.mA[i]); }
    if th.pc.i == 3 { assert th.state == th.ownA; }
    e := Next(masks, s, Step(t, Advance));
    ReachStep(masks, s, Step(t, Advance));
    StepIsMine(masks, s, Step(t, Advance));
  }

  // ---------- the owner masks that are not safe ----------

  lemma {:induction false} ExecSnoc(masks: set<nat>, s: Sys, run: seq<Step>, st: Step)
    requires Legal(masks, s, run) && Enabled(masks, Exec(masks, s, run), st)
    ensures Legal(masks, s, run + [st])
    ensures Exec(masks, s, run + [st]) == Next(masks, Exec(masks, s, run), st)
    decreases |run|
  {
    var all := run + [st];
    if run == [] {
      assert all[1..] == [];
    } else {
      ExecSnoc(masks, Next(masks, s, run[0]), run[1..], st);
      assert all[1..] == run[1..] + [st];
    }
  }

  lemma ReachStep(masks: set<nat>, s: Sys, st: Step)
    requires Reachable(masks, s) && Enabled(masks, s, st)
    ensures Reachable(masks, Next(masks, s, st))
  {
    var s0, run :| Init(s0) && Legal(masks, s0, run) && Exec(masks, s0, run) == s;
    ExecSnoc(masks, s0, run, st);
  }

  function Idle(): Thread { Thread(Outside, [], [], []) }

  /** Two idle threads can each have taken some free mutexes with trylock. */
  ghost function Taken(zero: set<Mid>, one: set<Mid>): Sys {
    Sys(map m | m in zero + one :: Lock(if m in zero then 0 else 1, 1), map[0 := Idle(), 1 := Idle()])
  }

  lemma TakenStep(masks: set<nat>, zero: set<Mid>, one: set<Mid>, t: Tid, m: Mid)
    requires Reachable(masks, Taken(zero, one)) && m !in zero && m !in one && zero !! one && t in {0, 1}
    ensures Reachable(masks, if t == 0 then Taken(zero + {m}, one) else Taken(zero, one + {m}))
  {
    var s, st := Taken(zero, one), Step(t, TryLock(m));
    TakenNext(masks, zero, one, t, m);
    hide *;
    ReachStep(masks, s, st);
  }

  lemma TakenNext(masks: set<nat>, zero: set<Mid>, one: set<Mid>, t: Tid, m: Mid)
    requires m !in zero && m !in one && zero !! one && t in {0, 1}
    ensures var s, st := Taken(zero, one), Step(t, TryLock(m));
      Enabled(masks, s, st)
      && Next(masks, s, st) == if t == 0 then Taken(zero + {m}, one) else Taken(zero, one + {m})
  {
    var s, st := Taken(zero, one), Step(t, TryLock(m));
    var mu := Next(masks, s, st).mutexes;
    if t == 0 {
      assert mu == Taken(zero + {m}, one).mutexes;
    } else {
      assert mu == Taken(zero, one + {m}).mutexes;
    }
    assert s.threads[t := s.threads[t]] == s.threads;
  }

  lemma TakenReachable(masks: set<nat>)
    ensures Reachable(masks, Taken({0}, {1}))
    ensures Reachable(masks, Taken({0, 2}, {1, 3}))
  {
    var s := Taken({}, {});
    assert Init(s) && Legal(masks, s, []) && Exec(masks, s, []) == s;
    TakenStep(masks, {}, {}, 0, 0);
    TakenStep(masks, {} + {0}, {}, 1, 1);
    assert {} + {0} == {0} && {} + {1} == {1};
    TakenStep(masks, {0}, {1}, 0, 2);
    TakenStep(masks, {0} + {2}, {1}, 1, 3);
    assert {0} + {2} == {0, 2} && {1} + {3} == {1, 3};
  }

  ghost function Constructed(zero: set<Mid>, one: set<Mid>, bits: seq<bool>, a0: seq<Mid>, a1: seq<Mid>): Sys {
    Sys(Taken(zero, one).mutexes,
        map[0 := Thread(LockFirst(0), a0, bits, bits), 1 := Thread(LockFirst(0), a1, bits, bits)])
  }

  /** Both threads, holding just what their owner bits say, call the constructor. */
  lemma ConstructBoth(masks: set<nat>, k: nat, zero: set<Mid>, one: set<Mid>, a0: seq<Mid>, a1: seq<Mid>)
    requires k in masks && Reachable(masks, Taken(zero, one)) && Three(a0) && Three(a1)
    requires HoldsExactly(Taken(zero, one).mutexes, 0, a0, MaskBits(k))
    requires HoldsExactly(Taken(zero, one).mutexes, 1, a1, MaskBits(k))
    ensures Reachable(masks, Constructed(zero, one, MaskBits(k), a0, a1))
  {
    var s := Taken(zero, one);
    var bits := MaskBits(k);
    var th0, th1 := Thread(LockFirst(0), a0, bits, bits), Thread(LockFirst(0), a1, bits, bits);
    assert s.threads[0 := th0][1 := th1] == map[0 := th0, 1 := th1];
    assert s.threads == map[0 := Idle(), 1 := Idle()];
    hide Reachable, HoldsExactly, MaskBits, Taken;
    ConstructOne(masks, s, 0, k, a0);
    ConstructOne(masks, Sys(s.mutexes, s.threads[0 := th0]), 1, k, a1);
  }

  lemma ConstructOne(masks: set<nat>, s: Sys, t: Tid, k: nat, a: seq<Mid>)
    requires k in masks && Reachable(masks, s) && Three(a) && t in s.threads && s.threads[t].pc.Outside?
    requires HoldsExactly(s.mutexes, t, a, MaskBits(k))
    ensures Reachable(masks, Sys(s.mutexes, s.threads[t := Thread(LockFirst(0), a, MaskBits(k), MaskBits(k))]))
  {
    hide Reachable, HoldsExactly, MaskBits;
    ReachStep(masks, s, Step(t, Construct(k, a)));
  }

  lemma TwoWaiting(s: Sys, m0: Mid, m1: Mid)
    requires 0 in s.threads && 1 in s.threads && Sized(s.threads[0]) && Sized(s.threads[1])
    requires m0 in Wanted(s.threads[0]) && Holds(s.mutexes, 1, m0)
    requires m1 in Wanted(s.threads[1]) && Holds(s.mutexes, 0, m1)
    ensures Deadlock(s)
  {
    assert WaitsFor(s, 0, 1) && WaitsFor(s, 1, 0);
    assert WaitCycle(s, [0, 1]);
  }

  /** Masks 2, 4 and 6 do not own the first mutex, so _lock(0) blocks while holding others. */
  lemma BlocksOnFirst(masks: set<nat>, k: nat, zero: set<Mid>, one: set<Mid>, a0: seq<Mid>, a1: seq<Mid>)
    requires k in masks && k % 2 == 0 && Three(a0) && Three(a1)
    requires Reachable(masks, Taken(zero, one)) && zero !! one && a0[0] in one && a1[0] in zero
    requires HoldsExactly(Taken(zero, one).mutexes, 0, a0, MaskBits(k))
    requires HoldsExactly(Taken(zero, one).mutexes, 1, a1, MaskBits(k))
    ensures exists s :: Reachable(masks, s) && Deadlock(s)
  {
    ConstructBoth(masks, k, zero, one, a0, a1);
    TwoWaiting(Constructed(zero, one, MaskBits(k), a0, a1), a0[0], a1[0]);
  }

  lemma Mask2Blocks(masks: set<nat>)
    requires 2 in masks
    ensures exists s :: Reachable(masks, s) && Deadlock(s)
  {
    TakenReachable(masks);
    BlocksOnFirst(masks, 2, {0}, {1}, [1, 0, 4], [0, 1, 4]);
  }

  lemma Mask4Blocks(masks: set<nat>)
    requires 4 in masks
    ensures exists s :: Reachable(masks, s) && Deadlock(s)
  {
    TakenReachable(masks);
    BlocksOnFirst(masks, 4, {0}, {1}, [1, 4, 0], [0, 4, 1]);
  }

  lemma Mask6Blocks(masks: set<nat>)
    requires 6 in masks
    ensures exists s :: Reachable(masks, s) && Deadlock(s)
  {
    TakenReachable(masks);
    BlocksOnFirst(masks, 6, {0, 2}, {1, 3}, [1, 0, 2], [0, 1, 3]);
  }

  lemma AdvanceTo(masks: set<nat>, s: Sys, t: Tid, mu: Mutexes, th: Thread)
    requires Reachable(masks, s) && Enabled(masks, s, Step(t, Advance))
    requires AdvanceThread(s.mutexes, t, s.threads[t]) == (mu, th)
    ensures Reachable(masks, Sys(mu, s.threads[t := th]))
  {
    ReachStep(masks, s, Step(t, Advance));
  }

  ghost predicate Mask5At(masks: set<nat>, s: Sys, t: Tid, pc: Pc, a: seq<Mid>) {
    && Reachable(masks, s) && t in s.threads && Three(a)
    && s.threads[t] == Thread(pc, a, [true, false, true], [true, false, true])
    && a[0] in s.mutexes && s.mutexes[a[0]] == Lock(t, 1) && a[2] in s.mutexes
  }

  lemma FailTry(masks: set<nat>, s: Sys, t: Tid, a: seq<Mid>)
    requires Mask5At(masks, s, t, LockFirst(0), a)
    requires a[1] in s.mutexes && s.mutexes[a[1]].owner != t
    ensures Mask5At(masks, Sys(s.mutexes, s.threads[t := s.threads[t].(pc := FreeSecond(0))]), t, FreeSecond(0), a)
  {
    var th1, th2 := s.threads[t].(pc := TrySecond(0)), s.threads[t].(pc := FreeSecond(0));
    AdvanceTo(masks, s, t, s.mutexes, th1);
    var s1 := Sys(s.mutexes, s.threads[t := th1]);
    AdvanceTo(masks, s1, t, s.mutexes, th2);
    assert s1.threads[t := th2] == s.threads[t := th2];
  }

  lemma GiveUp(masks: set<nat>, s: Sys, t: Tid, a: seq<Mid>)
    requires Mask5At(masks, s, t, FreeSecond(0), a)
    ensures Reachable(masks, Sys(s.mutexes - {a[0]},
              s.threads[t := Thread(LockFirst(1), a, [true, false, true], [false, false, true])]))
  {
    var own := [true, false, true];
    var th1, th2 := s.threads[t].(pc := FreeFirst(0)), Thread(LockFirst(1), a, own, [false, false, true]);
    assert own[1 := false] == own && own[0 := false] == [false, false, true];
    AdvanceTo(masks, s, t, s.mutexes, th1);
    var s1 := Sys(s.mutexes, s.threads[t := th1]);
    AdvanceTo(masks, s1, t, s.mutexes - {a[0]}, th2);
    assert s1.threads[t := th2] == s.threads[t := th2];
  }

  /** With mask 5 the first attempt fails on the second mutex and gives up the first only. */
  lemma FailFirstAttempt(masks: set<nat>, s: Sys, t: Tid, a: seq<Mid>)
    requires Mask5At(masks, s, t, LockFirst(0), a)
    requires a[1] in s.mutexes && s.mutexes[a[1]].owner != t
    ensures Reachable(masks, Sys(s.mutexes - {a[0]},
              s.threads[t := Thread(LockFirst(1), a, [true, false, true], [false, false, true])]))
  {
    FailTry(masks, s, t, a);
    var s1 := Sys(s.mutexes, s.threads[t := s.threads[t].(pc := FreeSecond(0))]);
    GiveUp(masks, s1, t, a);
    var th := Thread(LockFirst(1), a, [true, false, true], [false, false, true]);
    assert s1.threads[t := th] == s.threads[t := th];
  }

  /** Mask 5 gives up its first mutex and then blocks on the second, still holding the third. */
  lemma Mask5Blocks(masks: set<nat>)
    requires 5 in masks
    ensures exists s :: Reachable(masks, s) && Deadlock(s)
  {
    Mask5Gets(masks);
    hide Reachable;
    TwoWaiting(Mask5Stuck(), 3, 2);
  }

  /** Threads 0 and 1 at the start of a round of attempts, with mask 5. */
  ghost function Mask5Sys(mu: Mutexes, pc0: Pc, state0: seq<bool>, pc1: Pc, state1: seq<bool>): Sys {
    var own := [true, false, true];
    Sys(mu, map[0 := Thread(pc0, [0, 3, 2], own, state0), 1 := Thread(pc1, [1, 2, 3], own, state1)])
  }

  /** Each holds its first and its third mutex. */
  ghost function Mask5Start(): Sys {
    var own := [true, false, true];
    Mask5Sys(map[0 := Lock(0, 1), 2 := Lock(0, 1), 1 := Lock(1, 1), 3 := Lock(1, 1)], LockFirst(0), own, LockFirst(0), own)
  }

  /** Thread 0 has given up its first mutex. */
  ghost function Mask5Half(): Sys {
    var own, third := [true, false, true], [false, false, true];
    Mask5Sys(map[2 := Lock(0, 1), 1 := Lock(1, 1), 3 := Lock(1, 1)], LockFirst(1), third, LockFirst(0), own)
  }

  /** Both have, and hold their third. */
  ghost function Mask5Stuck(): Sys {
    var third := [false, false, true];
    Mask5Sys(map[2 := Lock(0, 1), 3 := Lock(1, 1)], LockFirst(1), third, LockFirst(1), third)
  }

  lemma Mask5Begins(masks: set<nat>)
    requires 5 in masks
    ensures Reachable(masks, Mask5Start())
  {
    TakenReachable(masks);
    hide Reachable;
    var mu := Taken({0, 2}, {1, 3}).mutexes;
    assert mu == Mask5Start().mutexes;
    ConstructBoth(masks, 5, {0, 2}, {1, 3}, [0, 3, 2], [1, 2, 3]);
  }

  lemma Mask5Gets(masks: set<nat>)
    requires 5 in masks
    ensures Reachable(masks, Mask5Stuck())
  {
    Mask5Begins(masks);
    hide Reachable;
    FailFirstAttempt(masks, Mask5Start(), 0, [0, 3, 2]);
    assert Mask5Start().mutexes - {0} == Mask5Half().mutexes;
    var th := Thread(LockFirst(1), [0, 3, 2], [true, false, true], [false, false, true]);
    assert Mask5Start().threads[0 := th] == Mask5Half().threads;
    Mask5Rest(masks);
  }

  lemma Mask5Rest(masks: set<nat>)
    requires Reachable(masks, Mask5Half())
    ensures Reachable(masks, Mask5Stuck())
  {
    hide Reachable;
    FailFirstAttempt(masks, Mask5Half(), 1, [1, 2, 3]);
    assert Mask5Half().mutexes - {1} == Mask5Stuck().mutexes;
    var th := Thread(LockFirst(1), [1, 2, 3], [true, false, true], [false, false, true]);
    assert Mask5Half().threads[1 := th] == Mask5Stuck().threads;
  }

  /** Exactly the owner masks 0, 1, 3 and 7 are safe: with them no reachable state of any
      number of threads has a cycle of waiting threads; with any other mask two threads
      can reach one. */
  lemma SafeMasks(masks: set<nat>)
    requires forall k :: k in masks ==> k < 8
    ensures (forall s :: Reachable(masks, s) ==> !Deadlock(s)) <==> masks <= {0, 1, 3, 7}
  {
    if masks <= {0, 1, 3, 7} {
      forall s | Reachable(masks, s) ensures !Deadlock(s) { NoDeadlock(masks, s); }
    } else {
      var k :| k in masks && k !in {0, 1, 3, 7};
      if k == 2 { Mask2Blocks(masks); } else if k == 4 { Mask4Blocks(masks); }
      else if k == 5 { Mask5Blocks(masks); } else { Mask6Blocks(masks); }
    }
  }
}
