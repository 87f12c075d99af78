/** The reporting counters: increments gather in a batch, which committers move to the
    database in two phases, a copy under the lock and one update per row after it. */
module Reporting {
  import opened Wrappers

  type Name = string
  type Counts = map<Name, nat>

  function At(m: Counts, name: Name): nat { if name in m then m[name] else 0 }

  // ---------- the object, used by one thread ----------

  class ReportingTable {
    var mBatch: Counts
    var rows: Counts            // the REPORTING table

    constructor (rows: Counts)
      ensures mBatch == map[] && this.rows == rows
    {
      mBatch, this.rows := map[], rows;
    }

    method Create(paramName: Name)
      modifies this
      ensures paramName in mBatch && paramName in rows
      ensures forall name :: At(mBatch, name) == old(At(mBatch, name)) && At(rows, name) == old(At(rows, name))
      ensures mBatch.Keys == old(mBatch.Keys) + {paramName} && rows.Keys == old(rows.Keys) + {paramName}
    {
      if paramName !in mBatch { mBatch := mBatch[paramName := 0]; }
      if paramName !in rows { rows := rows[paramName := 0]; }
    }

    method Incr(paramName: Name)
      modifies `mBatch
      ensures forall name :: At(mBatch, name) == old(At(mBatch, name)) + if name == paramName then 1 else 0
    {
      mBatch := mBatch[paramName := At(mBatch, paramName) + 1];
    }

    /** The locked loop of commit: every count above zero is taken out of the batch. */
    method TakeOut() returns (outstanding: Counts)
      modifies `mBatch
      ensures forall name :: At(outstanding, name) == old(At(mBatch, name)) && At(mBatch, name) == 0
      ensures mBatch.Keys == old(mBatch.Keys)
    {
      outstanding := map[];
      var todo := mBatch.Keys;
      while todo != {}
        invariant todo <= mBatch.Keys == old(mBatch.Keys)
        invariant forall name :: At(outstanding, name) == if name in todo then 0 else old(At(mBatch, name))
        invariant forall name :: At(mBatch, name) == if name in todo then old(At(mBatch, name)) else 0
        decreases |todo|
      {
        var name :| name in todo;
        if mBatch[name] > 0 {
          outstanding := outstanding[name := mBatch[name]];
          mBatch := mBatch[name := 0];
        }
        todo := todo - {name};
      }
    }

    /** commit: each row gains its batched count; a count without a row is dropped. */
    method Commit()
      modifies this
      ensures forall name :: At(mBatch, name) == 0
      ensures forall name :: At(rows, name) == old(At(rows, name)) + if name in old(rows) then old(At(mBatch, name)) else 0
      ensures mBatch.Keys == old(mBatch.Keys) && rows.Keys == old(rows.Keys)
    {
      var outstanding := TakeOut();
      var todo := outstanding.Keys;
      ghost var batch := mBatch;
      while todo != {}
        invariant todo <= outstanding.Keys && rows.Keys == old(rows.Keys) && mBatch == batch
        invariant forall name ::
          At(rows, name) == old(At(rows, name)) + if name in rows && name !in todo then At(outstanding, name) else 0
        decreases |todo|
      {
        var name :| name in todo;
        if name in rows { rows := rows[name := rows[name] + outstanding[name]]; }
        todo := todo - {name};
      }
    }
  }

  // ---------- threads ----------

  /** A committing thread: between commits, in the locked loop with the names it has still to
      look at, or in the loop of updates with those it has still to write. */
  datatype Phase =
    | Idle
    | Copying(todo: set<Name>, outstanding: Counts)
    | Writing(outstanding: Counts)

  function Taken(p: Phase, name: Name): nat { if p.Idle? then 0 else At(p.outstanding, name) }

  /** holder is the committer that holds mLock; the other critical sections are one step
      each.  lost counts what was written to a row that does not exist. */
  datatype State = State(
    rows: Counts, batch: Counts, holder: Option<nat>, committers: seq<Phase>, increments: Counts, lost: Counts)

  datatype Step =
    | Incr(name: Name)
    | CreateInBatch(name: Name)       // the locked part of create
    | CreateRow(name: Name)           // INSERT OR IGNORE
    | Lock(i: nat)
    | CopyOne(i: nat, name: Name)
    | Unlock(i: nat)
    | WriteOne(i: nat, name: Name)    // UPDATE ... VALUE=VALUE+n
    | Finish(i: nat)

  predicate Enabled(s: State, a: Step) {
    match a
    case Incr(_) => s.holder.None?
    case CreateInBatch(_) => s.holder.None?
    case CreateRow(_) => true
    case Lock(i) => i < |s.committers| && s.committers[i].Idle? && s.holder.None?
    case CopyOne(i, name) => i < |s.committers| && s.committers[i].Copying? && name in s.committers[i].todo
    case Unlock(i) => i < |s.committers| && s.committers[i].Copying? && s.committers[i].todo == {}
    case WriteOne(i, name) => i < |s.committers| && s.committers[i].Writing? && name in s.committers[i].outstanding
    case Finish(i) => i < |s.committers| && s.committers[i].Writing? && s.committers[i].outstanding == map[]
  }

  function Add(m: Counts, name: Name, n: nat): Counts { m[name := At(m, name) + n] }

  /** The locked loop at one name: a count above zero is taken out. */
  function CopyPhase(p: Phase, batch: Counts, name: Name): Phase
    requires p.Copying?
  {
    Copying(p.todo - {name}, if At(batch, name) > 0 then p.outstanding[name := At(batch, name)] else p.outstanding)
  }

  function Next(s: State, a: Step): State
    requires Enabled(s, a)
  {
    match a
    case Incr(name) => s.(batch := Add(s.batch, name, 1), increments := Add(s.increments, name, 1))
    case CreateInBatch(name) => s.(batch := Add(s.batch, name, 0))
    case CreateRow(name) => s.(rows := Add(s.rows, name, 0))
    case Lock(i) => s.(holder := Some(i), committers := s.committers[i := Copying(s.batch.Keys, map[])])
    case CopyOne(i, name) =>
      s.(committers := s.committers[i := CopyPhase(s.committers[i], s.batch, name)],
         batch := if At(s.batch, name) > 0 then s.batch[name := 0] else s.batch)
    case Unlock(i) => s.(holder := None, committers := s.committers[i := Writing(s.committers[i].outstanding)])
    case WriteOne(i, name) =>
      var n := s.committers[i].outstanding[name];
      s.(committers := s.committers[i := Writing(s.committers[i].outstanding - {name})],
         rows := if name in s.rows then Add(s.rows, name, n) else s.rows,
         lost := if name in s.rows then s.lost else Add(s.lost, name, n))
    case Finish(i) => s.(committers := s.committers[i := Idle])
  }

  function Start(rows: Counts, n: nat): State {
    State(rows, map[], None, seq(n, _ => Idle), map[], map[])
  }

  predicate IsRun(s: State, run: seq<Step>)
    decreases |run|
  {
    run != [] ==> Enabled(s, run[0]) && IsRun(Next(s, run[0]), run[1..])
  }

  function After(s: State, run: seq<Step>): State
    requires IsRun(s, run)
    decreases |run|
  {
    if run == [] then s else After(Next(s, run[0]), run[1..])
  }

  // ---------- what is taken but not yet written ----------

  function InFlight(c: seq<Phase>, name: Name): nat {
    if c == [] then 0 else Taken(c[0], name) + InFlight(c[1..], name)
  }

  lemma {:induction false} InFlightUpdate(c: seq<Phase>, i: nat, p: Phase, name: Name)
    requires i < |c|
    ensures InFlight(c[i := p], name) + Taken(c[i], name) == InFlight(c, name) + Taken(p, name)
  {
    if i == 0 {
      assert c[0 := p][1..] == c[1..];
    } else {
      InFlightUpdate(c[1..], i - 1, p, name);
      assert c[i := p][1..] == c[1..][i - 1 := p];
    }
  }

  lemma {:induction false} IdleTakesNothing(c: seq<Phase>, name: Name)
    requires forall i :: 0 <= i < |c| ==> c[i].Idle?
    ensures InFlight(c, name) == 0
  {
    if c != [] { IdleTakesNothing(c[1..], name); }
  }

  /** The books: a committer in the locked loop holds the lock, and has not yet taken what it
      has still to look at; every increment is somewhere. */
  ghost predicate Exclusive(s: State) {
    && (forall i :: 0 <= i < |s.committers| ==> (s.committers[i].Copying? <==> s.holder == Some(i)))
    && forall i :: 0 <= i < |s.committers| && s.committers[i].Copying? ==>
         s.committers[i].todo !! s.committers[i].outstanding.Keys
  }

  predicate Balanced(s: State, first: Counts, name: Name) {
    At(s.rows, name) + InFlight(s.committers, name) + At(s.batch, name) + At(s.lost, name)
    == At(first, name) + At(s.increments, name)
  }

  lemma StepKeepsExclusive(s: State, a: Step)
    requires Exclusive(s) && Enabled(s, a)
    ensures Exclusive(Next(s, a))
  {
  }

  lemma CopyKeepsBalance(s: State, i: nat, c: Name, first: Counts, name: Name)
    requires Exclusive(s) && Enabled(s, CopyOne(i, c)) && Balanced(s, first, name)
    ensures Balanced(Next(s, CopyOne(i, c)), first, name)
  {
    var p := s.committers[i];
    assert c !in p.outstanding;
    hide InFlight, Exclusive;
    InFlightUpdate(s.committers, i, CopyPhase(p, s.batch, c), name);
  }

  lemma WriteKeepsBalance(s: State, i: nat, c: Name, first: Counts, name: Name)
    requires Enabled(s, WriteOne(i, c)) && Balanced(s, first, name)
    ensures Balanced(Next(s, WriteOne(i, c)), first, name)
  {
    var p := s.committers[i];
    hide InFlight, Taken, At, Next;
    InFlightUpdate(s.committers, i, Writing(p.outstanding - {c}), name);
    TakenAfterWrite(p, c, name);
    WriteMoves(s, i, c, name);
  }

  /** What one write moves out of a committer's hands is in the row or lost. */
  lemma WriteMoves(s: State, i: nat, c: Name, name: Name)
    requires Enabled(s, WriteOne(i, c))
    ensures var t, p := Next(s, WriteOne(i, c)), s.committers[i];
      && t.batch == s.batch && t.increments == s.increments
      && t.committers == s.committers[i := Writing(p.outstanding - {c})]
      && At(t.rows, name) + At(t.lost, name)
         == At(s.rows, name) + At(s.lost, name) + (if c == name then p.outstanding[c] else 0)
  {
  }

  lemma TakenAfterWrite(p: Phase, c: Name, name: Name)
    requires p.Writing? && c in p.outstanding
    ensures Taken(p, name) == Taken(Writing(p.outstanding - {c}), name) + if c == name then p.outstanding[c] else 0
  {
  }

  lemma StepKeepsBalance(s: State, a: Step, first: Counts, name: Name)
    requires Exclusive(s) && Enabled(s, a) && Balanced(s, first, name)
    ensures Balanced(Next(s, a), first, name)
  {
    hide InFlight, Exclusive;
    match a
    case Lock(i) => InFlightUpdate(s.committers, i, Copying(s.batch.Keys, map[]), name);
    case CopyOne(i, c) => CopyKeepsBalance(s, i, c, first, name);
    case Unlock(i) => InFlightUpdate(s.committers, i, Writing(s.committers[i].outstanding), name);
    case WriteOne(i, c) => WriteKeepsBalance(s, i, c, first, name);
    case Finish(i) => InFlightUpdate(s.committers, i, Idle, name);
    case _ =>
  }

  /** A row that exists stays, and nothing of its counter is lost. */
  lemma RowKeepsCount(s: State, a: Step, name: Name)
    requires Enabled(s, a) && name in s.rows
    ensures name in Next(s, a).rows && At(Next(s, a).lost, name) == At(s.lost, name)
  {
  }

  lemma {:induction false} RunKeepsBooks(s: State, run: seq<Step>, first: Counts, name: Name)
    requires Exclusive(s) && Balanced(s, first, name) && IsRun(s, run)
    ensures Exclusive(After(s, run)) && Balanced(After(s, run), first, name)
    ensures name in s.rows ==> name in After(s, run).rows && At(After(s, run).lost, name) == At(s.lost, name)
    decreases |run|
  {
    if run != [] {
      hide Exclusive, Balanced, Next, Enabled;
      StepKeepsExclusive(s, run[0]);
      StepKeepsBalance(s, run[0], first, name);
      if name in s.rows { RowKeepsCount(s, run[0], name); }
      RunKeepsBooks(Next(s, run[0]), run[1..], first, name);
    }
  }

  lemma StartBooks(rows: Counts, n: nat, name: Name)
    ensures Exclusive(Start(rows, n)) && Balanced(Start(rows, n), rows, name)
  {
    IdleTakesNothing(Start(rows, n).committers, name);
  }

  // ---------- what a commit moves ----------

  /** What the holder of the lock has looked at is out of the batch. */
  ghost predicate Swept(s: State) {
    forall i, name :: 0 <= i < |s.committers| && s.committers[i].Copying? && name !in s.committers[i].todo ==>
      At(s.batch, name) == 0
  }

  lemma StepKeepsSwept(s: State, a: Step)
    requires Exclusive(s) && Swept(s) && Enabled(s, a)
    ensures Swept(Next(s, a))
  {
    var s' := Next(s, a);
    forall i, name | 0 <= i < |s'.committers| && s'.committers[i].Copying? && name !in s'.committers[i].todo
      ensures At(s'.batch, name) == 0
    {
      SweptAt(s, a, i, name);
    }
  }

  lemma SweptAt(s: State, a: Step, i: nat, name: Name)
    requires Exclusive(s) && Swept(s) && Enabled(s, a) && i < |s.committers|
    requires var p := Next(s, a).committers[i]; p.Copying? && name !in p.todo
    ensures At(Next(s, a).batch, name) == 0
  {
    if s.committers[i].Copying? {
      assert s.holder == Some(i);
      if name !in s.committers[i].todo {
        assert At(s.batch, name) == 0;
      } else {
        assert a == CopyOne(i, name);
      }
    } else {
      assert a == Lock(i);
    }
  }

  lemma {:induction false} RunKeepsSwept(s: State, run: seq<Step>)
    requires Exclusive(s) && Swept(s) && IsRun(s, run)
    ensures Swept(After(s, run))
    decreases |run|
  {
    if run != [] {
      hide Exclusive, Swept, Next, Enabled;
      StepKeepsExclusive(s, run[0]);
      StepKeepsSwept(s, run[0]);
      RunKeepsSwept(Next(s, run[0]), run[1..]);
    }
  }

  /** When a committer gives the lock up, in any run, every count is out of the batch. */
  lemma UnlockedTookAll(rows: Counts, n: nat, run: seq<Step>, i: nat, name: Name)
    requires IsRun(Start(rows, n), run) && Enabled(After(Start(rows, n), run), Unlock(i))
    ensures At(After(Start(rows, n), run).batch, name) == 0
  {
    StartBooks(rows, n, name);
    RunKeepsSwept(Start(rows, n), run);
  }

  /** One update adds what was taken to its row, if there is one, and to no other. */
  lemma WriteAdds(s: State, i: nat, name: Name)
    requires Enabled(s, WriteOne(i, name))
    ensures var s', p := Next(s, WriteOne(i, name)), s.committers[i];
      && s'.rows.Keys == s.rows.Keys && s'.batch == s.batch
      && (forall k :: At(s'.rows, k) == At(s.rows, k) + if k == name && k in s.rows then p.outstanding[name] else 0)
      && s'.committers[i] == Writing(p.outstanding - {name})
  {
  }

  // ---------- conservation ----------

  /** Stored value plus taken but unwritten plus batch is the number of increments. */
  predicate Conserved(s: State, first: Counts, name: Name) {
    At(s.rows, name) + InFlight(s.committers, name) + At(s.batch, name) == At(first, name) + At(s.increments, name)
  }

  ghost predicate AlwaysConserved(rows: Counts, n: nat, name: Name) {
    forall run | IsRun(Start(rows, n), run) :: Conserved(After(Start(rows, n), run), rows, name)
  }

  /** An increment committed before the row exists goes nowhere. */
  function Early(name: Name): seq<Step> {
    [Incr(name), Lock(0), CopyOne(0, name), Unlock(0), WriteOne(0, name)]
  }

  lemma EarlyIsLost(rows: Counts, n: nat, name: Name)
    requires n >= 1 && name !in rows
    ensures IsRun(Start(rows, n), Early(name)) && !Conserved(After(Start(rows, n), Early(name)), rows, name)
  {
    var s0 := Start(rows, n);
    var s1 := Next(s0, Incr(name));
    var s2 := Next(s1, Lock(0));
    var s3 := Next(s2, CopyOne(0, name));
    RunSnoc(s0, [], Incr(name));
    assert [] + [Incr(name)] == [Incr(name)];
    RunSnoc(s0, [Incr(name)], Lock(0));
    assert [Incr(name)] + [Lock(0)] == [Incr(name), Lock(0)];
    RunSnoc(s0, [Incr(name), Lock(0)], CopyOne(0, name));
    assert [Incr(name), Lock(0)] + [CopyOne(0, name)] == [Incr(name), Lock(0), CopyOne(0, name)];
    assert s1.batch == map[name := 1] && s1.batch.Keys == {name};
    assert s2.committers[0] == Copying({name}, map[]);
    assert s3.committers[0] == Copying({}, map[name := 1]);
    assert s3.committers == s0.committers[0 := Copying({}, map[name := 1])];
    assert s3.batch == map[name := 0];
    EarlyEnds(rows, n, name, s3);
  }

  lemma EarlyEnds(rows: Counts, n: nat, name: Name, s3: State)
    requires n >= 1 && name !in rows
    requires var run := [Incr(name), Lock(0), CopyOne(0, name)];
      IsRun(Start(rows, n), run) && s3 == After(Start(rows, n), run)
    requires s3 == State(rows, map[name := 0], Some(0), Start(rows, n).committers[0 := Copying({}, map[name := 1])],
                         map[name := 1], map[])
    ensures IsRun(Start(rows, n), Early(name)) && !Conserved(After(Start(rows, n), Early(name)), rows, name)
  {
    var s0, run := Start(rows, n), [Incr(name), Lock(0), CopyOne(0, name)];
    RunSnoc(s0, run, Unlock(0));
    RunSnoc(s0, run + [Unlock(0)], WriteOne(0, name));
    assert run + [Unlock(0)] + [WriteOne(0, name)] == Early(name);
    var s5 := Next(Next(s3, Unlock(0)), WriteOne(0, name));
    assert s5.committers[0].outstanding == map[];
    Others(s5.committers, name);
  }

  lemma Others(c: seq<Phase>, name: Name)
    requires |c| > 0 && Taken(c[0], name) == 0 && forall i :: 1 <= i < |c| ==> c[i].Idle?
    ensures InFlight(c, name) == 0
  {
    IdleTakesNothing(c[1..], name);
  }

  lemma {:induction false} RunSnoc(s: State, run: seq<Step>, a: Step)
    requires IsRun(s, run) && Enabled(After(s, run), a)
    ensures IsRun(s, run + [a]) && After(s, run + [a]) == Next(After(s, run), a)
    decreases |run|
  {
    hide Enabled, Next;
    if run == [] {
      assert [] + [a] == [a] && [a][1..] == [];
    } else {
      RunSnoc(Next(s, run[0]), run[1..], a);
      assert (run + [a])[1..] == run[1..] + [a];
    }
  }

  /** With any number of committers, increments and creations in any order, a counter is
      conserved in every run exactly when its row is there at the start. */
  lemma ConservedIffCreated(rows: Counts, n: nat, name: Name)
    requires n >= 1
    ensures AlwaysConserved(rows, n, name) <==> name in rows
  {
    if name in rows {
      forall run | IsRun(Start(rows, n), run) ensures Conserved(After(Start(rows, n), run), rows, name) {
        StartBooks(rows, n, name);
        RunKeepsBooks(Start(rows, n), run, rows, name);
      }
    } else {
      EarlyIsLost(rows, n, name);
    }
  }

  /** No increment of the name comes before its row. */
  predicate CreatedFirst(run: seq<Step>, name: Name) {
    run == [] || run[0] == CreateRow(name) || (run[0] != Incr(name) && CreatedFirst(run[1..], name))
  }

  /** Nothing of the name is in the batch, in a committer's hands, or lost. */
  predicate Untouched(s: State, name: Name) {
    At(s.batch, name) == 0 && InFlight(s.committers, name) == 0 && At(s.lost, name) == 0
  }

  lemma NoneInFlight(c: seq<Phase>, i: nat, p: Phase, name: Name)
    requires i < |c| && InFlight(c, name) == 0
    ensures Taken(c[i], name) == 0 && InFlight(c[i := p], name) == Taken(p, name)
  {
    InFlightUpdate(c, i, Idle, name);
    InFlightUpdate(c, i, p, name);
  }

  /** Only an increment of the name touches it. */
  lemma UntouchedStep(s: State, a: Step, name: Name)
    requires Untouched(s, name) && Enabled(s, a) && a != Incr(name)
    ensures Untouched(Next(s, a), name)
  {
    hide InFlight;
    match a
    case Lock(i) => NoneInFlight(s.committers, i, Copying(s.batch.Keys, map[]), name);
    case CopyOne(i, c) => NoneInFlight(s.committers, i, CopyPhase(s.committers[i], s.batch, c), name);
    case Unlock(i) => NoneInFlight(s.committers, i, Writing(s.committers[i].outstanding), name);
    case WriteOne(i, c) => NoneInFlight(s.committers, i, Writing(s.committers[i].outstanding - {c}), name);
    case Finish(i) => NoneInFlight(s.committers, i, Idle, name);
    case _ =>
  }

  /** A counter that exists before its first increment loses none. */
  lemma {:induction false} NothingLost(s: State, run: seq<Step>, first: Counts, name: Name)
    requires Exclusive(s) && Balanced(s, first, name) && IsRun(s, run)
    requires At(s.lost, name) == 0 && (name in s.rows || (Untouched(s, name) && CreatedFirst(run, name)))
    ensures At(After(s, run).lost, name) == 0
    decreases |run|
  {
    if name in s.rows {
      RunKeepsBooks(s, run, first, name);
    } else if run != [] {
      var s' := Next(s, run[0]);
      if run[0] == CreateRow(name) { assert name in s'.rows && s'.lost == s.lost; } else { UntouchedStep(s, run[0], name); }
      hide Exclusive, Balanced, Next, Enabled, InFlight, At;
      StepKeepsExclusive(s, run[0]);
      StepKeepsBalance(s, run[0], first, name);
      NothingLost(s', run[1..], first, name);
    }
  }

  /** The increments of a name in a run. */
  function IncrCount(run: seq<Step>, name: Name): nat {
    if run == [] then 0 else (if run[0] == Incr(name) then 1 else 0) + IncrCount(run[1..], name)
  }

  lemma {:induction false} IncrementsCounted(s: State, run: seq<Step>, name: Name)
    requires IsRun(s, run)
    ensures At(After(s, run).increments, name) == At(s.increments, name) + IncrCount(run, name)
    decreases |run|
  {
    if run != [] {
      IncrementStep(s, run[0], name);
      hide Next, Enabled, At;
      IncrementsCounted(Next(s, run[0]), run[1..], name);
    }
  }

  lemma IncrementStep(s: State, a: Step, name: Name)
    requires Enabled(s, a)
    ensures At(Next(s, a).increments, name) == At(s.increments, name) + if a == Incr(name) then 1 else 0
  {
  }

  /** A counter is conserved in every run in which its row is there at the start or is created
      before its first increment, whatever is committed and created besides: row, taken and
      batch are the first value and one for each increment of the run. */
  lemma ConservedOnceCreated(rows: Counts, n: nat, run: seq<Step>, name: Name)
    requires IsRun(Start(rows, n), run) && (name in rows || CreatedFirst(run, name))
    ensures Conserved(After(Start(rows, n), run), rows, name)
    ensures var s := After(Start(rows, n), run);
      At(s.rows, name) + InFlight(s.committers, name) + At(s.batch, name) == At(rows, name) + IncrCount(run, name)
  {
    IncrementsCounted(Start(rows, n), run, name);
    StartBooks(rows, n, name);
    IdleTakesNothing(Start(rows, n).committers, name);
    NothingLost(Start(rows, n), run, rows, name);
    RunKeepsBooks(Start(rows, n), run, rows, name);
  }

  /** When all committers are idle and the batch is empty, the row has every increment. */
  lemma QuietRowIsTotal(rows: Counts, n: nat, run: seq<Step>, name: Name)
    requires IsRun(Start(rows, n), run) && (name in rows || CreatedFirst(run, name))
    requires var s := After(Start(rows, n), run);
      At(s.batch, name) == 0 && forall i :: 0 <= i < |s.committers| ==> s.committers[i].Idle?
    ensures var s := After(Start(rows, n), run);
      At(s.rows, name) == At(rows, name) + At(s.increments, name) == At(rows, name) + IncrCount(run, name)
  {
    ConservedOnceCreated(rows, n, run, name);
    IdleTakesNothing(After(Start(rows, n), run).committers, name);
  }
}
