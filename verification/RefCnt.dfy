/** Intrusive reference counting: RefCntBase and RefCntPointer.  A World is the ghost book of
    the counted objects and of the pointer objects that exist. */
module RefCnt {
  const SHORT_MAX: int := 32767

  type Short = n: int | -32768 <= n <= SHORT_MAX

  /** Conversion to short. */
  function ToShort(n: int): Short {
    (n + 32768) % 65536 - 32768
  }

  /** An object with a RefCntBase. */
  class Counted {
    var mRefCnt: Short

    /** How often it was deleted; whether a RefCntPointer ever designated it; the pointers that
        do; and counts held for a pointer that is about to, or has just stopped. */
    var deletions: nat
    ghost var wrapped: bool
    ghost var designators: set<RefCntPointer>
    ghost var extra: nat

    constructor ()
      ensures Consistent() && !wrapped && designators == {} && extra == 0
    {
      mRefCnt, deletions, wrapped, designators, extra := 0, 0, false, {}, 0;
    }

    ghost predicate Consistent()
      reads this
    {
      && mRefCnt == |designators| + extra
      && (mRefCnt > 0 ==> wrapped)
      && deletions == if wrapped && mRefCnt == 0 then 1 else 0
    }

    /** False is the failing assertion mRefCnt>=0. */
    method IncRefCnt() returns (ok: bool)
      requires deletions == 0
      modifies `mRefCnt, `extra, `wrapped
      ensures ok <==> old(mRefCnt) >= 0
      ensures ok ==> mRefCnt == ToShort(old(mRefCnt) + 1) && extra == old(extra) + 1
      ensures old(Consistent()) ==> ok && (Consistent() <==> old(mRefCnt) < SHORT_MAX)
    {
      if mRefCnt < 0 { return false; }
      mRefCnt := ToShort(mRefCnt + 1);
      extra, wrapped := extra + 1, true;
      ok := true;
    }

    /** False is the failing assertion; else the object deletes itself at 0. */
    method DecRefCnt() returns (ok: bool, saveRefCnt: int)
      requires extra > 0 && deletions == 0
      modifies `mRefCnt, `deletions, `extra
      ensures ok <==> old(mRefCnt) >= 0
      ensures ok ==> mRefCnt == old(mRefCnt) - 1 == saveRefCnt && extra == old(extra) - 1
      ensures ok && saveRefCnt > 0 ==> deletions == 0
      ensures old(Consistent()) ==> ok && Consistent()
    {
      if mRefCnt < 0 { return false, 0; }
      mRefCnt := ToShort(mRefCnt - 1);
      saveRefCnt := mRefCnt;
      if saveRefCnt <= 0 { deletions := deletions + 1; }
      extra := extra - 1;
      ok := true;
    }
  }

  class World {
    ghost var objects: set<Counted>
    ghost var pointers: set<RefCntPointer>

    /** The books of who designates whom, apart from the counts. */
    ghost predicate Registered()
      reads this, objects, pointers
    {
      && (forall o | o in objects :: o.designators <= pointers)
      && (forall o, p | o in objects && p in o.designators :: p.rcPointer == o)
      && (forall p | p in pointers :: p.rcPointer == null || (p.rcPointer in objects && p in p.rcPointer.designators))
    }

    /** Between the operations no count is held aside, and all are right. */
    ghost predicate Settled()
      reads this, objects, pointers
    {
      Registered() && SettledBut({})
    }

    /** The same apart from some objects, and from the books. */
    ghost predicate SettledBut(except: set<Counted>)
      reads this, objects
    {
      forall o | o in objects && o !in except :: o.Consistent() && o.extra == 0
    }

    constructor ()
      ensures Settled() && objects == {} && pointers == {}
    {
      objects, pointers := {}, {};
    }

    /** A newly created counted object. */
    ghost method Register(o: Counted)
      requires Settled() && o !in objects && o.Consistent() && o.designators == {} && o.extra == 0
      modifies `objects
      ensures Settled() && objects == old(objects) + {o}
    {
      objects := objects + {o};
    }

    /** Between the operations every object's count is the number of pointers that designate
        it; it has been deleted once if it was designated before and is no more, and else not
        at all; and no pointer designates a deleted object. */
    lemma CountsAreDesignators(o: Counted)
      requires Settled() && o in objects
      ensures o.mRefCnt == |set p | p in pointers && p.rcPointer == o|
      ensures o.deletions == if o.wrapped && !exists p | p in pointers :: p.rcPointer == o then 1 else 0
      ensures o.deletions > 0 ==> forall p | p in pointers :: p.rcPointer != o
    {
      DesignatorsAre(o);
      if exists p | p in pointers :: p.rcPointer == o {
        var p :| p in pointers && p.rcPointer == o;
        Designated(p);
      } else {
        assert o.designators == {};
      }
    }

    lemma DesignatorsAre(o: Counted)
      requires Registered() && o in objects
      ensures o.designators == set p | p in pointers && p.rcPointer == o
    {
    }

    /** A designated object has not been deleted. */
    lemma Designated(p: RefCntPointer)
      requires Registered() && p in pointers && p.rcPointer != null && p.rcPointer.Consistent()
      ensures p.rcPointer in objects && p.rcPointer.deletions == 0 && p.rcPointer.mRefCnt > 0
    {
      SubsetSize({p}, p.rcPointer.designators);
    }

    /** p takes over a count held for it and designates its object from now on. */
    ghost method Join(p: RefCntPointer)
      requires Registered() && p !in pointers
      requires p.rcPointer != null ==> p.rcPointer in objects && p.rcPointer.extra > 0
      modifies `pointers, p.Target()`designators, p.Target()`extra
      ensures Registered() && pointers == old(pointers) + {p}
      ensures p.rcPointer != null ==>
        p.rcPointer.extra == old(p.rcPointer.extra) - 1 && (p.rcPointer.Consistent() <==> old(p.rcPointer.Consistent()))
    {
      pointers := pointers + {p};
      if p.rcPointer != null {
        var o := p.rcPointer;
        o.designators, o.extra := o.designators + {p}, o.extra - 1;
      }
    }

    /** p stops designating its object; its count is held aside. */
    ghost method Leave(p: RefCntPointer)
      requires Registered() && p in pointers
      modifies `pointers, p.Target()`designators, p.Target()`extra
      ensures Registered() && pointers == old(pointers) - {p}
      ensures p.rcPointer != null ==>
        && p.rcPointer in objects && p.rcPointer.extra == old(p.rcPointer.extra) + 1
        && (p.rcPointer.Consistent() <==> old(p.rcPointer.Consistent()))
    {
      pointers := pointers - {p};
      if p.rcPointer != null {
        var o := p.rcPointer;
        o.designators, o.extra := o.designators - {p}, o.extra + 1;
      }
    }
  }

  /** The frame of an operation on one object. */
  ghost function Only(o: Counted?): set<Counted> { if o == null then {} else {o} }

  class RefCntPointer {
    var rcPointer: Counted?

    /** The object this pointer designates, if any. */
    ghost function Target(): set<Counted>
      reads this
    {
      Only(rcPointer)
    }

    /** rcInc: one count more on the object, held aside. */
    method RcInc(ghost w: World) returns (ok: bool)
      requires w.Registered() && Target() <= w.objects && (rcPointer != null ==> rcPointer.deletions == 0)
      modifies Target()`mRefCnt, Target()`extra, Target()`wrapped
      ensures w.Registered() && (rcPointer == null ==> ok)
      ensures rcPointer != null ==>
        && (ok <==> old(rcPointer.mRefCnt) >= 0)
        && (ok ==> rcPointer.mRefCnt == ToShort(old(rcPointer.mRefCnt) + 1) && rcPointer.extra == old(rcPointer.extra) + 1)
        && (old(rcPointer.Consistent()) ==> (rcPointer.Consistent() <==> old(rcPointer.mRefCnt) < SHORT_MAX))
    {
      ok := true;
      if rcPointer != null { ok := rcPointer.IncRefCnt(); }
    }

    /** rcDec: gives a held count back; the pointer is nulled with its object deleted. */
    method RcDec(ghost w: World) returns (ok: bool)
      requires w.Registered() && this !in w.pointers && Target() <= w.objects
      requires rcPointer != null ==> rcPointer.extra > 0 && rcPointer.deletions == 0
      modifies this, Target()`mRefCnt, Target()`deletions, Target()`extra
      ensures w.Registered() && (old(rcPointer) == null ==> ok)
      ensures old(rcPointer) != null ==>
        && (ok <==> old(rcPointer.mRefCnt) >= 0)
        && (ok ==> old(rcPointer).extra == old(rcPointer.extra) - 1)
        && (old(rcPointer.Consistent()) ==> old(rcPointer).Consistent())
    {
      ok := true;
      if rcPointer != null {
        var n: int;
        ok, n := rcPointer.DecRefCnt();
        if ok && n <= 0 { rcPointer := null; }
      }
    }

    /** rcPointer = other; rcInc(): a pointer in no book comes to designate other. */
    method Take(ghost w: World, other: Counted?)
      requires w.Registered() && this !in w.pointers
      requires other != null ==> other in w.objects && other.Consistent() && other.deletions == 0
      modifies this, w`pointers, Only(other)`mRefCnt, Only(other)`extra, Only(other)`wrapped, Only(other)`designators
      ensures w.Registered() && rcPointer == other && w.pointers == old(w.pointers) + {this}
      ensures other != null ==>
        && other.extra == old(other.extra) && other.mRefCnt == ToShort(old(other.mRefCnt) + 1)
        && (other.Consistent() <==> old(other.mRefCnt) < SHORT_MAX)
    {
      rcPointer := other;
      var _ := RcInc(w);
      w.Join(this);
    }

    /** rcDec() of a pointer that designates its object no longer. */
    method Drop(ghost w: World) returns (ok: bool)
      requires w.Registered() && this in w.pointers && (rcPointer != null ==> rcPointer.deletions == 0)
      modifies this, w`pointers, Target()`mRefCnt, Target()`deletions, Target()`extra, Target()`designators
      ensures w.Registered() && w.pointers == old(w.pointers) - {this}
      ensures old(rcPointer) == null ==> ok
      ensures old(rcPointer) != null ==>
        && (ok <==> old(rcPointer.mRefCnt) >= 0)
        && (ok ==> old(rcPointer).extra == old(rcPointer.extra))
        && (old(rcPointer.Consistent()) ==> old(rcPointer).Consistent())
    {
      w.Leave(this);
      ok := RcDec(w);
    }

    constructor (ghost w: World)
      requires w.Settled()
      modifies w`pointers
      ensures w.Settled() && rcPointer == null && w.pointers == old(w.pointers) + {this}
    {
      rcPointer := null;
      new;
      w.Join(this);
    }

    /** From a raw pointer to a live object, or NULL: the counts stay right exactly when the
        object's count has room. */
    constructor FromRaw(ghost w: World, other: Counted?)
      requires w.Settled() && (other != null ==> other in w.objects && other.deletions == 0)
      modifies w`pointers, w.objects
      ensures w.Registered() && rcPointer == other && w.pointers == old(w.pointers) + {this}
      ensures w.Settled() <==> other == null || old(other.mRefCnt) < SHORT_MAX
      ensures other != null ==> other.mRefCnt == ToShort(old(other.mRefCnt) + 1)
    {
      rcPointer := null;
      new;
      Take(w, other);
    }

    constructor Copy(ghost w: World, other: RefCntPointer)
      requires w.Settled() && other in w.pointers
      modifies w`pointers, w.objects
      ensures w.Registered() && rcPointer == other.rcPointer && w.pointers == old(w.pointers) + {this}
      ensures w.SettledBut(Target())
      ensures w.Settled() <==> rcPointer == null || old(other.rcPointer.mRefCnt) < SHORT_MAX
      ensures rcPointer != null ==>
        && rcPointer.mRefCnt == ToShort(old(other.rcPointer.mRefCnt) + 1)
        && rcPointer.deletions == 0 && rcPointer.extra == 0
    {
      rcPointer := null;
      new;
      if other.rcPointer != null { w.Designated(other); }
      Take(w, other.rcPointer);
    }

    /** free */
    method Free(ghost w: World)
      requires w.Settled() && this in w.pointers
      modifies this, w`pointers, w.objects
      ensures w.Settled() && rcPointer == null && w.pointers == old(w.pointers)
    {
      if rcPointer != null { w.Designated(this); }
      var _ := Drop(w);
      rcPointer := null;
      w.Join(this);
    }

    /** The destructor. */
    method Destroy(ghost w: World) returns (ok: bool)
      requires w.Registered() && this in w.pointers && w.SettledBut(Target())
      requires rcPointer != null ==> rcPointer.extra == 0 && rcPointer.deletions == 0
      modifies this, w`pointers, w.objects
      ensures ok <==> old(rcPointer) == null || old(rcPointer.mRefCnt) >= 0
      ensures ok ==> rcPointer == null && w.pointers == old(w.pointers) - {this}
      ensures old(w.Settled()) ==> ok && w.Settled()
    {
      ok := Drop(w);
      rcPointer := null;
    }

    /** operator=(Type*): right exactly when the new object's count has room.  Without room
        the object is given a negative count, at which its own decrement aborts. */
    method AssignRaw(ghost w: World, other: Counted?) returns (ok: bool)
      requires w.Settled() && this in w.pointers
      requires other != null ==> other in w.objects && other.deletions == 0
      modifies this, w`pointers, w.objects
      ensures ok && w.Settled() <==> other == null || old(other.mRefCnt) < SHORT_MAX
      ensures ok <==> other == null || old(other.mRefCnt) < SHORT_MAX || old(rcPointer) != other
      ensures rcPointer == other && w.pointers == old(w.pointers)
    {
      var old_ := rcPointer;
      if old_ != null { w.Designated(this); }
      w.Leave(this);
      Take(w, other);
      ok := true;
      if old_ != null { ok := GiveBack(w, old_, other); }
    }

    /** old->decRefCnt() */
    static method GiveBack(ghost w: World, o: Counted, ghost other: Counted?) returns (ok: bool)
      requires w.Registered() && w.SettledBut({o} + Only(other))
      requires o in w.objects && o.extra == 1 && o.deletions == 0 && (o != other ==> o.Consistent())
      requires other != null ==> other in w.objects && (other == o || other.extra == 0)
      modifies o`mRefCnt, o`deletions, o`extra
      ensures ok <==> old(o.mRefCnt) >= 0
      ensures w.Registered()
      ensures old(o.Consistent()) ==> ok && (w.Settled() <==> other == null || old(other.Consistent()))
    {
      var saveRefCnt: int;
      ok, saveRefCnt := o.DecRefCnt();
    }

    /** operator=(RefCntPointer): the argument is a copy, destroyed on return.  It runs to the
        end, with all counts right, exactly when the source's object has room for two counts. */
    method Assign(ghost w: World, source: RefCntPointer) returns (ok: bool)
      requires w.Settled() && this in w.pointers && source in w.pointers
      modifies this, w`pointers, w.objects
      ensures ok <==> old(source.rcPointer) == null || old(source.rcPointer.mRefCnt) < SHORT_MAX - 1
      ensures ok ==> w.Settled() && rcPointer == old(source.rcPointer) && w.pointers == old(w.pointers)
    {
      var other := new RefCntPointer.Copy(w, source);
      ok := other.RcInc(w);
      if !ok { return; }
      ok := Replace(w, other);
      if !ok { return; }
      ok := other.Destroy(w);
    }

    /** rcDec(); rcPointer = other.rcPointer, with a count of it held aside. */
    method Replace(ghost w: World, other: RefCntPointer) returns (ok: bool)
      requires w.Registered() && this in w.pointers && other in w.pointers && this != other
      requires w.SettledBut(other.Target()) && other.Target() <= w.objects
      requires rcPointer != null && rcPointer != other.rcPointer ==> rcPointer.Consistent()
      requires other.rcPointer != null ==> other.rcPointer.extra == 1 && other.rcPointer.deletions == 0
                                           && (other.rcPointer.Consistent() || other.rcPointer.mRefCnt < 0)
      modifies this, w`pointers, w.objects
      ensures other.rcPointer == null || old(other.rcPointer.Consistent()) ==> ok
      ensures ok ==> w.Registered() && w.SettledBut(other.Target()) && rcPointer == other.rcPointer && w.pointers == old(w.pointers)
      ensures ok && rcPointer != null ==>
        && rcPointer.extra == 0 && rcPointer.deletions == 0
        && (old(other.rcPointer.Consistent()) ==> rcPointer.Consistent())
        && (old(other.rcPointer.mRefCnt) < 0 ==> rcPointer.mRefCnt < 0)
    {
      if rcPointer != null && rcPointer.Consistent() { w.Designated(this); }
      ok := Drop(w);
      if !ok { return; }
      if other.rcPointer != null && other.rcPointer.Consistent() { w.Designated(other); }
      PointTo(w, other.rcPointer);
    }

    /** rcPointer = o, with a count of it held for this pointer */
    method PointTo(ghost w: World, o: Counted?)
      requires w.Registered() && this !in w.pointers && (o != null ==> o in w.objects && o.extra > 0)
      modifies this, w`pointers, Only(o)`designators, Only(o)`extra
      ensures w.Registered() && w.pointers == old(w.pointers) + {this} && rcPointer == o
      ensures o != null ==> o.extra == old(o.extra) - 1 && (o.Consistent() <==> old(o.Consistent()))
    {
      rcPointer := o;
      w.Join(this);
    }
  }

  lemma {:induction false} SubsetSize<T>(a: set<T>, b: set<T>)
    requires a <= b
    ensures |a| <= |b|
  {
    if a != {} {
      var x :| x in a;
      SubsetSize(a - {x}, b - {x});
    }
  }

  /** Pointers to one object, one after the other: up to 32767 of them the count is their
      number; the next construction makes it negative, and the books wrong. */
  method OneTooMany(ghost w: World, o: Counted)
    requires w.Settled() && o in w.objects && o.mRefCnt == 0 && o.deletions == 0
    modifies w`pointers, w.objects
    ensures w.Registered() && o.mRefCnt == -32768 && !w.Settled()
    ensures |set p | p in w.pointers && p.rcPointer == o| == SHORT_MAX + 1
  {
    for i := 0 to SHORT_MAX
      invariant w.Settled() && o in w.objects && o.mRefCnt == i && o.deletions == 0
    {
      var p := new RefCntPointer.FromRaw(w, o);
    }
    ghost var before := o.designators;
    w.DesignatorsAre(o);
    var last := new RefCntPointer.FromRaw(w, o);
    w.DesignatorsAre(o);
    assert o.designators == before + {last};
    assert |before| == SHORT_MAX && last !in before;
  }
}
