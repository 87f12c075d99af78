/** Which lines the TOML parser accepts, and what an accepted line changes, told by the paths of
    the tree alone. */
module TomlLines {
  import opened Toml

  // ---------- paths that a name spells ----------

  /** The path goes by the names, into tables and into the last elements of table arrays. */
  predicate Spells(n: Node, p: seq<Step>, names: seq<string>): (b: bool)
    ensures b ==> Points(n, p) && |p| == |names|
    decreases |p|
  {
    if p == [] then names == [] && n.Table?
    else
      && names != [] && p[0].key == names[0] && HasChild(n, p[0])
      && (p[0].At? ==> p[0].index == |n.entries[names[0]].tables| - 1)
      && Spells(Child(n, p[0]), p[1..], names[1..])
  }

  /** Some path does. */
  ghost predicate Spelled(t: Node, names: seq<string>) { exists p :: Spells(t, p, names) }

  predicate Passable(n: Node) { n.Table? || n.TableArray? }

  /** No value and no plain array stands at a prefix of the names. */
  ghost predicate Free(n: Node, names: seq<string>) {
    forall p, k: nat :: k < |names| && Spells(n, p, names[..k]) && names[k] in TableAt(n, p).entries ==>
      Passable(TableAt(n, p).entries[names[k]])
  }

  /** No array of any kind stands there either. */
  ghost predicate FreeOfArrays(n: Node, names: seq<string>) {
    forall p, k: nat :: k < |names| && Spells(n, p, names[..k]) && names[k] in TableAt(n, p).entries ==>
      TableAt(n, p).entries[names[k]].Table?
  }

  predicate NoneEmpty(names: seq<string>) { forall i :: 0 <= i < |names| ==> names[i] != "" }

  /** A table, or a table array with a last element, stands there. */
  predicate Enterable(n: Node, key: string) {
    && n.Table? && key in n.entries && Passable(n.entries[key])
    && (n.entries[key].TableArray? ==> n.entries[key].tables != [])
  }

  function StepInto(n: Node, key: string): (s: Step)
    requires Enterable(n, key)
    ensures HasChild(n, s) && s.key == key
  {
    if n.entries[key].Table? then In(key) else At(key, |n.entries[key].tables| - 1)
  }

  lemma SpellsFirst(n: Node, p: seq<Step>, names: seq<string>)
    requires n.Table? && names != [] && Spells(n, p, names)
    ensures Enterable(n, names[0])
    ensures p[0] == StepInto(n, names[0]) && Spells(Child(n, p[0]), p[1..], names[1..])
    ensures TableAt(n, p) == TableAt(Child(n, p[0]), p[1..])
  {
  }

  lemma SpellsMore(n: Node, s: Step, p: seq<Step>, names: seq<string>)
    requires n.Table? && names != [] && HasChild(n, s) && s.key == names[0]
    requires s.At? ==> s.index == |n.entries[names[0]].tables| - 1
    requires Spells(Child(n, s), p, names[1..])
    ensures Spells(n, [s] + p, names) && TableAt(n, [s] + p) == TableAt(Child(n, s), p)
  {
    assert ([s] + p)[1..] == p;
  }

  lemma PrefixRest(names: seq<string>, k: nat)
    requires 0 < k <= |names|
    ensures names[..k][1..] == names[1..][..k - 1] && names[..k][0] == names[0]
  {
  }

  /** What the first name says about freedom. */
  lemma FreeStep(n: Node, names: seq<string>)
    requires n.Table? && names != [] && WellFormed(n)
    ensures names[0] !in n.entries ==> Free(n, names) && FreeOfArrays(n, names)
    ensures names[0] in n.entries && !Passable(n.entries[names[0]]) ==> !Free(n, names)
    ensures names[0] in n.entries && !n.entries[names[0]].Table? ==> !FreeOfArrays(n, names)
    ensures names[0] in n.entries && Passable(n.entries[names[0]]) ==> Enterable(n, names[0])
    ensures Enterable(n, names[0]) ==>
      (Free(n, names) <==> Free(Child(n, StepInto(n, names[0])), names[1..]))
    ensures names[0] in n.entries && n.entries[names[0]].Table? ==>
      (FreeOfArrays(n, names) <==> FreeOfArrays(n.entries[names[0]], names[1..]))
  {
    if names[0] in n.entries && Passable(n.entries[names[0]]) { ChildIsTable(n, names[0]); }
    assert Enterable(n, names[0]) && n.entries[names[0]].Table? ==> Child(n, StepInto(n, names[0])) == n.entries[names[0]];
    FreeHere(n, names);
    hide *;
    if Enterable(n, names[0]) { FreeThere(n, names); }
  }

  /** A name that is not bound is free; one that is bound wrongly is not. */
  lemma FreeHere(n: Node, names: seq<string>)
    requires n.Table? && names != []
    ensures names[0] !in n.entries ==> Free(n, names) && FreeOfArrays(n, names)
    ensures names[0] in n.entries && !Passable(n.entries[names[0]]) ==> !Free(n, names)
    ensures names[0] in n.entries && !n.entries[names[0]].Table? ==> !FreeOfArrays(n, names)
  {
    assert names[..0] == [] && Spells(n, [], names[..0]) && TableAt(n, []) == n && 0 < |names|;
    hide WellFormed, Spells, TableAt, Points, StepInto, Child;
    forall p, k: nat | k < |names| && Spells(n, p, names[..k]) && k > 0 ensures names[0] in n.entries {
      PrefixRest(names, k);
      SpellsFirst(n, p, names[..k]);
    }
  }

  /** Behind a name that is bound to a table or a table array, freedom goes on there. */
  lemma FreeThere(n: Node, names: seq<string>)
    requires n.Table? && names != [] && Enterable(n, names[0])
    ensures var c := Child(n, StepInto(n, names[0]));
      && (Free(n, names) <==> Free(c, names[1..]))
      && (n.entries[names[0]].Table? ==> (FreeOfArrays(n, names) <==> FreeOfArrays(c, names[1..])))
  {
    assert names[..0] == [] && Spells(n, [], names[..0]) && TableAt(n, []) == n && 0 < |names|;
    StepIsLast(n, names[0]);
    hide WellFormed, Spells, TableAt, Points, StepInto, Child, HasChild;
    var s := StepInto(n, names[0]);
    var c, rest := Child(n, s), names[1..];
    forall p, k: nat | k < |names| && Spells(n, p, names[..k]) && k > 0
      ensures Spells(c, p[1..], rest[..k - 1]) && TableAt(n, p) == TableAt(c, p[1..]) && names[k] == rest[k - 1]
    {
      PrefixRest(names, k);
      SpellsFirst(n, p, names[..k]);
    }
    forall p, k: nat | k < |rest| && Spells(c, p, rest[..k])
      ensures Spells(n, [s] + p, names[..k + 1]) && TableAt(n, [s] + p) == TableAt(c, p) && rest[k] == names[k + 1]
    {
      PrefixRest(names, k + 1);
      SpellsMore(n, s, p, names[..k + 1]);
    }
  }

  lemma ChildIsTable(n: Node, key: string)
    requires n.Table? && WellFormed(n) && key in n.entries && Passable(n.entries[key])
    ensures Enterable(n, key)
    ensures Child(n, StepInto(n, key)).Table? && WellFormed(Child(n, StepInto(n, key)))
  {
  }

  lemma EmptyIsFree(names: seq<string>)
    ensures Free(EMPTY_TABLE, names) && FreeOfArrays(EMPTY_TABLE, names)
  {
    if names != [] { FreeStep(EMPTY_TABLE, names); }
  }

  // ---------- which entries a change leaves as they are ----------

  /** The entry is passed by the path. */
  predicate OnPath(q: seq<Step>, key: string, path: seq<Step>) {
    |q| < |path| && q == path[..|q|] && path[|q|].key == key
  }

  /** The place lies in or under the entry at a path. */
  predicate Under(q: seq<Step>, base: seq<Step>, key: string) {
    |base| < |q| && q[..|base|] == base && q[|base|].key == key
  }

  ghost predicate SameEntry(a: Node, b: Node, q: seq<Step>, key: string) {
    && (Bound(a, q, key) <==> Bound(b, q, key))
    && (Bound(a, q, key) ==> EntryAt(b, q, key) == EntryAt(a, q, key))
  }

  /** All entries of both trees that the path does not pass are the same. */
  ghost predicate Untouched(a: Node, b: Node, path: seq<Step>) {
    forall q, key :: !OnPath(q, key, path) ==> SameEntry(a, b, q, key)
  }

  /** All but those passed on the way to one entry, and what is at or under it. */
  ghost predicate UntouchedBut(a: Node, b: Node, base: seq<Step>, at: string) {
    forall q, key ::
      !OnPath(q, key, base) && !(q == base && key == at) && !Under(q, base, at) ==> SameEntry(a, b, q, key)
  }

  predicate SameShape(x: Node, y: Node) {
    match x
    case Table(_) => y.Table?
    case TableArray(tables, inline) => y.TableArray? && |y.tables| == |tables| && y.inline == inline
    case _ => y == x
  }

  /** An entry on the path has the shape it had, or is a new table. */
  ghost predicate OpenedAt(a: Node, b: Node, q: seq<Step>, key: string) {
    && Bound(b, q, key)
    && if Bound(a, q, key) then SameShape(EntryAt(a, q, key), EntryAt(b, q, key)) else EntryAt(b, q, key).Table?
  }

  ghost predicate Opened(a: Node, b: Node, path: seq<Step>) {
    forall i: nat :: i < |path| ==> OpenedAt(a, b, path[..i], path[i].key)
  }

  lemma BoundFirst(n: Node, q: seq<Step>, key: string)
    requires q != []
    ensures Bound(n, q, key) <==> HasChild(n, q[0]) && Bound(Child(n, q[0]), q[1..], key)
    ensures Bound(n, q, key) ==> EntryAt(n, q, key) == EntryAt(Child(n, q[0]), q[1..], key)
  {
  }

  lemma OnPathRest(q: seq<Step>, key: string, path: seq<Step>)
    requires q != [] && path != [] && q[0] == path[0]
    ensures OnPath(q, key, path) <==> OnPath(q[1..], key, path[1..])
  {
    if |q| < |path| {
      assert q == [q[0]] + q[1..] && path[..|q|] == [path[0]] + path[1..][..|q| - 1];
    }
  }

  lemma OnLonger(q: seq<Step>, key: string, p1: seq<Step>, p2: seq<Step>)
    requires p1 <= p2
    ensures OnPath(q, key, p1) ==> OnPath(q, key, p2)
  {
    if |q| < |p1| { assert p1[..|q|] == p2[..|q|]; }
  }

  lemma OnPathSnoc(q: seq<Step>, key: string, path: seq<Step>, st: Step)
    ensures OnPath(q, key, path + [st]) <==> OnPath(q, key, path) || (q == path && key == st.key)
  {
    if |q| <= |path| { assert (path + [st])[..|q|] == path[..|q|]; }
    assert path[..|path|] == path;
  }

  lemma UnderRest(q: seq<Step>, base: seq<Step>, key: string)
    requires q != [] && base != [] && q[0] == base[0]
    ensures Under(q, base, key) <==> Under(q[1..], base[1..], key)
  {
    if |base| < |q| {
      assert base == [base[0]] + base[1..] && q[..|base|] == [q[0]] + q[1..][..|base| - 1];
    }
  }

  /** Putting an entry into the table at a path. */
  lemma {:induction false} PutElsewhere(n: Node, base: seq<Step>, at: string, m: Node, q: seq<Step>, key: string)
    requires Points(n, base)
    requires !OnPath(q, key, base) && !(q == base && key == at) && !Under(q, base, at)
    ensures SameEntry(n, WithTable(n, base, Table(TableAt(n, base).entries[at := m])), q, key)
    decreases |base|
  {
    var t := Table(TableAt(n, base).entries[at := m]);
    if base == [] {
      if q != [] {
        BoundFirst(n, q, key);
        BoundFirst(t, q, key);
        assert q[..0] == [];
      }
    } else if q == [] {
      assert base[..0] == [];
    } else {
      var s, c := base[0], WithTable(Child(n, base[0]), base[1..], t);
      BoundFirst(n, q, key);
      BoundFirst(WithChild(n, s, c), q, key);
      if q[0] == s {
        OnPathRest(q, key, base);
        UnderRest(q, base, at);
        assert q == base <==> q[1..] == base[1..] by { assert q == [q[0]] + q[1..] && base == [base[0]] + base[1..]; }
        PutElsewhere(Child(n, s), base[1..], at, m, q[1..], key);
        assert Child(WithChild(n, s, c), s) == c;
      } else {
        assert c.Table?;
        OtherChild(n, s, c, q[0]);
      }
    }
  }

  lemma OtherChild(n: Node, s: Step, c: Node, r: Step)
    requires HasChild(n, s) && c.Table? && r != s
    ensures var n' := WithChild(n, s, c);
      (HasChild(n', r) <==> HasChild(n, r)) && (HasChild(n, r) ==> Child(n', r) == Child(n, r))
  {
  }

  // ---------- one new entry ----------

  lemma {:induction false} SplitPath(n: Node, base: seq<Step>, q: seq<Step>, key: string)
    requires Points(n, base)
    ensures Points(n, base + q) <==> Points(TableAt(n, base), q)
    ensures Points(n, base + q) ==> TableAt(n, base + q) == TableAt(TableAt(n, base), q)
    ensures Bound(n, base + q, key) <==> Bound(TableAt(n, base), q, key)
    decreases |base|
  {
    if base == [] {
      assert base + q == q;
    } else {
      assert (base + q)[1..] == base[1..] + q;
      SplitPath(Child(n, base[0]), base[1..], q, key);
    }
  }

  /** A new empty table, or one more at the end of an array, has nothing in it. */
  predicate AddsEmpty(t: Node, at: string, m: Node)
    requires t.Table?
  {
    if at in t.entries
    then t.entries[at].TableArray? && m == TableArray(t.entries[at].tables + [EMPTY_TABLE], t.entries[at].inline)
    else m == EMPTY_TABLE || m == TableArray([EMPTY_TABLE], false)
  }

  lemma NothingUnder(t: Node, at: string, m: Node, q: seq<Step>, key: string)
    requires t.Table? && AddsEmpty(t, at, m) && q != [] && q[0].key == at
    ensures SameEntry(t, Table(t.entries[at := m]), q, key)
  {
    var u := Table(t.entries[at := m]);
    BoundFirst(t, q, key);
    BoundFirst(u, q, key);
    if HasChild(u, q[0]) && !HasChild(t, q[0]) {
      assert Child(u, q[0]) == EMPTY_TABLE;
      if q[1..] != [] { BoundFirst(EMPTY_TABLE, q[1..], key); }
    }
  }

  /** The state after a new entry with nothing in it. */
  lemma InsertedElsewhere(s: State, at: string, m: Node)
    requires Good(s) && WellFormed(m) && AddsEmpty(TableAt(s.root, s.cursor), at, m)
    ensures var b := Insert(s, at, m).root;
      forall q, key :: !OnPath(q, key, s.cursor) && !(q == s.cursor && key == at) ==> SameEntry(s.root, b, q, key)
  {
    var base, t := s.cursor, TableAt(s.root, s.cursor);
    var b := Insert(s, at, m).root;
    PutPoints(s.root, base, Table(t.entries[at := m]));
    forall q, key | !OnPath(q, key, base) && !(q == base && key == at) ensures SameEntry(s.root, b, q, key) {
      if Under(q, base, at) {
        var r := q[|base|..];
        assert q == base + r;
        SplitPath(s.root, base, r, key);
        SplitPath(b, base, r, key);
        NothingUnder(t, at, m, r, key);
      } else {
        PutElsewhere(s.root, base, at, m, q, key);
      }
    }
  }

  lemma {:induction false} PutPoints(n: Node, base: seq<Step>, t: Node)
    requires Points(n, base) && t.Table?
    ensures Points(WithTable(n, base, t), base) && TableAt(WithTable(n, base, t), base) == t
    decreases |base|
  {
    if base != [] { PutPoints(Child(n, base[0]), base[1..], t); }
  }

  /** The tables on the way to the new entry keep their shapes. */
  lemma {:induction false} PutOnPath(n: Node, base: seq<Step>, t: Node, i: nat)
    requires Points(n, base) && t.Table? && i < |base|
    ensures OpenedAt(n, WithTable(n, base, t), base[..i], base[i].key)
    ensures Bound(n, base[..i], base[i].key)
    decreases |base|
  {
    var s, c := base[0], WithTable(Child(n, base[0]), base[1..], t);
    if i == 0 {
      assert base[..0] == [];
    } else {
      PutOnPath(Child(n, s), base[1..], t, i - 1);
      assert base[..i][1..] == base[1..][..i - 1];
      BoundFirst(n, base[..i], base[i].key);
      BoundFirst(WithChild(n, s, c), base[..i], base[i].key);
      assert Child(WithChild(n, s, c), s) == c;
    }
  }

  // ---------- the walk over a name ----------

  lemma {:induction false} OpenedSelf(n: Node, path: seq<Step>, i: nat)
    requires Points(n, path) && i < |path|
    ensures OpenedAt(n, n, path[..i], path[i].key)
    decreases |path|
  {
    if i == 0 {
      assert path[..0] == [];
    } else {
      OpenedSelf(Child(n, path[0]), path[1..], i - 1);
      assert path[..i][1..] == path[1..][..i - 1];
      BoundFirst(n, path[..i], path[i].key);
    }
  }

  /** A walk that only descends changes nothing. */
  lemma SameTreeOpened(n: Node, path: seq<Step>)
    requires Points(n, path)
    ensures Untouched(n, n, path) && Opened(n, n, path)
  {
    forall i: nat | i < |path| ensures OpenedAt(n, n, path[..i], path[i].key) { OpenedSelf(n, path, i); }
  }

  /** The tables of the tree at a longer path. */
  lemma OpenedThen(a: Node, b: Node, d: Node, p1: seq<Step>, p2: seq<Step>)
    requires p1 <= p2 && Untouched(a, b, p1) && Opened(a, b, p1) && Untouched(b, d, p2) && Opened(b, d, p2)
    ensures Untouched(a, d, p2) && Opened(a, d, p2)
  {
    UntouchedThen(a, b, d, p1, p2);
    hide Bound, EntryAt, SameEntry;
    forall i: nat | i < |p2| ensures OpenedAt(a, d, p2[..i], p2[i].key) {
      assert OpenedAt(b, d, p2[..i], p2[i].key);
      if i < |p1| {
        assert p1[..i] == p2[..i] && p1[i] == p2[i];
        assert OpenedAt(a, b, p1[..i], p1[i].key);
        ShapesThen(a, b, d, p2[..i], p2[i].key);
      } else {
        assert !OnPath(p2[..i], p2[i].key, p1) && SameEntry(a, b, p2[..i], p2[i].key);
        EntryThen(a, b, d, p2[..i], p2[i].key);
      }
    }
  }

  lemma ShapesThen(a: Node, b: Node, d: Node, q: seq<Step>, key: string)
    requires OpenedAt(a, b, q, key) && OpenedAt(b, d, q, key)
    ensures OpenedAt(a, d, q, key)
  {
    hide Bound, EntryAt;
  }

  lemma EntryThen(a: Node, b: Node, d: Node, q: seq<Step>, key: string)
    requires SameEntry(a, b, q, key) && OpenedAt(b, d, q, key)
    ensures OpenedAt(a, d, q, key)
  {
    hide Bound, EntryAt;
  }

  lemma UntouchedThen(a: Node, b: Node, d: Node, p1: seq<Step>, p2: seq<Step>)
    requires p1 <= p2 && Untouched(a, b, p1) && Untouched(b, d, p2)
    ensures Untouched(a, d, p2)
  {
    hide Bound, EntryAt, OnPath;
    forall q, key | !OnPath(q, key, p2) ensures SameEntry(a, d, q, key) {
      OnLonger(q, key, p1, p2);
      assert SameEntry(a, b, q, key) && SameEntry(b, d, q, key);
    }
  }

  /** What one step into an entry, or into a new one, leaves. */
  ghost predicate Stepped(s: State, s1: State, part: string) {
    && Good(s) && Good(s1)
    && var t := TableAt(s.root, s.cursor);
       |s1.cursor| == |s.cursor| + 1 && s.cursor <= s1.cursor && s1.cursor[|s.cursor|].key == part
       && Untouched(s.root, s1.root, s1.cursor) && Opened(s.root, s1.root, s1.cursor)
       && (if Enterable(t, part)
           then s1.root == s.root && s1.cursor[|s.cursor|] == StepInto(t, part)
                && TableAt(s1.root, s1.cursor) == Child(t, StepInto(t, part))
           else s1.cursor[|s.cursor|] == In(part) && TableAt(s1.root, s1.cursor) == EMPTY_TABLE)
  }

  lemma DescendIsStep(s: State, part: string)
    requires Good(s) && Enterable(TableAt(s.root, s.cursor), part)
    ensures Descend(s, part) == Ok(Down(s, StepInto(TableAt(s.root, s.cursor), part)))
    ensures Stepped(s, Down(s, StepInto(TableAt(s.root, s.cursor), part)), part)
  {
    var t := TableAt(s.root, s.cursor);
    TableAtWellFormed(s.root, s.cursor);
    ChildIsTable(t, part);
    hide Points, TableAt, WellFormed;
    var st := StepInto(t, part);
    PointsSnoc(s.root, s.cursor, st);
    SameTreeOpened(s.root, s.cursor + [st]);
  }

  lemma InsertIsStep(s: State, part: string)
    requires Good(s) && part !in TableAt(s.root, s.cursor).entries
    ensures Stepped(s, Down(Insert(s, part, EMPTY_TABLE), In(part)), part)
  {
    var t := TableAt(s.root, s.cursor);
    hide Points, TableAt, WellFormed, WithTable;
    InsertGrows(s, part, EMPTY_TABLE);
    DownGood(Insert(s, part, EMPTY_TABLE), In(part));
    var b, path := Insert(s, part, EMPTY_TABLE).root, s.cursor + [In(part)];
    PointsSnoc(b, s.cursor, In(part));
    InsertedElsewhere(s, part, EMPTY_TABLE);
    InsertOpens(s, part, EMPTY_TABLE, In(part));
  }

  /** The path to a new entry after the insertion. */
  lemma InsertOpens(s: State, part: string, m: Node, st: Step)
    requires Good(s) && part !in TableAt(s.root, s.cursor).entries && m.Table? && WellFormed(m) && st.key == part
    requires var b := Insert(s, part, m).root;
      forall q, key :: !OnPath(q, key, s.cursor) && !(q == s.cursor && key == part) ==> SameEntry(s.root, b, q, key)
    ensures var b := Insert(s, part, m).root;
      Untouched(s.root, b, s.cursor + [st]) && Opened(s.root, b, s.cursor + [st])
  {
    var base, path := s.cursor, s.cursor + [st];
    var t := Table(TableAt(s.root, base).entries[part := m]);
    var b := WithTable(s.root, base, t);
    hide SameEntry, OpenedAt;
    forall q, key | !OnPath(q, key, path) ensures SameEntry(s.root, b, q, key) {
      OnPathSnoc(q, key, base, st);
    }
    forall i: nat | i < |path| ensures OpenedAt(s.root, b, path[..i], path[i].key) {
      if i < |base| {
        assert path[..i] == base[..i];
        PutOnPath(s.root, base, t, i);
      } else {
        assert path[..i] == base;
        NewIsOpened(s, part, m);
      }
    }
  }

  lemma NewIsOpened(s: State, part: string, m: Node)
    requires Good(s) && part !in TableAt(s.root, s.cursor).entries && m.Table?
    ensures OpenedAt(s.root, Insert(s, part, m).root, s.cursor, part)
  {
    PutPoints(s.root, s.cursor, Table(TableAt(s.root, s.cursor).entries[part := m]));
  }

  /** The handler of a table name: what it accepts, and where it goes. */
  lemma SinglePartSteps(s: State, part: string)
    requires Good(s)
    ensures var t, o := TableAt(s.root, s.cursor), SinglePart(s, part);
      && (o.Ok? <==> part != "" && (part in t.entries ==> Passable(t.entries[part])))
      && (part in t.entries && Passable(t.entries[part]) ==> Enterable(t, part))
      && (o.Ok? ==> Stepped(s, o.v, part))
  {
    var t := TableAt(s.root, s.cursor);
    TableAtWellFormed(s.root, s.cursor);
    if part in t.entries && Passable(t.entries[part]) { ChildIsTable(t, part); }
    hide Stepped, Points, TableAt, WellFormed, WithTable;
    if part in t.entries {
      if Passable(t.entries[part]) { DescendIsStep(s, part); }
    } else {
      InsertIsStep(s, part);
    }
  }

  /** The handler of a key's tables. */
  lemma KeyPartSteps(s: State, part: string)
    requires Good(s)
    ensures var t, o := TableAt(s.root, s.cursor), KeyPart(s, part);
      && (o.Ok? <==> part in t.entries ==> t.entries[part].Table?)
      && (o.Ok? ==> Stepped(s, o.v, part) && (part in t.entries ==> Enterable(t, part)))
  {
    var t := TableAt(s.root, s.cursor);
    hide Stepped, Points, TableAt, WellFormed, WithTable;
    if part in t.entries {
      if t.entries[part].Table? { DescendIsStep(s, part); }
    } else {
      InsertIsStep(s, part);
    }
  }

  /** Where a walk over a name from s has ended. */
  ghost predicate Walked(s: State, s': State, names: seq<string>) {
    && Good(s) && Good(s') && s.cursor <= s'.cursor && Points(s'.root, s.cursor)
    && Untouched(s.root, s'.root, s'.cursor) && Opened(s.root, s'.root, s'.cursor)
    && Spells(TableAt(s'.root, s.cursor), s'.cursor[|s.cursor|..], names)
    && (forall p :: Spells(TableAt(s.root, s.cursor), p, names) ==> s' == State(s.root, s.cursor + p))
    && (!Spelled(TableAt(s.root, s.cursor), names) ==> TableAt(s'.root, s'.cursor) == EMPTY_TABLE)
  }

  lemma WalkedNone(s: State)
    requires Good(s)
    ensures Walked(s, s, [])
  {
    SameTreeOpened(s.root, s.cursor);
    NoNames(TableAt(s.root, s.cursor));
    assert s.cursor[|s.cursor|..] == [];
    forall p | Spells(TableAt(s.root, s.cursor), p, []) ensures s == State(s.root, s.cursor + p) {
      assert p == [] && s.cursor + p == s.cursor;
    }
  }

  lemma WalkedMore(s: State, s1: State, s': State, names: seq<string>)
    requires names != [] && Stepped(s, s1, names[0]) && Walked(s1, s', names[1..])
    requires Grows(s.root, s1.root) && Grows(s1.root, s'.root)
    ensures Walked(s, s', names)
  {
    var t := TableAt(s.root, s.cursor);
    hide Points, TableAt, Spells, SameEntry, OpenedAt, WellFormed, Grows, Bound, EntryAt, Spelled, Enterable;
    SpelledFrom(t, names);
    NotSpelledInEmpty(names[1..]);
    NoNames(TableAt(s1.root, s1.cursor));
    if names[1..] == [] {
      assert s1.cursor + [] == s1.cursor;
      assert s' == s1;
    }
    OpenedThen(s.root, s1.root, s'.root, s1.cursor, s'.cursor);
    WalkedSpells(s, s1, s', names);
    forall p | Spells(TableAt(s.root, s.cursor), p, names) ensures s' == State(s.root, s.cursor + p) {
      SpellsFirst(TableAt(s.root, s.cursor), p, names);
      assert s.cursor + p == s1.cursor + p[1..] by { StepThenRest(s.cursor, s1.cursor, p); }
    }
  }

  lemma NotSpelledInEmpty(names: seq<string>)
    ensures Spelled(EMPTY_TABLE, names) ==> names == []
  {
    if names != [] { SpelledFrom(EMPTY_TABLE, names); }
  }

  lemma StepThenRest(c: seq<Step>, c1: seq<Step>, p: seq<Step>)
    requires p != [] && |c1| == |c| + 1 && c <= c1 && c1[|c|] == p[0]
    ensures c + p == c1 + p[1..]
  {
    assert c1 == c + [p[0]];
  }

  /** The path from s spells the whole name in the tree at the end. */
  lemma WalkedSpells(s: State, s1: State, s': State, names: seq<string>)
    requires names != [] && Stepped(s, s1, names[0]) && Walked(s1, s', names[1..])
    requires Grows(s.root, s1.root) && Grows(s1.root, s'.root)
    ensures Points(s'.root, s.cursor) && Spells(TableAt(s'.root, s.cursor), s'.cursor[|s.cursor|..], names)
  {
    var c, st := s.cursor, s1.cursor[|s.cursor|];
    assert s1.cursor == c + [st];
    PointsStays(s.root, s1.root, c);
    PointsStays(s1.root, s'.root, c);
    LastStays(s, s1, s', names, st);
    hide *;
    var r, t' := s'.cursor[|s1.cursor|..], TableAt(s'.root, c);
    SpellsMore(t', st, r, names) by { WalkedParts(s, s1, s', names); }
    assert s'.cursor[|c|..] == [st] + r by { WalkedParts(s, s1, s', names); }
  }

  lemma WalkedParts(s: State, s1: State, s': State, names: seq<string>)
    requires names != [] && Stepped(s, s1, names[0]) && Walked(s1, s', names[1..])
    ensures |s1.cursor| == |s.cursor| + 1 && s.cursor <= s1.cursor <= s'.cursor
    ensures s1.cursor[|s.cursor|].key == names[0]
    ensures Points(s'.root, s1.cursor) && TableAt(s'.root, s1.cursor).Table?
    ensures Spells(TableAt(s'.root, s1.cursor), s'.cursor[|s1.cursor|..], names[1..])
  {
    hide Untouched, Opened, Spells, WellFormed;
  }

  /** The step into an entry is still to its last element. */
  lemma LastStays(s: State, s1: State, s': State, names: seq<string>, st: Step)
    requires names != [] && Stepped(s, s1, names[0]) && Walked(s1, s', names[1..]) && st == s1.cursor[|s.cursor|]
    requires Points(s1.root, s.cursor) && Points(s'.root, s.cursor)
    ensures var t' := TableAt(s'.root, s.cursor);
      HasChild(t', st) && Child(t', st) == TableAt(s'.root, s1.cursor) && t'.Table?
      && (st.At? ==> st.index == |t'.entries[names[0]].tables| - 1)
  {
    var c := s.cursor;
    assert s1.cursor == c + [st];
    SplitPath(s1.root, c, [st], "");
    SplitPath(s'.root, c, [st], "");
    var t1, t' := TableAt(s1.root, c), TableAt(s'.root, c);
    OneStep(t1, st);
    OneStep(t', st);
    assert s'.cursor[..|c|] == c && s'.cursor[|c|] == st;
    assert OpenedAt(s1.root, s'.root, s'.cursor[..|c|], s'.cursor[|c|].key);
    LastIsLast(s, s1, st);
    hide Spells, Untouched, Opened, WellFormed, Stepped, Walked;
    SplitPath(s1.root, c, [], st.key);
    SplitPath(s'.root, c, [], st.key);
    assert c + [] == c;
  }

  lemma OneStep(n: Node, st: Step)
    ensures Points(n, [st]) <==> HasChild(n, st) && Child(n, st).Table?
    ensures Points(n, [st]) ==> TableAt(n, [st]) == Child(n, st)
  {
    assert [st][1..] == [];
  }

  lemma LastIsLast(s: State, s1: State, st: Step)
    requires Stepped(s, s1, st.key) && st == s1.cursor[|s.cursor|] && Points(s1.root, s.cursor)
    ensures st.At? ==> HasChild(TableAt(s1.root, s.cursor), st) ==>
      st.index == |TableAt(s1.root, s.cursor).entries[st.key].tables| - 1
  {
  }

  /** A table name from anywhere in a tree: it is accepted exactly when no part is empty and no
      value or plain array is in its way. */
  lemma {:induction false} NameWalks(s: State, names: seq<string>)
    requires Good(s)
    ensures SingleParts(s, names).Ok? <==> NoneEmpty(names) && Free(TableAt(s.root, s.cursor), names)
    ensures SingleParts(s, names).Ok? ==> Walked(s, SingleParts(s, names).v, names)
    ensures SingleParts(s, names).Ok? ==>
      (Inserted(s, names) <==> !Spelled(TableAt(s.root, s.cursor), names))
    decreases |names|
  {
    var t := TableAt(s.root, s.cursor);
    TableAtWellFormed(s.root, s.cursor);
    hide SingleParts, Inserted, SinglePart, Points, TableAt, WellFormed, Grows, Walked, Stepped, Free, Spells, Spelled;
    if names == [] {
      SinglePartsDone(s, names);
      WalkedNone(s);
      NoNames(t);
      assert names == [] && Spelled(t, names) by { assert Spells(t, [], []); }
    } else {
      SinglePartsStep(s, names);
      SinglePartSteps(s, names[0]);
      FreeStep(t, names);
      FirstNotEmpty(names);
      SpelledFrom(t, names);
      if SinglePart(s, names[0]).Ok? {
        var s1 := SinglePart(s, names[0]).v;
        NameWalks(s1, names[1..]);
        SteppedTable(s, s1, names[0]);
        EmptyIsFree(names[1..]);
        if SingleParts(s, names).Ok? {
          KeptGrows(s, names);
          WalkedMore(s, s1, SingleParts(s, names).v, names);
        }
      }
    }
  }

  lemma KeptGrows(s: State, names: seq<string>)
    requires Good(s) && names != [] && SingleParts(s, names).Ok? && SinglePart(s, names[0]).Ok?
    ensures Good(SinglePart(s, names[0]).v) && SingleParts(SinglePart(s, names[0]).v, names[1..]) == SingleParts(s, names)
    ensures Grows(s.root, SinglePart(s, names[0]).v.root)
    ensures Grows(SinglePart(s, names[0]).v.root, SingleParts(s, names).v.root)
  {
    hide SinglePart, WellFormed, Points, Grows;
    SinglePartKeeps(s, names[0]);
  }

  lemma SteppedTable(s: State, s1: State, part: string)
    requires Stepped(s, s1, part)
    ensures Good(s) && Good(s1)
    ensures var t := TableAt(s.root, s.cursor);
      TableAt(s1.root, s1.cursor) == if Enterable(t, part) then Child(t, StepInto(t, part)) else EMPTY_TABLE
  {
  }

  lemma NoNames(t: Node)
    requires t.Table?
    ensures Free(t, []) && FreeOfArrays(t, []) && Spells(t, [], [])
  {
  }

  lemma FirstNotEmpty(names: seq<string>)
    requires names != []
    ensures NoneEmpty(names) <==> names[0] != "" && NoneEmpty(names[1..])
  {
    if names[0] != "" && NoneEmpty(names[1..]) {
      forall i | 0 <= i < |names| ensures names[i] != "" { if i > 0 { assert names[i] == names[1..][i - 1]; } }
    }
    if NoneEmpty(names) {
      forall i | 0 <= i < |names| - 1 ensures names[1..][i] != "" { assert names[1..][i] == names[i + 1]; }
    }
  }

  lemma StepIsLast(t: Node, key: string)
    requires Enterable(t, key)
    ensures var st := StepInto(t, key);
      HasChild(t, st) && st.key == key && (st.At? ==> st.index == |t.entries[key].tables| - 1)
  {
  }

  /** Whether a path spells the names depends on the first and on the rest. */
  lemma SpelledFrom(t: Node, names: seq<string>)
    requires t.Table? && names != []
    ensures Spelled(t, names) ==> Enterable(t, names[0]) && Spelled(Child(t, StepInto(t, names[0])), names[1..])
    ensures Enterable(t, names[0]) && Spelled(Child(t, StepInto(t, names[0])), names[1..]) ==> Spelled(t, names)
  {
    hide Spells, Enterable;
    if Spelled(t, names) {
      var p :| Spells(t, p, names);
      SpellsFirst(t, p, names);
      assert Spells(Child(t, StepInto(t, names[0])), p[1..], names[1..]);
    }
    if Enterable(t, names[0]) && Spelled(Child(t, StepInto(t, names[0])), names[1..]) {
      var st := StepInto(t, names[0]);
      StepIsLast(t, names[0]);
      var p :| Spells(Child(t, st), p, names[1..]);
      SpellsMore(t, st, p, names);
      assert Spells(t, [st] + p, names);
    }
  }

  /** The tables of a key. */
  lemma {:induction false} KeyWalks(s: State, names: seq<string>)
    requires Good(s)
    ensures KeyParts(s, names).Ok? <==> FreeOfArrays(TableAt(s.root, s.cursor), names)
    ensures KeyParts(s, names).Ok? ==> Walked(s, KeyParts(s, names).v, names)
    decreases |names|
  {
    var t := TableAt(s.root, s.cursor);
    TableAtWellFormed(s.root, s.cursor);
    hide KeyParts, KeyPart, Points, TableAt, WellFormed, Grows, Walked, Stepped, FreeOfArrays, Spells, Spelled;
    if names == [] {
      KeyPartsDone(s, names);
      WalkedNone(s);
      NoNames(t);
    } else {
      KeyPartsStep(s, names);
      KeyPartSteps(s, names[0]);
      FreeStep(t, names);
      if KeyPart(s, names[0]).Ok? {
        var s1 := KeyPart(s, names[0]).v;
        KeyWalks(s1, names[1..]);
        SteppedTable(s, s1, names[0]);
        EmptyIsFree(names[1..]);
        if names[0] in t.entries { IntoTable(t, names[0]); }
        if KeyParts(s, names).Ok? {
          KeysGrow(s, names);
          WalkedMore(s, s1, KeyParts(s, names).v, names);
        }
      }
    }
  }

  lemma IntoTable(t: Node, key: string)
    requires t.Table? && key in t.entries && t.entries[key].Table?
    ensures Enterable(t, key) && Child(t, StepInto(t, key)) == t.entries[key]
  {
  }

  lemma KeysGrow(s: State, names: seq<string>)
    requires Good(s) && names != [] && KeyParts(s, names).Ok? && KeyPart(s, names[0]).Ok?
    ensures Good(KeyPart(s, names[0]).v) && KeyParts(KeyPart(s, names[0]).v, names[1..]) == KeyParts(s, names)
    ensures Grows(s.root, KeyPart(s, names[0]).v.root)
    ensures Grows(KeyPart(s, names[0]).v.root, KeyParts(s, names).v.root)
  {
    hide KeyPart, WellFormed, Points, Grows;
    KeyPartKeeps(s, names[0]);
  }

  // ---------- the three kinds of lines ----------

  /** A table that a header may open once more: something is in it, and no scalar. */
  predicate Reopens(t: Node)
    requires t.Table?
  {
    t.entries != map[] && forall k | k in t.entries :: !t.entries[k].Value?
  }

  lemma ReopensIs(t: Node)
    requires t.Table?
    ensures Reopens(t) <==> !Redefines(t)
  {
  }

  /** [names] is accepted exactly when there are names, none of them empty, no value or plain
      array stands in their way, and a table that they spell already has something in it and no
      scalar.  It leads to the table that they spell then; the tables on the way are new or have
      the shapes they had, and nothing else in the tree has changed. */
  lemma HeaderLine(s: State, names: seq<string>)
    requires Good(s)
    ensures LineStep(s, TableHeader(names)).Ok? <==>
      && names != [] && NoneEmpty(names) && Free(s.root, names)
      && forall p :: Spells(s.root, p, names) ==> Reopens(TableAt(s.root, p))
    ensures LineStep(s, TableHeader(names)).Ok? ==>
      var s' := LineStep(s, TableHeader(names)).v;
      && Spells(s'.root, s'.cursor, names)
      && Untouched(s.root, s'.root, s'.cursor) && Opened(s.root, s'.root, s'.cursor)
  {
    if names != [] {
      AtRootGood(s);
      NameWalks(AtRoot(s), names);
      var o := SingleParts(AtRoot(s), names);
      if o.Ok? {
        RootWalk(s, o.v, names);
        ReopensIs(TableAt(o.v.root, o.v.cursor));
        hide Spells, Redefines, Reopens, Untouched, Opened, Free, SingleParts, Inserted, WellFormed;
        if Spelled(s.root, names) {
          var p :| Spells(s.root, p, names);
          assert o.v == State(s.root, p);
        }
      }
    }
  }

  /** A section of a new name is always accepted, whatever the file has before it, and opens an
      empty table under the root. */
  lemma NewSection(s: State, name: string)
    requires Good(s) && name != "" && name !in s.root.entries
    ensures LineStep(s, TableHeader([name])).Ok?
    ensures var s' := LineStep(s, TableHeader([name])).v;
      s'.cursor == [In(name)] && s'.root == Table(s.root.entries[name := EMPTY_TABLE])
  {
    var r := AtRoot(s);
    SinglePartsStep(r, [name]);
    assert [name][1..] == [];
    SinglePartsDone(SinglePart(r, name).v, []);
    HeaderLine(s, [name]);
    FreeStep(s.root, [name]);
    SpelledFrom(s.root, [name]);
    assert r.cursor + [In(name)] == [In(name)];
  }

  /** A walk from the root, in the terms of the tree. */
  lemma RootWalk(s: State, s': State, names: seq<string>)
    requires Good(s) && Walked(AtRoot(s), s', names)
    ensures Good(s') && Points(s'.root, s'.cursor) && Spells(s'.root, s'.cursor, names)
    ensures Untouched(s.root, s'.root, s'.cursor) && Opened(s.root, s'.root, s'.cursor)
    ensures forall p :: Spells(s.root, p, names) ==> s' == State(s.root, p)
    ensures !Spelled(s.root, names) ==> TableAt(s'.root, s'.cursor) == EMPTY_TABLE
  {
    hide Spells, Untouched, Opened, Spelled;
    assert s'.cursor[|AtRoot(s).cursor|..] == s'.cursor;
    forall p | Spells(s.root, p, names) ensures s' == State(s.root, p) { assert AtRoot(s).cursor + p == p; }
  }

  /** Putting an entry at the end of a walk: all others are as before the walk. */
  lemma PutAfterWalk(a: Node, s1: State, at: string, m: Node, q: seq<Step>, key: string)
    requires Good(s1) && Untouched(a, s1.root, s1.cursor)
    requires !OnPath(q, key, s1.cursor) && !(q == s1.cursor && key == at) && !Under(q, s1.cursor, at)
    ensures SameEntry(a, Insert(s1, at, m).root, q, key)
  {
    PutElsewhere(s1.root, s1.cursor, at, m, q, key);
    hide Bound, EntryAt, WithTable, TableAt, Points;
    assert SameEntry(a, s1.root, q, key);
  }

  /** The tables on the way to it keep the shapes they have after the walk. */
  lemma PutKeepsOpened(a: Node, s1: State, at: string, m: Node)
    requires Good(s1) && Opened(a, s1.root, s1.cursor)
    ensures Opened(a, Insert(s1, at, m).root, s1.cursor)
  {
    var base, t := s1.cursor, Table(TableAt(s1.root, s1.cursor).entries[at := m]);
    var b := Insert(s1, at, m).root;
    forall i: nat | i < |base| ensures OpenedAt(a, b, base[..i], base[i].key) {
      PutOnPath(s1.root, base, t, i);
      assert OpenedAt(a, s1.root, base[..i], base[i].key);
      hide Bound, EntryAt;
    }
  }

  /** The new entry is where it was put. */
  lemma PutIsThere(s1: State, at: string, m: Node)
    requires Good(s1)
    ensures var b := Insert(s1, at, m).root;
      Bound(b, s1.cursor, at) && EntryAt(b, s1.cursor, at) == m
  {
    PutPoints(s1.root, s1.cursor, Table(TableAt(s1.root, s1.cursor).entries[at := m]));
  }

  /** The table where the walk has ended is the one that was spelled before, or new. */
  lemma EndOfWalk(s: State, s1: State, names: seq<string>)
    requires Walked(s, s1, names)
    ensures forall p :: Spells(TableAt(s.root, s.cursor), p, names) ==>
      TableAt(s1.root, s1.cursor) == TableAt(TableAt(s.root, s.cursor), p)
    ensures !Spelled(TableAt(s.root, s.cursor), names) ==> TableAt(s1.root, s1.cursor) == EMPTY_TABLE
  {
    var t := TableAt(s.root, s.cursor);
    forall p | Spells(t, p, names) ensures TableAt(s1.root, s1.cursor) == TableAt(t, p) {
      SplitPath(s.root, s.cursor, p, "");
    }
  }

  /** names = value, from the cursor's table, is accepted exactly when there are names, no entry
      but a table stands at those before the last, nothing is bound at the last, and the value
      is accepted. */
  lemma KeyLine(s: State, item: Item)
    requires Good(s)
    ensures LineStep(s, KeyValue(item)).Ok? <==>
      && item.names != []
      && var t, init, key := TableAt(s.root, s.cursor), item.names[..|item.names| - 1], item.names[|item.names| - 1];
         && FreeOfArrays(t, init) && Build(item.val).Ok?
         && forall p :: Spells(t, p, init) ==> key !in TableAt(t, p).entries
  {
    BindIs(s, item);
    if item.names != [] {
      var init, key := item.names[..|item.names| - 1], item.names[|item.names| - 1];
      KeyWalks(s, init);
      if KeyParts(s, init).Ok? {
        var t, s1 := TableAt(s.root, s.cursor), KeyParts(s, init).v;
        EndOfWalk(s, s1, init);
        NotThere(t, TableAt(s1.root, s1.cursor), init, key);
      }
      hide *;
    }
  }

  /** Whether a name is bound at the end of a walk. */
  lemma NotThere(t: Node, end: Node, init: seq<string>, key: string)
    requires end.Table?
    requires forall p :: Spells(t, p, init) ==> end == TableAt(t, p)
    requires !Spelled(t, init) ==> end == EMPTY_TABLE
    ensures key !in end.entries <==> forall p :: Spells(t, p, init) ==> key !in TableAt(t, p).entries
  {
    hide Spells, TableAt, Points;
    if key !in end.entries {
      forall p | Spells(t, p, init) ensures key !in TableAt(t, p).entries { assert end == TableAt(t, p); }
    } else {
      assert Spelled(t, init);
      var p := SpellingOf(t, init);
      assert end == TableAt(t, p);
      assert key in TableAt(t, p).entries;
    }
  }

  lemma SpellingOf(t: Node, names: seq<string>) returns (p: seq<Step>)
    requires Spelled(t, names)
    ensures Spells(t, p, names)
  {
    p :| Spells(t, p, names);
  }

  /** What a key-value line is made of. */
  lemma BindIs(s: State, item: Item)
    requires Good(s)
    ensures item.names == [] ==> !LineStep(s, KeyValue(item)).Ok?
    ensures item.names != [] ==>
      var o, key := KeyParts(s, item.names[..|item.names| - 1]), item.names[|item.names| - 1];
      && (LineStep(s, KeyValue(item)).Ok? <==>
           o.Ok? && key !in TableAt(o.v.root, o.v.cursor).entries && Build(item.val).Ok?)
      && (LineStep(s, KeyValue(item)).Ok? ==>
           LineStep(s, KeyValue(item)).v == State(Insert(o.v, key, Build(item.val).v).root, s.cursor))
  {
    hide KeyParts, Build, TableAt, Points, WellFormed, Insert;
  }

  /** The cursor stays, and the value stands at the end of the names below it, where nothing
      stood; the tables on the way are new or have the shapes they had, and no other entry of the
      tree has changed. */
  lemma KeyLineBinds(s: State, item: Item) returns (path: seq<Step>)
    requires Good(s) && LineStep(s, KeyValue(item)).Ok?
    ensures item.names != [] && Build(item.val).Ok?
    ensures var s', init, key := LineStep(s, KeyValue(item)).v, item.names[..|item.names| - 1], item.names[|item.names| - 1];
      && s'.cursor == s.cursor && Points(s'.root, s.cursor) && Spells(TableAt(s'.root, s.cursor), path, init)
      && !Bound(s.root, s.cursor + path, key)
      && Bound(s'.root, s.cursor + path, key) && EntryAt(s'.root, s.cursor + path, key) == Build(item.val).v
      && Opened(s.root, s'.root, s.cursor + path) && UntouchedBut(s.root, s'.root, s.cursor + path, key)
  {
    hide *;
    BindIs(s, item);
    var init, key := item.names[..|item.names| - 1], item.names[|item.names| - 1];
    KeyWalks(s, init);
    var s1, m := KeyParts(s, init).v, Build(item.val).v;
    BuiltIsWell(item.val);
    PutAtEnd(s, s1, init, key, m);
    CursorGrows(s, s1, init);
    path := s1.cursor[|s.cursor|..];
    assert s.cursor + path == s1.cursor;
  }

  lemma BuiltIsWell(v: Val)
    ensures Build(v).Ok? ==> WellFormed(Build(v).v)
  {
    hide Build;
  }

  lemma CursorGrows(s: State, s1: State, names: seq<string>)
    requires Walked(s, s1, names)
    ensures s.cursor <= s1.cursor
  {
  }

  lemma PutAtEnd(s: State, s1: State, names: seq<string>, key: string, m: Node)
    requires Walked(s, s1, names) && key !in TableAt(s1.root, s1.cursor).entries && WellFormed(m)
    ensures var b, path := Insert(s1, key, m).root, s1.cursor[|s.cursor|..];
      && Points(b, s.cursor) && Spells(TableAt(b, s.cursor), path, names)
      && !Bound(s.root, s1.cursor, key) && Bound(b, s1.cursor, key) && EntryAt(b, s1.cursor, key) == m
      && Opened(s.root, b, s1.cursor) && UntouchedBut(s.root, b, s1.cursor, key)
  {
    hide *;
    CursorGrows(s, s1, names);
    var path := s1.cursor[|s.cursor|..];
    NotBoundBefore(s, s1, names, key);
    WalkedEnd(s, s1, names, path);
    PutIsThere(s1, key, m);
    PutKeepsOpened(s.root, s1, key, m);
    PutSpells(s, s1, path, names, key, m);
    PutTouchesNoOther(s.root, s1, key, m);
  }

  lemma WalkedEnd(s: State, s1: State, names: seq<string>, path: seq<Step>)
    requires Walked(s, s1, names) && path == s1.cursor[|s.cursor|..]
    ensures Good(s1) && s1.cursor == s.cursor + path && Points(s1.root, s.cursor) && Points(s1.root, s1.cursor)
    ensures Spells(TableAt(s1.root, s.cursor), path, names)
    ensures Untouched(s.root, s1.root, s1.cursor) && Opened(s.root, s1.root, s1.cursor)
  {
    hide Spells, Untouched, Opened, WellFormed, TableAt;
  }

  lemma PutSpells(s: State, s1: State, path: seq<Step>, names: seq<string>, key: string, m: Node)
    requires Good(s1) && s1.cursor == s.cursor + path && Points(s1.root, s.cursor) && Points(s1.root, s1.cursor)
    requires Spells(TableAt(s1.root, s.cursor), path, names)
    ensures var b := Insert(s1, key, m).root; Points(b, s.cursor) && Spells(TableAt(b, s.cursor), path, names)
  {
    hide Spells, WellFormed, TableAt, WithTable, Points;
    SpellsStays(s1.root, s.cursor, path, names, Table(TableAt(s1.root, s1.cursor).entries[key := m]));
  }

  lemma PutTouchesNoOther(a: Node, s1: State, key: string, m: Node)
    requires Good(s1) && Untouched(a, s1.root, s1.cursor)
    ensures UntouchedBut(a, Insert(s1, key, m).root, s1.cursor, key)
  {
    hide SameEntry, OnPath, Under, TableAt, Points, WithTable, WellFormed;
    forall q, k | !OnPath(q, k, s1.cursor) && !(q == s1.cursor && k == key) && !Under(q, s1.cursor, key)
      ensures SameEntry(a, Insert(s1, key, m).root, q, k)
    {
      PutAfterWalk(a, s1, key, m, q, k);
    }
  }

  lemma NotBoundBefore(s: State, s1: State, names: seq<string>, key: string)
    requires Walked(s, s1, names) && key !in TableAt(s1.root, s1.cursor).entries
    ensures !Bound(s.root, s1.cursor, key)
  {
    hide Spells, WellFormed, Opened;
    OnPathNotEnd(s1.cursor, key);
    assert SameEntry(s.root, s1.root, s1.cursor, key);
  }

  lemma OnPathNotEnd(path: seq<Step>, key: string)
    ensures !OnPath(path, key, path)
  {
  }

  /** A path spells what it did after its last table has changed. */
  lemma {:induction false} SpellsStays(n: Node, base: seq<Step>, path: seq<Step>, names: seq<string>, t: Node)
    requires Points(n, base) && Spells(TableAt(n, base), path, names) && Points(n, base + path) && t.Table?
    ensures var b := WithTable(n, base + path, t); Points(b, base) && Spells(TableAt(b, base), path, names)
    decreases |base|
  {
    if base == [] {
      assert base + path == path;
      SpellsStill(n, path, names, t);
    } else {
      assert (base + path)[1..] == base[1..] + path && (base + path)[0] == base[0];
      SpellsStays(Child(n, base[0]), base[1..], path, names, t);
      var c := WithTable(Child(n, base[0]), base[1..] + path, t);
      assert Child(WithChild(n, base[0], c), base[0]) == c;
    }
  }

  lemma {:induction false} SpellsStill(n: Node, path: seq<Step>, names: seq<string>, t: Node)
    requires Spells(n, path, names) && t.Table?
    ensures Spells(WithTable(n, path, t), path, names)
    decreases |path|
  {
    if path != [] {
      SpellsStill(Child(n, path[0]), path[1..], names[1..], t);
      var c := WithTable(Child(n, path[0]), path[1..], t);
      assert Child(WithChild(n, path[0], c), path[0]) == c;
    }
  }

  /** A table array that may have one more element: nothing, or one that was not written inline. */
  predicate Appendable(t: Node, key: string)
    requires t.Table?
  {
    key in t.entries ==> t.entries[key].TableArray? && !t.entries[key].inline
  }

  /** [[names]] is accepted exactly when there are names, none of them empty, no value or plain
      array stands in the way of those before the last, and at the last there is nothing or a
      table array that was not written inline. */
  lemma ArrayLine(s: State, names: seq<string>)
    requires Good(s)
    ensures LineStep(s, ArrayHeader(names)).Ok? <==>
      && names != [] && NoneEmpty(names)
      && var init, key := names[..|names| - 1], names[|names| - 1];
         && Free(s.root, init)
         && forall p :: Spells(s.root, p, init) ==> Appendable(TableAt(s.root, p), key)
  {
    if names != [] {
      var init, key := names[..|names| - 1], names[|names| - 1];
      AtRootGood(s);
      NameWalks(AtRoot(s), init);
      LastNotEmpty(names);
      var o := SingleParts(AtRoot(s), init);
      if o.Ok? {
        RootWalk(s, o.v, init);
        LastAccepted(o.v, key);
        hide Spells, Appendable, Untouched, Opened, Free, SingleParts, LastArrayPart, WellFormed;
        if Spelled(s.root, init) {
          var p :| Spells(s.root, p, init);
          assert o.v == State(s.root, p);
        } else {
          assert Appendable(EMPTY_TABLE, key) by { NothingAppendable(key); }
        }
      }
    }
  }

  lemma NothingAppendable(key: string)
    ensures Appendable(EMPTY_TABLE, key)
  {
  }

  lemma LastNotEmpty(names: seq<string>)
    requires names != []
    ensures NoneEmpty(names) <==> NoneEmpty(names[..|names| - 1]) && names[|names| - 1] != ""
  {
  }

  lemma LastAccepted(s: State, key: string)
    requires Good(s)
    ensures LastArrayPart(s, key).Ok? <==> key != "" && Appendable(TableAt(s.root, s.cursor), key)
  {
    hide Points, TableAt, WellFormed;
  }

  /** The array has one empty table more, or that one alone, and the cursor is there; the tables
      on the way are new or have the shapes they had, and no other entry has changed. */
  lemma ArrayLineAppends(s: State, names: seq<string>)
    requires Good(s) && LineStep(s, ArrayHeader(names)).Ok?
    ensures names != []
    ensures var s', init, key := LineStep(s, ArrayHeader(names)).v, names[..|names| - 1], names[|names| - 1];
      && s'.cursor != []
      && var base := s'.cursor[..|s'.cursor| - 1];
         && Spells(s'.root, base, init) && Bound(s'.root, base, key)
         && EntryAt(s'.root, base, key)
            == TableArray((if Bound(s.root, base, key) then TablesAt(s.root, base, key) else []) + [EMPTY_TABLE], false)
         && s'.cursor == base + [At(key, |TablesAt(s'.root, base, key)| - 1)]
         && Opened(s.root, s'.root, base) && Untouched(s.root, s'.root, s'.cursor)
  {
    hide *;
    ArrayLineIs(s, names);
    var init, key := names[..|names| - 1], names[|names| - 1];
    var s1 := SingleParts(AtRoot(s), init).v;
    var s' := LineStep(s, ArrayHeader(names)).v;
    AppendElement(s, s1, init, key);
    assert s'.cursor[..|s'.cursor| - 1] == s1.cursor;
  }

  /** What an array header is made of. */
  lemma ArrayLineIs(s: State, names: seq<string>)
    requires Good(s) && LineStep(s, ArrayHeader(names)).Ok?
    ensures names != [] && Good(AtRoot(s)) && SingleParts(AtRoot(s), names[..|names| - 1]).Ok?
    ensures var s1, init, key := SingleParts(AtRoot(s), names[..|names| - 1]).v, names[..|names| - 1], names[|names| - 1];
      && LineStep(s, ArrayHeader(names)) == LastArrayPart(s1, key)
      && Good(s1) && Spells(s1.root, s1.cursor, init) && key != "" && Appendable(TableAt(s1.root, s1.cursor), key)
      && Untouched(s.root, s1.root, s1.cursor) && Opened(s.root, s1.root, s1.cursor)
  {
    var init, key := names[..|names| - 1], names[|names| - 1];
    AtRootGood(s);
    NameWalks(AtRoot(s), init);
    var s1 := SingleParts(AtRoot(s), init).v;
    RootWalk(s, s1, init);
    LastAccepted(s1, key);
    hide SingleParts, LastArrayPart, Spells, Untouched, Opened, Appendable, TableAt, Points, WellFormed, Walked;
  }

  function TablesAt(n: Node, p: seq<Step>, key: string): seq<Node>
    requires Bound(n, p, key)
  {
    if EntryAt(n, p, key).TableArray? then EntryAt(n, p, key).tables else []
  }

  lemma AppendElement(s: State, s1: State, init: seq<string>, key: string)
    requires Good(s1) && Spells(s1.root, s1.cursor, init) && key != "" && Appendable(TableAt(s1.root, s1.cursor), key)
    requires Untouched(s.root, s1.root, s1.cursor) && Opened(s.root, s1.root, s1.cursor)
    ensures LastArrayPart(s1, key).Ok?
    ensures var s', base := LastArrayPart(s1, key).v, s1.cursor;
      && Spells(s'.root, base, init) && Bound(s'.root, base, key)
      && EntryAt(s'.root, base, key)
         == TableArray((if Bound(s.root, base, key) then TablesAt(s.root, base, key) else []) + [EMPTY_TABLE], false)
      && s'.cursor == base + [At(key, |TablesAt(s'.root, base, key)| - 1)]
      && Opened(s.root, s'.root, base) && Untouched(s.root, s'.root, s'.cursor)
  {
    var t, base := TableAt(s1.root, s1.cursor), s1.cursor;
    var m := TableArray((if key in t.entries then t.entries[key].tables else []) + [EMPTY_TABLE], false);
    assert [] + [EMPTY_TABLE] == [EMPTY_TABLE];
    var s', b := LastArrayPart(s1, key).v, Insert(s1, key, m).root;
    assert s' == State(b, base + [At(key, |m.tables| - 1)]);
    TableAtWellFormed(s1.root, s1.cursor);
    assert WellFormed(m) && AddsEmpty(t, key, m);
    PutIsThere(s1, key, m);
    PutKeepsOpened(s.root, s1, key, m);
    InsertedElsewhere(s1, key, m);
    OnPathNotEnd(base, key);
    assert SameEntry(s.root, s1.root, base, key);
    SpellsStill(s1.root, base, init, Table(t.entries[key := m]));
    forall q, k | !OnPath(q, k, s'.cursor) ensures SameEntry(s.root, b, q, k) {
      OnPathSnoc(q, k, base, At(key, |m.tables| - 1));
      assert SameEntry(s.root, s1.root, q, k) && SameEntry(s1.root, b, q, k);
    }
  }

  // ---------- the values ----------

  lemma {:induction false} AllBuilt(v: Val, elems: seq<Val>)
    requires v.ArrayOf? && forall i :: 0 <= i < |elems| ==> elems[i] in v.elems
    ensures BuildAll(v, elems).Ok? <==> forall i :: 0 <= i < |elems| ==> Build(elems[i]).Ok?
    ensures BuildAll(v, elems).Ok? ==>
      && |BuildAll(v, elems).v| == |elems|
      && forall i :: 0 <= i < |elems| ==> BuildAll(v, elems).v[i] == Build(elems[i]).v
    decreases |elems|
  {
    if elems != [] {
      BuildAllStep(v, elems);
      AllBuilt(v, elems[1..]);
      hide Build, BuildAll;
      AllOkFrom(elems);
      if BuildAll(v, elems).Ok? { NodesFrom(elems, BuildAll(v, elems[1..]).v); }
    }
  }

  lemma AllOkFrom(elems: seq<Val>)
    requires elems != []
    ensures (forall i :: 0 <= i < |elems| ==> Build(elems[i]).Ok?) <==>
      Build(elems[0]).Ok? && forall i :: 0 <= i < |elems[1..]| ==> Build(elems[1..][i]).Ok?
  {
    hide Build;
    var rest := elems[1..];
    if Build(elems[0]).Ok? && forall i :: 0 <= i < |rest| ==> Build(rest[i]).Ok? {
      forall i | 0 <= i < |elems| ensures Build(elems[i]).Ok? { if i > 0 { assert elems[i] == rest[i - 1]; } }
    }
    if forall i :: 0 <= i < |elems| ==> Build(elems[i]).Ok? {
      forall i | 0 <= i < |rest| ensures Build(rest[i]).Ok? { assert rest[i] == elems[i + 1]; }
    }
  }

  lemma NodesFrom(elems: seq<Val>, nodes: seq<Node>)
    requires elems != [] && |nodes| == |elems| - 1 && forall i :: 0 <= i < |elems| ==> Build(elems[i]).Ok?
    requires forall i :: 0 <= i < |nodes| ==> nodes[i] == Build(elems[1..][i]).v
    ensures forall i :: 0 <= i < |elems| ==> ([Build(elems[0]).v] + nodes)[i] == Build(elems[i]).v
  {
    hide Build;
    forall i | 0 <= i < |elems| ensures ([Build(elems[0]).v] + nodes)[i] == Build(elems[i]).v {
      if i > 0 { assert elems[i] == elems[1..][i - 1]; }
    }
  }

  /** An array is accepted exactly when it is empty, or all its elements are accepted and all are
      scalars that read as what the first one announces, or all arrays, or all inline tables; it
      is the nodes of its elements, for inline tables as a table array that stays as it is. */
  lemma ArrayAccepted(elems: seq<Val>)
    ensures Build(ArrayOf(elems)).Ok? <==>
      || elems == []
      || (&& (forall i :: 0 <= i < |elems| ==> Build(elems[i]).Ok?)
          && (|| (forall i :: 0 <= i < |elems| ==> elems[i].Scalar? && elems[0].Scalar?
                                                   && ReadsAs(elems[i].kind, elems[0].announced))
              || (forall i :: 0 <= i < |elems| ==> elems[i].ArrayOf?)
              || (forall i :: 0 <= i < |elems| ==> elems[i].InlineTable?)))
    ensures Build(ArrayOf([])) == Ok(Array([]))
    ensures elems != [] && Build(ArrayOf(elems)).Ok? ==>
      && var n := Build(ArrayOf(elems)).v;
         && (if elems[0].InlineTable? then n.TableArray? && n.inline else n.Array?)
         && var nodes := if elems[0].InlineTable? then n.tables else n.elems;
            |nodes| == |elems| && forall i :: 0 <= i < |elems| ==> nodes[i] == Build(elems[i]).v
  {
    var v := ArrayOf(elems);
    BuildArray(v);
    BuildArray(ArrayOf([]));
    AllBuilt(v, elems);
    hide Build, BuildAll;
    if elems != [] { UniformIs(elems); }
  }

  lemma UniformIs(elems: seq<Val>)
    requires elems != []
    ensures Uniform(elems, |elems|) <==>
      || (forall i :: 0 <= i < |elems| ==> elems[i].Scalar? && elems[0].Scalar?
                                           && ReadsAs(elems[i].kind, elems[0].announced))
      || (forall i :: 0 <= i < |elems| ==> elems[i].ArrayOf?)
      || (forall i :: 0 <= i < |elems| ==> elems[i].InlineTable?)
  {
    hide ReadsAs;
    if Uniform(elems, |elems|) {
      forall i | 0 <= i < |elems| ensures Takes(elems[0], elems[i]) {}
    } else {
      var i :| 0 <= i < |elems| && !Takes(elems[0], elems[i]);
      assert 0 <= 0 < |elems|;
    }
  }

  lemma {:induction false} ItemsAppend(v: Val, w: Val, table: Node, items: seq<Item>, item: Item)
    requires v.InlineTable? && w.InlineTable? && WellFormed(table) && table.Table?
    requires forall i :: 0 <= i < |items| ==> items[i] in v.items && items[i] in w.items
    requires item in v.items
    ensures var o := BuildItems(w, table, items);
      && (!o.Ok? ==> BuildItems(v, table, items + [item]) == ParseError)
      && (o.Ok? ==> Good(State(o.v, []))
                    && var l := LineStep(State(o.v, []), KeyValue(item));
                       BuildItems(v, table, items + [item]) == if l.Ok? then Ok(l.v.root) else ParseError)
    decreases |items|
  {
    var all := items + [item];
    if items == [] {
      BuildItemsStep(v, table, all);
      assert all[1..] == [];
      BuildItemsDone(w, table);
      if Bind(State(table, []), item).Ok? { BuildItemsDone(v, Bind(State(table, []), item).v.root); }
    } else {
      BuildItemsStep(v, table, all);
      BuildItemsStep(w, table, items);
      assert all[1..] == items[1..] + [item];
      hide BuildItems, Bind, WellFormed;
      var o := Bind(State(table, []), items[0]);
      if o.Ok? { ItemsAppend(v, w, o.v.root, items[1..], item); }
    }
  }

  /** An inline table is what its pairs make of an empty table, one line after the other; it is
      refused when one of them is. */
  lemma InlineAccepted(items: seq<Item>, item: Item)
    ensures Build(InlineTable([])) == Ok(EMPTY_TABLE)
    ensures var o := Build(InlineTable(items));
      && (!o.Ok? ==> Build(InlineTable(items + [item])) == ParseError)
      && (o.Ok? ==> Good(State(o.v, []))
                    && var l := LineStep(State(o.v, []), KeyValue(item));
                       Build(InlineTable(items + [item])) == if l.Ok? then Ok(l.v.root) else ParseError)
  {
    BuildItemsDone(InlineTable([]), EMPTY_TABLE);
    ItemsAppend(InlineTable(items + [item]), InlineTable(items), EMPTY_TABLE, items, item);
  }
}
