/** The tree that cpptoml's parser grows line by line, through a cursor into it. */
module Toml {
  datatype Kind = STRING | LOCAL_TIME | LOCAL_DATE | LOCAL_DATETIME | OFFSET_DATETIME | INT | FLOAT | BOOL

  datatype Node =
    | Value(kind: Kind, text: string)
    | Array(elems: seq<Node>)
    | Table(entries: map<string, Node>)
    | TableArray(tables: seq<Node>, inline: bool)

  const EMPTY_TABLE: Node := Table(map[])

  /** Table arrays are never empty, so their back() is defined, and they hold tables. */
  ghost predicate WellFormed(n: Node) {
    match n
    case Value(_, _) => true
    case Array(elems) => forall i :: 0 <= i < |elems| ==> WellFormed(elems[i])
    case Table(entries) => forall k | k in entries :: WellFormed(entries[k])
    case TableArray(tables, _) =>
      |tables| > 0 && forall i :: 0 <= i < |tables| ==> tables[i].Table? && WellFormed(tables[i])
  }

  /** b is a with more in it: no entry is removed, no value or array changed, and a table
      array changes only by growing, one written inline not even so. */
  ghost predicate Grows(a: Node, b: Node) {
    match a
    case Value(_, _) => b == a
    case Array(_) => b == a
    case Table(entries) => b.Table? && forall k | k in entries :: k in b.entries && Grows(entries[k], b.entries[k])
    case TableArray(tables, inline) =>
      && b.TableArray? && b.inline == inline && |tables| <= |b.tables| && (inline ==> |tables| == |b.tables|)
      && forall i :: 0 <= i < |tables| ==> Grows(tables[i], b.tables[i])
  }

  lemma {:induction false} GrowsSelf(a: Node)
    ensures Grows(a, a)
  {
    match a
    case Table(entries) => forall k | k in entries ensures Grows(entries[k], entries[k]) { GrowsSelf(entries[k]); }
    case TableArray(tables, _) =>
      forall i | 0 <= i < |tables| ensures Grows(tables[i], tables[i]) { GrowsSelf(tables[i]); }
    case _ =>
  }

  lemma {:induction false} GrowsTrans(a: Node, b: Node, c: Node)
    requires Grows(a, b) && Grows(b, c)
    ensures Grows(a, c)
  {
    match a
    case Table(entries) =>
      forall k | k in entries ensures k in c.entries && Grows(entries[k], c.entries[k]) {
        GrowsTrans(entries[k], b.entries[k], c.entries[k]);
      }
    case TableArray(tables, _) =>
      forall i | 0 <= i < |tables| ensures Grows(tables[i], c.tables[i]) {
        GrowsTrans(tables[i], b.tables[i], c.tables[i]);
      }
    case _ =>
  }

  // ---------- the cursor ----------

  /** One pointer step of the cursor: into a sub-table, or into an element of a table array. */
  datatype Step = In(key: string) | At(key: string, index: nat)

  predicate HasChild(n: Node, s: Step) {
    && n.Table? && s.key in n.entries
    && match s
       case In(key) => n.entries[key].Table?
       case At(key, i) => n.entries[key].TableArray? && i < |n.entries[key].tables|
  }

  function Child(n: Node, s: Step): (c: Node)
    requires HasChild(n, s)
    ensures c < n
  {
    match s
    case In(key) => n.entries[key]
    case At(key, i) => n.entries[key].tables[i]
  }

  function WithChild(n: Node, s: Step, c: Node): Node
    requires HasChild(n, s)
  {
    match s
    case In(key) => Table(n.entries[key := c])
    case At(key, i) => Table(n.entries[key := TableArray(n.entries[key].tables[i := c], n.entries[key].inline)])
  }

  /** The cursor points at a table of the tree. */
  predicate Points(n: Node, p: seq<Step>)
    decreases |p|
  {
    if p == [] then n.Table? else HasChild(n, p[0]) && Points(Child(n, p[0]), p[1..])
  }

  function TableAt(n: Node, p: seq<Step>): (t: Node)
    requires Points(n, p)
    ensures t.Table?
    decreases |p|
  {
    if p == [] then n else TableAt(Child(n, p[0]), p[1..])
  }

  /** The tree after the table the cursor points at has become t. */
  function WithTable(n: Node, p: seq<Step>, t: Node): Node
    requires Points(n, p)
    decreases |p|
  {
    if p == [] then t else WithChild(n, p[0], WithTable(Child(n, p[0]), p[1..], t))
  }

  lemma ChildGrows(n: Node, s: Step, c: Node)
    requires HasChild(n, s) && Grows(Child(n, s), c) && c.Table?
    ensures Grows(n, WithChild(n, s, c)) && HasChild(WithChild(n, s, c), s) && Child(WithChild(n, s, c), s) == c
  {
    GrowsSelf(n);
  }

  lemma WellFormedChild(n: Node, s: Step)
    requires HasChild(n, s) && WellFormed(n)
    ensures WellFormed(Child(n, s)) && Child(n, s).Table?
  {
  }

  lemma ChildWellFormed(n: Node, s: Step, c: Node)
    requires HasChild(n, s) && WellFormed(n) && WellFormed(c) && c.Table?
    ensures WellFormed(WithChild(n, s, c))
  {
  }

  /** Growing the table under the cursor grows the tree, which stays well formed. */
  lemma {:induction false} TableGrows(n: Node, p: seq<Step>, t: Node)
    requires Points(n, p) && Grows(TableAt(n, p), t) && t.Table?
    ensures var n' := WithTable(n, p, t); Grows(n, n') && Points(n', p) && TableAt(n', p) == t
    ensures n.Table? && WithTable(n, p, t).Table?
    ensures WellFormed(n) && WellFormed(t) ==> WellFormed(WithTable(n, p, t))
    decreases |p|
  {
    if p != [] {
      var c := Child(n, p[0]);
      if WellFormed(n) { WellFormedChild(n, p[0]); }
      TableGrows(c, p[1..], t);
      var c' := WithTable(c, p[1..], t);
      ChildGrows(n, p[0], c');
      if WellFormed(n) && WellFormed(t) { ChildWellFormed(n, p[0], c'); }
    }
  }

  /** A cursor stays good while the tree grows. */
  lemma {:induction false} PointsStays(a: Node, b: Node, p: seq<Step>)
    requires Grows(a, b) && Points(a, p)
    ensures Points(b, p) && Grows(TableAt(a, p), TableAt(b, p))
    decreases |p|
  {
    if p != [] { PointsStays(Child(a, p[0]), Child(b, p[0]), p[1..]); }
  }

  lemma {:induction false} TableAtWellFormed(n: Node, p: seq<Step>)
    requires Points(n, p) && WellFormed(n)
    ensures WellFormed(TableAt(n, p))
    decreases |p|
  {
    if p != [] { WellFormedChild(n, p[0]); TableAtWellFormed(Child(n, p[0]), p[1..]); }
  }

  lemma {:induction false} PointsSnoc(n: Node, p: seq<Step>, s: Step)
    requires Points(n, p) && HasChild(TableAt(n, p), s) && Child(TableAt(n, p), s).Table?
    ensures Points(n, p + [s]) && TableAt(n, p + [s]) == Child(TableAt(n, p), s)
    decreases |p|
  {
    if p == [] {
      assert p + [s] == [s] && [s][1..] == [];
    } else {
      PointsSnoc(Child(n, p[0]), p[1..], s);
      assert (p + [s])[1..] == p[1..] + [s];
    }
  }

  // ---------- lines ----------

  /** A value as it is written.  An inline table is a list of key-value pairs. */
  datatype Val =
    | Scalar(kind: Kind, announced: Kind, text: string)
    | ArrayOf(elems: seq<Val>)
    | InlineTable(items: seq<Item>)
  datatype Item = Item(names: seq<string>, val: Val)

  /** A line that is not blank: [names], [[names]] or names = val, the names joined by dots. */
  datatype Line =
    | TableHeader(names: seq<string>)
    | ArrayHeader(names: seq<string>)
    | KeyValue(item: Item)

  /** Where the parser is, the exception it threw, or a back() of an empty table array. */
  datatype Outcome<T> = Ok(v: T) | ParseError | Undefined

  datatype State = State(root: Node, cursor: seq<Step>)

  ghost predicate Good(s: State) { WellFormed(s.root) && Points(s.root, s.cursor) }

  /** insert() of a key into the table under the cursor */
  function Insert(s: State, key: string, n: Node): State
    requires Points(s.root, s.cursor)
  {
    State(WithTable(s.root, s.cursor, Table(TableAt(s.root, s.cursor).entries[key := n])), s.cursor)
  }

  function Down(s: State, step: Step): State { State(s.root, s.cursor + [step]) }

  /** Into the entry of a key that is there: a table, or the last table of an array. */
  function Descend(s: State, key: string): Outcome<State>
    requires Points(s.root, s.cursor) && key in TableAt(s.root, s.cursor).entries
  {
    match TableAt(s.root, s.cursor).entries[key]
    case Table(_) => Ok(Down(s, In(key)))
    case TableArray(tables, _) => if tables == [] then Undefined else Ok(Down(s, At(key, |tables| - 1)))
    case _ => ParseError
  }

  /** The key part handler of parse_single_table. */
  function SinglePart(s: State, part: string): Outcome<State>
    requires Points(s.root, s.cursor)
  {
    if part == "" then ParseError
    else if part in TableAt(s.root, s.cursor).entries then Descend(s, part)
    else Ok(Down(Insert(s, part, EMPTY_TABLE), In(part)))
  }

  /** The handler of parse_table_array at the last part of the name. */
  function LastArrayPart(s: State, part: string): Outcome<State>
    requires Points(s.root, s.cursor)
  {
    if part == "" then ParseError
    else if part in TableAt(s.root, s.cursor).entries then
      match TableAt(s.root, s.cursor).entries[part]
      case TableArray(tables, inline) =>
        if inline then ParseError
        else Ok(Down(Insert(s, part, TableArray(tables + [EMPTY_TABLE], inline)), At(part, |tables|)))
      case _ => ParseError
    else Ok(Down(Insert(s, part, TableArray([EMPTY_TABLE], false)), At(part, 0)))
  }

  /** The key part handler of parse_key_value. */
  function KeyPart(s: State, part: string): Outcome<State>
    requires Points(s.root, s.cursor)
  {
    if part in TableAt(s.root, s.cursor).entries then
      if TableAt(s.root, s.cursor).entries[part].Table? then Ok(Down(s, In(part))) else ParseError
    else Ok(Down(Insert(s, part, EMPTY_TABLE), In(part)))
  }

  // ---------- one mutation ----------

  lemma InsertGrows(s: State, key: string, n: Node)
    requires Good(s) && WellFormed(n)
    requires key in TableAt(s.root, s.cursor).entries ==> Grows(TableAt(s.root, s.cursor).entries[key], n)
    ensures Good(Insert(s, key, n)) && Grows(s.root, Insert(s, key, n).root)
    ensures TableAt(Insert(s, key, n).root, s.cursor) == Table(TableAt(s.root, s.cursor).entries[key := n])
  {
    hide Points, TableAt, WithTable;
    var t := TableAt(s.root, s.cursor);
    TableAtWellFormed(s.root, s.cursor);
    GrowsSelf(t);
    TableGrows(s.root, s.cursor, Table(t.entries[key := n]));
  }

  lemma DownGood(s: State, step: Step)
    requires Good(s) && HasChild(TableAt(s.root, s.cursor), step) && Child(TableAt(s.root, s.cursor), step).Table?
    ensures Good(Down(s, step))
  {
    PointsSnoc(s.root, s.cursor, step);
  }

  /** What each handler keeps: it ends with a good cursor in a grown tree, or with an exception. */
  ghost predicate Kept(s: State, o: Outcome<State>) {
    o == ParseError || (o.Ok? && Good(o.v) && Grows(s.root, o.v.root))
  }

  lemma DescendKeeps(s: State, key: string)
    requires Good(s) && key in TableAt(s.root, s.cursor).entries
    ensures Kept(s, Descend(s, key))
  {
    hide Points, TableAt;
    GrowsSelf(s.root);
    TableAtWellFormed(s.root, s.cursor);
    match TableAt(s.root, s.cursor).entries[key] {
      case Table(_) => DownGood(s, In(key));
      case TableArray(tables, _) => DownGood(s, At(key, |tables| - 1));
      case _ =>
    }
  }

  lemma SinglePartKeeps(s: State, part: string)
    requires Good(s)
    ensures Kept(s, SinglePart(s, part))
  {
    hide Points, TableAt, WithTable;
    if part in TableAt(s.root, s.cursor).entries {
      DescendKeeps(s, part);
    } else {
      InsertGrows(s, part, EMPTY_TABLE);
      DownGood(Insert(s, part, EMPTY_TABLE), In(part));
    }
  }

  lemma LastArrayPartKeeps(s: State, part: string)
    requires Good(s)
    ensures Kept(s, LastArrayPart(s, part))
  {
    hide Points, TableAt, WithTable;
    TableAtWellFormed(s.root, s.cursor);
    var entries := TableAt(s.root, s.cursor).entries;
    if part !in entries {
      InsertGrows(s, part, TableArray([EMPTY_TABLE], false));
      DownGood(Insert(s, part, TableArray([EMPTY_TABLE], false)), At(part, 0));
    } else if entries[part].TableArray? && !entries[part].inline {
      var more := TableArray(entries[part].tables + [EMPTY_TABLE], false);
      GrowsSelf(entries[part]);
      InsertGrows(s, part, more);
      DownGood(Insert(s, part, more), At(part, |entries[part].tables|));
    }
  }

  lemma KeyPartKeeps(s: State, part: string)
    requires Good(s)
    ensures Kept(s, KeyPart(s, part))
  {
    hide Points, TableAt, WithTable;
    if part in TableAt(s.root, s.cursor).entries {
      DescendKeeps(s, part);
    } else {
      InsertGrows(s, part, EMPTY_TABLE);
      DownGood(Insert(s, part, EMPTY_TABLE), In(part));
    }
  }

  lemma KeptThen(s: State, s1: State, o: Outcome<State>)
    requires Kept(s, Ok(s1)) && Kept(s1, o)
    ensures Kept(s, o)
  {
    if o.Ok? { GrowsTrans(s.root, s1.root, o.v.root); }
  }

  lemma KeptSelf(s: State)
    requires Good(s)
    ensures Kept(s, Ok(s))
  {
    GrowsSelf(s.root);
  }

  // ---------- names, values and lines ----------

  /** The handler of parse_single_table over a whole name. */
  function SingleParts(s: State, names: seq<string>): (o: Outcome<State>)
    requires Good(s)
    ensures Kept(s, o)
    decreases |names|
  {
    KeptSelf(s);
    if names == [] then Ok(s)
    else
      SinglePartKeeps(s, names[0]);
      match SinglePart(s, names[0])
      case Ok(s1) => (KeptThen(s, s1, SingleParts(s1, names[1..])); SingleParts(s1, names[1..]))
      case other => other
  }

  /** Whether the walk made a new table on its way. */
  predicate Inserted(s: State, names: seq<string>)
    requires Good(s)
    decreases |names|
  {
    if names == [] then false
    else
      SinglePartKeeps(s, names[0]);
      names[0] !in TableAt(s.root, s.cursor).entries
      || (SinglePart(s, names[0]).Ok? && Inserted(SinglePart(s, names[0]).v, names[1..]))
  }

  function KeyParts(s: State, names: seq<string>): (o: Outcome<State>)
    requires Good(s)
    ensures Kept(s, o)
    decreases |names|
  {
    KeptSelf(s);
    if names == [] then Ok(s)
    else
      KeyPartKeeps(s, names[0]);
      match KeyPart(s, names[0])
      case Ok(s1) => (KeptThen(s, s1, KeyParts(s1, names[1..])); KeyParts(s1, names[1..]))
      case other => other
  }

  /** base::as: a floating-point number may be had from an integer. */
  predicate ReadsAs(kind: Kind, wanted: Kind) { kind == wanted || (kind == INT && wanted == FLOAT) }

  /** An array whose first element is written like first takes the element e: a value that
      reads as what the first one announces, or the same bracket. */
  predicate Takes(first: Val, e: Val) {
    match first
    case Scalar(_, announced, _) => e.Scalar? && ReadsAs(e.kind, announced)
    case ArrayOf(_) => e.ArrayOf?
    case InlineTable(_) => e.InlineTable?
  }

  /** The first n elements are taken, the first one among them. */
  predicate Uniform(elems: seq<Val>, n: nat)
    requires n <= |elems|
  {
    forall i :: 0 <= i < n ==> Takes(elems[0], elems[i])
  }

  lemma UniformStep(elems: seq<Val>, n: nat)
    requires n < |elems|
    ensures Uniform(elems, 0)
    ensures Uniform(elems, n + 1) <==> Uniform(elems, n) && Takes(elems[0], elems[n])
    ensures Uniform(elems, |elems|) ==> Takes(elems[0], elems[n])
  {
  }

  ghost predicate BuiltWell(o: Outcome<Node>) { o == ParseError || (o.Ok? && WellFormed(o.v)) }

  /** parse_value, parse_array and parse_inline_table: the first element of an array decides
      what the others must be. */
  function Build(v: Val): (o: Outcome<Node>)
    ensures BuiltWell(o)
    ensures o.Ok? ==> (v.InlineTable? ==> o.v.Table?)
    decreases v, 1
  {
    match v
    case Scalar(kind, _, text) => Ok(Value(kind, text))
    case InlineTable(items) => BuildItems(v, EMPTY_TABLE, items)
    case ArrayOf(elems) =>
      if elems == [] then Ok(Array([]))
      else if !Uniform(elems, |elems|) then ParseError
      else
        match BuildAll(v, elems)
        case Ok(nodes) => Ok(if elems[0].InlineTable? then TableArray(nodes, true) else Array(nodes))
        case _ => ParseError
  }

  /** Scalars with the kinds and texts they have. */
  function AsValues(elems: seq<Val>): (nodes: seq<Node>)
    requires forall i :: 0 <= i < |elems| ==> elems[i].Scalar?
  {
    if elems == [] then [] else [Value(elems[0].kind, elems[0].text)] + AsValues(elems[1..])
  }

  /** An array of scalars is accepted exactly when each of them, the first one too, reads as the
      kind that the first one announces; its elements keep their kinds. */
  lemma ScalarArray(elems: seq<Val>)
    requires elems != [] && forall i :: 0 <= i < |elems| ==> elems[i].Scalar?
    ensures var o := Build(ArrayOf(elems));
      if forall i :: 0 <= i < |elems| ==> ReadsAs(elems[i].kind, elems[0].announced)
      then o == Ok(Array(AsValues(elems)))
      else o == ParseError
  {
    if forall i :: 0 <= i < |elems| ==> ReadsAs(elems[i].kind, elems[0].announced) {
      assert forall i :: 0 <= i < |elems| ==> Takes(elems[0], elems[i]);
      ScalarsBuilt(ArrayOf(elems), elems);
    } else {
      var i :| 0 <= i < |elems| && !ReadsAs(elems[i].kind, elems[0].announced);
      assert !Takes(elems[0], elems[i]);
    }
  }

  lemma {:induction false} ScalarsBuilt(v: Val, elems: seq<Val>)
    requires v.ArrayOf? && forall i :: 0 <= i < |elems| ==> elems[i] in v.elems && elems[i].Scalar?
    ensures BuildAll(v, elems) == Ok(AsValues(elems))
    decreases |elems|
  {
    if elems != [] {
      BuildAllStep(v, elems);
      hide BuildAll;
      ScalarsBuilt(v, elems[1..]);
    }
  }

  /** Integers may follow a fraction, but no fraction an integer, and a number such as 1e5,
      which announces an integer and is none, refuses itself. */
  lemma MixedNumbers(a: string, b: string)
    ensures var fraction, integer, power := Scalar(FLOAT, FLOAT, a), Scalar(INT, INT, b), Scalar(FLOAT, INT, a);
      && Build(ArrayOf([fraction, integer])) == Ok(Array([Value(FLOAT, a), Value(INT, b)]))
      && Build(ArrayOf([integer, fraction])) == ParseError
      && Build(ArrayOf([power])) == ParseError
  {
    var fraction, integer, power := Scalar(FLOAT, FLOAT, a), Scalar(INT, INT, b), Scalar(FLOAT, INT, a);
    var both := [fraction, integer];
    hide Build;
    ScalarArray(both);
    ScalarArray([integer, fraction]);
    ScalarArray([power]);
    assert [power][0] == power && [integer, fraction][1] == fraction;
    forall i | 0 <= i < |both| ensures ReadsAs(both[i].kind, both[0].announced) {
      assert i == 0 || i == 1;
    }
    assert both[1..] == [integer] && [integer][1..] == [];
    assert AsValues([integer]) == [Value(INT, b)];
    assert AsValues(both) == [Value(FLOAT, a)] + [Value(INT, b)] == [Value(FLOAT, a), Value(INT, b)];
  }

  function BuildAll(v: Val, elems: seq<Val>): (o: Outcome<seq<Node>>)
    requires v.ArrayOf? && forall i :: 0 <= i < |elems| ==> elems[i] in v.elems
    ensures o == ParseError || (o.Ok? && |o.v| == |elems|)
    ensures o.Ok? ==> forall i :: 0 <= i < |elems| ==> WellFormed(o.v[i]) && (elems[i].InlineTable? ==> o.v[i].Table?)
    decreases v, 0, |elems|
  {
    if elems == [] then Ok([])
    else
      match (Build(elems[0]), BuildAll(v, elems[1..]))
      case (Ok(n), Ok(rest)) => Ok([n] + rest)
      case _ => ParseError
  }

  function BuildItems(v: Val, table: Node, items: seq<Item>): (o: Outcome<Node>)
    requires v.InlineTable? && (forall i :: 0 <= i < |items| ==> items[i] in v.items)
    requires WellFormed(table) && table.Table?
    ensures BuiltWell(o) && (o.Ok? ==> o.v.Table?)
    decreases v, 0, |items|
  {
    if items == [] then Ok(table)
    else
      match Bind(State(table, []), items[0])
      case Ok(s) => (RootIsTable(s); BuildItems(v, s.root, items[1..]))
      case _ => ParseError
  }

  /** parse_key_value from a cursor, which it does not move. */
  function Bind(s: State, item: Item): (o: Outcome<State>)
    requires Good(s)
    ensures Kept(s, o)
    decreases item
  {
    if item.names == [] then ParseError
    else
      var key := item.names[|item.names| - 1];
      match KeyParts(s, item.names[..|item.names| - 1])
      case Ok(at) =>
        if key in TableAt(at.root, at.cursor).entries then ParseError
        else
          (match Build(item.val)
           case Ok(n) => (BindKeeps(s, at, key, n); Ok(State(Insert(at, key, n).root, s.cursor)))
           case _ => ParseError)
      case other => other
  }

  lemma BindKeeps(s: State, at: State, key: string, n: Node)
    requires Good(s) && Kept(s, Ok(at)) && WellFormed(n) && key !in TableAt(at.root, at.cursor).entries
    ensures Kept(s, Ok(State(Insert(at, key, n).root, s.cursor)))
  {
    InsertGrows(at, key, n);
    GrowsTrans(s.root, at.root, Insert(at, key, n).root);
    PointsStays(s.root, Insert(at, key, n).root, s.cursor);
  }

  lemma RootIsTable(s: State)
    requires Good(s)
    ensures s.root.Table?
  {
  }

  /** A [name] that made no table may only reopen one that was made in passing: not an empty
      one, nor one with a scalar in it; arrays do not count. */
  predicate Redefines(t: Node)
    requires t.Table?
  {
    t.entries == map[] || exists k | k in t.entries :: t.entries[k].Value?
  }

  function AtRoot(s: State): State { State(s.root, []) }

  lemma AtRootGood(s: State)
    requires Good(s)
    ensures Good(AtRoot(s))
  {
  }

  function Header(s: State, names: seq<string>): (o: Outcome<State>)
    requires Good(s)
    ensures Kept(s, o)
  {
    AtRootGood(s);
    if names == [] then ParseError
    else
      match SingleParts(AtRoot(s), names)
      case Ok(s1) =>
        if !Inserted(AtRoot(s), names) && Redefines(TableAt(s1.root, s1.cursor)) then ParseError else Ok(s1)
      case other => other
  }

  function ArrayHeaderStep(s: State, names: seq<string>): (o: Outcome<State>)
    requires Good(s)
    ensures Kept(s, o)
  {
    AtRootGood(s);
    if names == [] then ParseError
    else
      match SingleParts(AtRoot(s), names[..|names| - 1])
      case Ok(s1) =>
        (LastArrayPartKeeps(s1, names[|names| - 1]);
         KeptThen(s, s1, LastArrayPart(s1, names[|names| - 1]));
         LastArrayPart(s1, names[|names| - 1]))
      case other => other
  }

  /** One line of the file. */
  function LineStep(s: State, line: Line): (o: Outcome<State>)
    requires Good(s)
    ensures Kept(s, o)
  {
    match line
    case TableHeader(names) => Header(s, names)
    case ArrayHeader(names) => ArrayHeaderStep(s, names)
    case KeyValue(item) => Bind(s, item)
  }

  const START: State := State(EMPTY_TABLE, [])

  /** The lines parsed so far, from any good state. */
  function ParseFrom(s: State, lines: seq<Line>): (o: Outcome<State>)
    requires Good(s)
    ensures Kept(s, o)
    decreases |lines|
  {
    KeptSelf(s);
    if lines == [] then Ok(s)
    else
      match LineStep(s, lines[0])
      case Ok(s1) => (KeptThen(s, s1, ParseFrom(s1, lines[1..])); ParseFrom(s1, lines[1..]))
      case other => other
  }

  function Parse(lines: seq<Line>): Outcome<State> { ParseFrom(START, lines) }

  // ---------- over a whole parse ----------

  lemma {:induction false} ParseAppend(s: State, a: seq<Line>, b: seq<Line>)
    requires Good(s)
    ensures ParseFrom(s, a + b)
         == if ParseFrom(s, a).Ok? then ParseFrom(ParseFrom(s, a).v, b) else ParseFrom(s, a)
    decreases |a|
  {
    if a == [] {
      assert a + b == b;
    } else {
      assert (a + b)[1..] == a[1..] + b;
      if LineStep(s, a[0]).Ok? { ParseAppend(LineStep(s, a[0]).v, a[1..], b); }
    }
  }

  /** A parse ends with a tree or an exception, never at an empty back(); in the tree every
      table array has an element, and the trees of all the prefixes have grown into it. */
  lemma ParseGrows(lines: seq<Line>, i: nat)
    requires i <= |lines|
    ensures Parse(lines) != Undefined
    ensures Parse(lines).Ok? ==> WellFormed(Parse(lines).v.root)
    ensures Parse(lines).Ok? ==> Parse(lines[..i]).Ok? && Grows(Parse(lines[..i]).v.root, Parse(lines).v.root)
  {
    assert lines == lines[..i] + lines[i..];
    ParseAppend(START, lines[..i], lines[i..]);
  }

  /** The entry a path leads to. */
  predicate Bound(n: Node, p: seq<Step>, key: string) { Points(n, p) && key in TableAt(n, p).entries }

  function EntryAt(n: Node, p: seq<Step>, key: string): Node
    requires Bound(n, p, key)
  {
    TableAt(n, p).entries[key]
  }

  /** A value or an array once bound at a path stands there, unchanged, in every later tree
      of a successful parse; a table there has only grown. */
  lemma BoundForever(lines: seq<Line>, i: nat, p: seq<Step>, key: string)
    requires i <= |lines| && Parse(lines).Ok? && Parse(lines[..i]).Ok? && Bound(Parse(lines[..i]).v.root, p, key)
    ensures var was, root := EntryAt(Parse(lines[..i]).v.root, p, key), Parse(lines).v.root;
      Bound(root, p, key) && Grows(was, EntryAt(root, p, key))
      && (was.Value? || was.Array? ==> EntryAt(root, p, key) == was)
  {
    ParseGrows(lines, i);
    PointsStays(Parse(lines[..i]).v.root, Parse(lines).v.root, p);
  }

  /** The state after the first i lines. */
  function After(lines: seq<Line>, i: nat): State
    requires i <= |lines| && Parse(lines[..i]).Ok?
  {
    Parse(lines[..i]).v
  }

  /** The table a key-value line puts its entry in, in a tree that has it. */
  function TargetOf(s: State, item: Item): Outcome<State>
    requires Good(s) && item.names != []
  {
    KeyParts(s, item.names[..|item.names| - 1])
  }

  /** A key-value line that was accepted put its value where nothing was, and there it is at
      the end of the parse. */
  lemma AcceptedIsKept(lines: seq<Line>, i: nat)
    requires i < |lines| && lines[i].KeyValue? && Parse(lines).Ok?
    ensures lines[i].item.names != [] && Build(lines[i].item.val).Ok?
    ensures Parse(lines[..i]).Ok? && TargetOf(After(lines, i), lines[i].item).Ok?
    ensures
      var item, path := lines[i].item, TargetOf(After(lines, i), lines[i].item).v.cursor;
      var key := item.names[|item.names| - 1];
      && !Bound(After(lines, i).root, path, key)
      && Bound(Parse(lines).v.root, path, key)
      && Grows(Build(item.val).v, EntryAt(Parse(lines).v.root, path, key))
  {
    ParseGrows(lines, i);
    ParseGrows(lines, i + 1);
    ParseStep(lines, i);
    hide KeyParts, Build, Insert, Points, TableAt, Grows, WellFormed;
    var s, item := Parse(lines[..i]).v, lines[i].item;
    assert Bind(s, item).Ok?;
    var at, key, n := KeyParts(s, item.names[..|item.names| - 1]).v, item.names[|item.names| - 1], Build(item.val).v;
    InsertGrows(at, key, n);
    PointsStays(at.root, Insert(at, key, n).root, at.cursor);
    BoundForever(lines, i + 1, at.cursor, key);
    if Bound(s.root, at.cursor, key) { PointsStays(s.root, at.root, at.cursor); }
  }

  lemma ParseStep(lines: seq<Line>, i: nat)
    requires i < |lines| && Parse(lines[..i]).Ok?
    ensures Parse(lines[..i + 1]) == LineStep(Parse(lines[..i]).v, lines[i])
  {
    assert lines[..i + 1] == lines[..i] + [lines[i]];
    ParseAppend(START, lines[..i], [lines[i]]);
    OneLine(Parse(lines[..i]).v, lines[i]);
  }

  lemma OneLine(s: State, line: Line)
    requires Good(s)
    ensures ParseFrom(s, [line]) == LineStep(s, line)
  {
    hide LineStep;
    assert [line][1..] == [];
  }

  // ---------- where a header leaves the cursor ----------

  /** The table in which the last part of an array header's name is, was and will be looked up. */
  function HolderOf(s: State, names: seq<string>): Outcome<State>
    requires Good(s) && names != []
  {
    AtRootGood(s);
    SingleParts(AtRoot(s), names[..|names| - 1])
  }

  /** s' has a new, empty table under the cursor, the last of the table array at key in the
      table at p; the array has one element more than in that table before, or one. */
  predicate Appended(before: Node, s': State, p: seq<Step>, key: string)
    requires before.Table?
  {
    && Points(s'.root, p) && key in TableAt(s'.root, p).entries
    && Points(s'.root, s'.cursor) && TableAt(s'.root, s'.cursor) == EMPTY_TABLE
    && (key in before.entries ==> before.entries[key].TableArray?)
    && var now := TableAt(s'.root, p).entries[key];
       now.TableArray? && |now.tables| == 1 + (if key in before.entries then |before.entries[key].tables| else 0)
       && s'.cursor == p + [At(key, |now.tables| - 1)]
  }

  /** An accepted [[name]] appends a new table to the array and leaves the cursor there. */
  lemma ArrayHeaderAppends(s: State, names: seq<string>)
    requires Good(s) && names != [] && ArrayHeaderStep(s, names).Ok?
    ensures HolderOf(s, names).Ok?
    ensures var at := HolderOf(s, names).v;
      Appended(TableAt(at.root, at.cursor), ArrayHeaderStep(s, names).v, at.cursor, names[|names| - 1])
  {
    var at := HolderOf(s, names).v;
    hide Points, TableAt, WithTable, WellFormed, Grows, SingleParts, Appended;
    LastPartAppends(at, names[|names| - 1]);
  }

  lemma LastPartAppends(s: State, key: string)
    requires Good(s) && LastArrayPart(s, key).Ok?
    ensures Appended(TableAt(s.root, s.cursor), LastArrayPart(s, key).v, s.cursor, key)
  {
    hide Points, TableAt, WithTable;
    LastArrayPartKeeps(s, key);
    TableAtWellFormed(s.root, s.cursor);
    var entries := TableAt(s.root, s.cursor).entries;
    var more := TableArray((if key in entries then entries[key].tables else []) + [EMPTY_TABLE], false);
    assert [] + [EMPTY_TABLE] == [EMPTY_TABLE];
    if key in entries { GrowsSelf(entries[key]); }
    InsertGrows(s, key, more);
    PointsSnoc(Insert(s, key, more).root, s.cursor, At(key, |more.tables| - 1));
  }

  /** Below a table that is empty every part of a name is new. */
  lemma {:induction false} NewBelowEmpty(s: State, names: seq<string>)
    requires Good(s) && SingleParts(s, names).Ok? && TableAt(s.root, s.cursor) == EMPTY_TABLE
    ensures TableAt(SingleParts(s, names).v.root, SingleParts(s, names).v.cursor) == EMPTY_TABLE
    decreases |names|
  {
    if names != [] {
      SinglePartMakes(s, names[0]);
      SinglePartKeeps(s, names[0]);
      NewBelowEmpty(SinglePart(s, names[0]).v, names[1..]);
    }
  }

  lemma SinglePartMakes(s: State, part: string)
    requires Good(s) && SinglePart(s, part).Ok? && part !in TableAt(s.root, s.cursor).entries
    ensures var s' := SinglePart(s, part).v; Points(s'.root, s'.cursor) && TableAt(s'.root, s'.cursor) == EMPTY_TABLE
  {
    hide Points, TableAt, WithTable;
    InsertGrows(s, part, EMPTY_TABLE);
    PointsSnoc(Insert(s, part, EMPTY_TABLE).root, s.cursor, In(part));
  }

  lemma {:induction false} InsertedIsEmpty(s: State, names: seq<string>)
    requires Good(s) && SingleParts(s, names).Ok? && Inserted(s, names)
    ensures TableAt(SingleParts(s, names).v.root, SingleParts(s, names).v.cursor) == EMPTY_TABLE
    decreases |names|
  {
    SinglePartKeeps(s, names[0]);
    if names[0] !in TableAt(s.root, s.cursor).entries {
      SinglePartMakes(s, names[0]);
      NewBelowEmpty(SinglePart(s, names[0]).v, names[1..]);
    } else {
      InsertedIsEmpty(SinglePart(s, names[0]).v, names[1..]);
    }
  }

  /** An accepted [name] leaves the cursor at a table without scalars: a new, empty one, or
      one that was made in passing and has something in it. */
  lemma HeaderOpens(s: State, names: seq<string>)
    requires Good(s) && Header(s, names).Ok?
    ensures var s' := Header(s, names).v; var t := TableAt(s'.root, s'.cursor);
      && (t.entries == map[] <==> Inserted(AtRoot(s), names))
      && forall k | k in t.entries :: !t.entries[k].Value?
  {
    AtRootGood(s);
    hide SingleParts, Inserted, TableAt, Points, WellFormed, Grows;
    if Inserted(AtRoot(s), names) { InsertedIsEmpty(AtRoot(s), names); }
  }

  // ---------- the parsers of values and keys ----------

  lemma BuildAllStep(v: Val, elems: seq<Val>)
    requires v.ArrayOf? && elems != [] && forall i :: 0 <= i < |elems| ==> elems[i] in v.elems
    ensures BuildAll(v, elems) == match (Build(elems[0]), BuildAll(v, elems[1..]))
            case (Ok(n), Ok(rest)) => Ok([n] + rest)
            case _ => ParseError
  {
  }

  function Joined(nodes: seq<Node>, o: Outcome<seq<Node>>): Outcome<seq<Node>> {
    if o.Ok? then Ok(nodes + o.v) else o
  }

  lemma JoinedStep(v: Val, nodes: seq<Node>, elems: seq<Val>)
    requires v.ArrayOf? && elems != [] && forall i :: 0 <= i < |elems| ==> elems[i] in v.elems
    ensures Build(elems[0]).Ok? ==>
      Joined(nodes, BuildAll(v, elems)) == Joined(nodes + [Build(elems[0]).v], BuildAll(v, elems[1..]))
    ensures !Build(elems[0]).Ok? ==> BuildAll(v, elems) == ParseError
  {
    BuildAllStep(v, elems);
    hide Build, BuildAll;
    var n, rest := Build(elems[0]), BuildAll(v, elems[1..]);
    if n.Ok? && rest.Ok? { Regroup(nodes, [n.v], rest.v); }
  }

  lemma Regroup(a: seq<Node>, b: seq<Node>, c: seq<Node>)
    ensures a + b + c == a + (b + c)
  {
  }

  lemma JoinedNone(o: Outcome<seq<Node>>)
    ensures Joined([], o) == o
  {
    if o.Ok? { assert [] + o.v == o.v; }
  }

  lemma BuildItemsStep(v: Val, table: Node, items: seq<Item>)
    requires v.InlineTable? && items != [] && (forall i :: 0 <= i < |items| ==> items[i] in v.items)
    requires WellFormed(table) && table.Table?
    ensures var s := Bind(State(table, []), items[0]);
      (s.Ok? ==> s.v.root.Table? && WellFormed(s.v.root) && s.v.cursor == []
                 && BuildItems(v, table, items) == BuildItems(v, s.v.root, items[1..]))
      && (!s.Ok? ==> BuildItems(v, table, items) == ParseError)
  {
    var s := Bind(State(table, []), items[0]);
    if s.Ok? { RootIsTable(s.v); }
  }

  lemma BuildItemsDone(v: Val, table: Node)
    requires v.InlineTable? && WellFormed(table) && table.Table?
    ensures BuildItems(v, table, []) == Ok(table)
  {
  }

  lemma KeyPartsStep(s: State, names: seq<string>)
    requires Good(s) && names != []
    ensures Kept(s, KeyPart(s, names[0]))
    ensures var o := KeyPart(s, names[0]);
      KeyParts(s, names) == if o.Ok? then KeyParts(o.v, names[1..]) else o
  {
    KeyPartKeeps(s, names[0]);
  }

  lemma KeyPartsDone(s: State, names: seq<string>)
    requires Good(s) && names == []
    ensures KeyParts(s, names) == Ok(s)
  {
  }

  method ParseValue(v: Val) returns (ok: bool, n: Node)
    ensures if Build(v).Ok? then ok && n == Build(v).v else !ok
    decreases v, 1
  {
    match v
    case Scalar(kind, _, text) => return true, Value(kind, text);
    case ArrayOf(_) => ok, n := ParseArray(v);
    case InlineTable(_) => ok, n := ParseInlineTable(v);
  }

  method ParseArray(v: Val) returns (ok: bool, n: Node)
    requires v.ArrayOf?
    ensures if Build(v).Ok? then ok && n == Build(v).v else !ok
    decreases v, 0, 2
  {
    hide *;
    var elems := v.elems;
    BuildArray(v);
    if elems == [] { return true, Array([]); }
    var nodes;
    ok, nodes := ParseElements(v);
    n := if elems[0].InlineTable? then TableArray(nodes, true) else Array(nodes);
  }

  /** What an array is, from what its elements are. */
  lemma BuildArray(v: Val)
    requires v.ArrayOf?
    ensures v.elems == [] ==> Build(v) == Ok(Array([]))
    ensures v.elems != [] ==>
      Build(v) == if Uniform(v.elems, |v.elems|) && BuildAll(v, v.elems).Ok?
                  then Ok(if v.elems[0].InlineTable? then TableArray(BuildAll(v, v.elems).v, true)
                          else Array(BuildAll(v, v.elems).v))
                  else ParseError
  {
    hide Uniform, BuildAll;
  }

  /** The loop of parse_value_array and of parse_object_array. */
  method ParseElements(v: Val) returns (ok: bool, nodes: seq<Node>)
    requires v.ArrayOf? && v.elems != []
    ensures if Uniform(v.elems, |v.elems|) && BuildAll(v, v.elems).Ok? then ok && nodes == BuildAll(v, v.elems).v else !ok
    decreases v, 0, 1
  {
    hide *;
    var elems, i := v.elems, 0;
    nodes := [];
    assert elems[0..] == elems;
    JoinedNone(BuildAll(v, elems));
    UniformStep(elems, 0);
    while i < |elems|
      invariant i <= |elems| && Uniform(elems, i)
      invariant BuildAll(v, elems) == Joined(nodes, BuildAll(v, elems[i..]))
    {
      UniformStep(elems, i);
      if !Takes(elems[0], elems[i]) { return false, []; }
      var built, elem := ParseElement(v, elems, i, nodes);
      if !built { return false, []; }
      nodes := nodes + [elem];
      i := i + 1;
    }
    BuildAllDone(v, elems[i..], nodes);
    ok := true;
  }

  /** The element at i, as one step of BuildAll. */
  method ParseElement(v: Val, elems: seq<Val>, i: nat, ghost nodes: seq<Node>) returns (ok: bool, elem: Node)
    requires v.ArrayOf? && elems == v.elems && i < |elems|
    requires BuildAll(v, elems) == Joined(nodes, BuildAll(v, elems[i..]))
    ensures if ok then BuildAll(v, elems) == Joined(nodes + [elem], BuildAll(v, elems[i + 1..]))
            else BuildAll(v, elems) == ParseError
    decreases v, 0, 0
  {
    hide BuildAll, Build, Joined;
    JoinedStep(v, nodes, elems[i..]);
    JoinedError(nodes);
    assert elems[i..][1..] == elems[i + 1..];
    ok, elem := ParseValue(elems[i]);
  }

  lemma JoinedError(nodes: seq<Node>)
    ensures Joined(nodes, ParseError) == ParseError
  {
  }

  lemma BuildAllDone(v: Val, elems: seq<Val>, nodes: seq<Node>)
    requires v.ArrayOf? && elems == []
    ensures Joined(nodes, BuildAll(v, elems)) == Ok(nodes)
  {
    assert nodes + [] == nodes;
  }

  method ParseInlineTable(v: Val) returns (ok: bool, tbl: Node)
    requires v.InlineTable?
    ensures if Build(v).Ok? then ok && tbl == Build(v).v else !ok
    decreases v, 0
  {
    var items := v.items;
    hide BuildItems, Bind, Grows;
    tbl := EMPTY_TABLE;
    var i := 0;
    assert items[0..] == items;
    while i < |items|
      invariant i <= |items| && tbl.Table? && WellFormed(tbl)
      invariant BuildItems(v, EMPTY_TABLE, items) == BuildItems(v, tbl, items[i..])
    {
      BuildItemsStep(v, tbl, items[i..]);
      assert items[i..][1..] == items[i + 1..];
      ok, tbl := ParseKeyValue(tbl, [], items[i]);
      if !ok { return; }
      i := i + 1;
    }
    assert items[i..] == [];
    BuildItemsDone(v, tbl);
    ok := true;
  }

  /** parse_key_value: root after the pair has been added below the table at cursor. */
  method ParseKeyValue(before: Node, cursor: seq<Step>, item: Item) returns (ok: bool, root: Node)
    requires Good(State(before, cursor))
    ensures Ended(ok, State(root, cursor), Bind(State(before, cursor), item))
    decreases item
  {
    hide Points, TableAt, WithTable, WellFormed, Grows;
    ok, root := false, before;
    if item.names == [] { return; }
    var parts, key, curr, i := item.names[..|item.names| - 1], item.names[|item.names| - 1], cursor, 0;
    assert parts[0..] == parts;
    while i < |parts|
      invariant i <= |parts| && Good(State(root, curr))
      invariant KeyParts(State(before, cursor), parts) == KeyParts(State(root, curr), parts[i..])
    {
      KeyPartsStep(State(root, curr), parts[i..]);
      assert parts[i..][1..] == parts[i + 1..];
      var entries := TableAt(root, curr).entries;
      if parts[i] in entries {
        if !entries[parts[i]].Table? { return; }
      } else {
        root := WithTable(root, curr, Table(entries[parts[i] := EMPTY_TABLE]));
      }
      curr := curr + [In(parts[i])];
      i := i + 1;
    }
    KeyPartsDone(State(root, curr), parts[i..]);
    if key in TableAt(root, curr).entries { return; }
    var built, n := ParseValue(item.val);
    if !built { return; }
    return true, WithTable(root, curr, Table(TableAt(root, curr).entries[key := n]));
  }

  // ---------- the parser object ----------

  /** How a method that may throw ended, against the outcome it should have. */
  ghost predicate Ended(ok: bool, s: State, o: Outcome<State>) { if o.Ok? then ok && s == o.v else !ok }

  class Parser {
    var root: Node
    var currTable: seq<Step>

    constructor ()
      ensures Now() == START && Good(Now())
    {
      root, currTable := EMPTY_TABLE, [];
    }

    ghost function Now(): State
      reads this
    {
      State(root, currTable)
    }

    /** key_part_handler of parse_single_table; tells whether it made a table. */
    method SingleTablePart(part: string) returns (ok: bool, inserted: bool)
      requires Good(Now())
      modifies this
      ensures Ended(ok, Now(), SinglePart(old(Now()), part))
      ensures ok ==> Good(Now()) && inserted == (part !in TableAt(old(root), old(currTable)).entries)
    {
      hide Points, TableAt, WithTable;
      SinglePartKeeps(Now(), part);
      TableAtWellFormed(root, currTable);
      if part == "" { return false, false; }
      var entries := TableAt(root, currTable).entries;
      if part in entries {
        match entries[part] {
          case Table(_) => currTable := currTable + [In(part)];
          case TableArray(tables, _) => currTable := currTable + [At(part, |tables| - 1)];
          case _ => return false, false;
        }
        return true, false;
      }
      root := WithTable(root, currTable, Table(entries[part := EMPTY_TABLE]));
      currTable := currTable + [In(part)];
      return true, true;
    }

    /** key_part_handler of parse_table_array at the end of the name. */
    method TableArrayEnd(part: string) returns (ok: bool)
      requires Good(Now())
      modifies this
      ensures Ended(ok, Now(), LastArrayPart(old(Now()), part))
      ensures ok ==> Good(Now())
    {
      hide Points, TableAt, WithTable;
      LastArrayPartKeeps(Now(), part);
      if part == "" { return false; }
      var entries := TableAt(root, currTable).entries;
      if part !in entries {
        root := WithTable(root, currTable, Table(entries[part := TableArray([EMPTY_TABLE], false)]));
        currTable := currTable + [At(part, 0)];
        return true;
      }
      match entries[part]
      case TableArray(tables, inline) =>
        if inline { return false; }
        root := WithTable(root, currTable, Table(entries[part := TableArray(tables + [EMPTY_TABLE], inline)]));
        currTable := currTable + [At(part, |tables|)];
        return true;
      case _ => return false;
    }

    /** The loop of parse_key with the handler of parse_single_table. */
    method SingleTableParts(names: seq<string>) returns (ok: bool, inserted: bool)
      requires Good(Now())
      modifies this
      ensures Ended(ok, Now(), SingleParts(old(Now()), names))
      ensures ok ==> Good(Now()) && inserted == Inserted(old(Now()), names)
    {
      hide SinglePart, Good, TableAt;
      ok, inserted := true, false;
      var i := 0;
      assert names[0..] == names;
      while i < |names|
        invariant i <= |names| && Good(Now())
        invariant SingleParts(old(Now()), names) == SingleParts(Now(), names[i..])
        invariant Inserted(old(Now()), names) == (inserted || Inserted(Now(), names[i..]))
      {
        ghost var before := Now();
        SinglePartsStep(before, names[i..]);
        assert names[i..][1..] == names[i + 1..];
        var made: bool;
        ok, made := SingleTablePart(names[i]);
        if !ok { return; }
        inserted := inserted || made;
        i := i + 1;
      }
      SinglePartsDone(Now(), names[i..]);
    }

    method ParseSingleTable(names: seq<string>) returns (ok: bool)
      requires Good(Now())
      modifies this
      ensures Ended(ok, Now(), Header(old(Now()), names)) && (ok ==> Good(Now()))
    {
      hide SingleParts, Inserted, TableAt;
      AtRootGood(Now());
      if names == [] { return false; }
      currTable := [];
      var inserted: bool;
      ok, inserted := SingleTableParts(names);
      if ok && !inserted && Redefines(TableAt(root, currTable)) { ok := false; }
    }

    method ParseTableArray(names: seq<string>) returns (ok: bool)
      requires Good(Now())
      modifies this
      ensures Ended(ok, Now(), ArrayHeaderStep(old(Now()), names)) && (ok ==> Good(Now()))
    {
      hide SingleParts, LastArrayPart, TableAt;
      AtRootGood(Now());
      if names == [] { return false; }
      currTable := [];
      var inserted: bool;
      ok, inserted := SingleTableParts(names[..|names| - 1]);
      if ok { ok := TableArrayEnd(names[|names| - 1]); }
    }

    /** One turn of the loop of parse. */
    method ParseLine(line: Line) returns (ok: bool)
      requires Good(Now())
      modifies this
      ensures Ended(ok, Now(), LineStep(old(Now()), line)) && (ok ==> Good(Now()))
    {
      hide Header, ArrayHeaderStep, Bind, Good;
      match line
      case TableHeader(names) => ok := ParseSingleTable(names);
      case ArrayHeader(names) => ok := ParseTableArray(names);
      case KeyValue(item) => ok, root := ParseKeyValue(root, currTable, item);
    }

    /** The tree of a whole file, for a parser as its constructor left it. */
    method ParseLines(lines: seq<Line>) returns (ok: bool)
      requires Now() == START && Good(START)
      modifies this
      ensures Ended(ok, Now(), Parse(lines))
    {
      hide LineStep, ParseFrom, Good;
      ok := true;
      var i := 0;
      assert lines[0..] == lines;
      while i < |lines|
        invariant i <= |lines| && Good(Now()) && Parse(lines) == ParseFrom(Now(), lines[i..])
      {
        ParseFirst(Now(), lines[i..]);
        assert lines[i..][1..] == lines[i + 1..];
        ok := ParseLine(lines[i]);
        if !ok { return; }
        i := i + 1;
      }
      ParseNone(Now(), lines[i..]);
    }
  }

  lemma ParseFirst(s: State, lines: seq<Line>)
    requires Good(s) && lines != []
    ensures var o := LineStep(s, lines[0]);
      ParseFrom(s, lines) == if o.Ok? then ParseFrom(o.v, lines[1..]) else o
  {
  }

  lemma ParseNone(s: State, lines: seq<Line>)
    requires Good(s) && lines == []
    ensures ParseFrom(s, lines) == Ok(s)
  {
  }

  lemma SinglePartsStep(s: State, names: seq<string>)
    requires Good(s) && names != []
    ensures Kept(s, SinglePart(s, names[0]))
    ensures var o := SinglePart(s, names[0]);
      SingleParts(s, names) == if o.Ok? then SingleParts(o.v, names[1..]) else o
    ensures Inserted(s, names) == (names[0] !in TableAt(s.root, s.cursor).entries
            || (SinglePart(s, names[0]).Ok? && Inserted(SinglePart(s, names[0]).v, names[1..])))
  {
    SinglePartKeeps(s, names[0]);
  }

  lemma SinglePartsDone(s: State, names: seq<string>)
    requires Good(s) && names == []
    ensures SingleParts(s, names) == Ok(s) && !Inserted(s, names)
  {
  }
}
