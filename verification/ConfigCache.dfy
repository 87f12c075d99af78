/** ConfigurationTable: a cache over the CONFIG table of a database that others may write. */
module ConfigCache {
  import opened Wrappers

  type Rows = map<string, string>

  /** A record per key: a value, or the cached knowledge that there is none. */
  type Cache = map<string, Option<string>>

  /** The meaning of a key: its row, else its default in the schema, else nothing. */
  function Resolve(db: Rows, schema: Rows, key: string): Option<string> {
    if key in db then Some(db[key]) else if key in schema then Some(schema[key]) else None
  }

  const PURGE_PERIOD: int := 3

  /** checkCacheAge: the cache and the time of the last purge, which all tables share. */
  function Aged(cache: Cache, lastPurge: int, now: int): Cache {
    if now - lastPurge < PURGE_PERIOD then cache else map[]
  }

  function PurgeTime(lastPurge: int, now: int): int {
    if now - lastPurge < PURGE_PERIOD then lastPurge else now
  }

  /** The cache after a lookup of key; the result is its record there. */
  function Looked(cache: Cache, db: Rows, schema: Rows, key: string): (c: Cache)
    ensures key in c
  {
    if key in cache then cache else cache[key := Resolve(db, schema, key)]
  }

  // ---------- the object ----------

  class Database {
    var rows: Rows

    constructor (rows: Rows)
      ensures this.rows == rows
    {
      this.rows := rows;
    }
  }

  /** The static variable of checkCacheAge. */
  class PurgeClock {
    var timeOfLastPurge: int

    constructor ()
      ensures timeOfLastPurge == 0
    {
      timeOfLastPurge := 0;
    }
  }

  class ConfigurationTable {
    const mDB: Database
    const mSchema: Rows
    const clock: PurgeClock
    var mCache: Cache

    constructor (db: Database, schema: Rows, clock: PurgeClock)
      ensures mDB == db && mSchema == schema && this.clock == clock && mCache == map[]
    {
      mDB, mSchema, this.clock, mCache := db, schema, clock, map[];
    }

    method CheckCacheAge(now: int)
      modifies this, clock
      ensures mCache == Aged(old(mCache), old(clock.timeOfLastPurge), now)
      ensures clock.timeOfLastPurge == PurgeTime(old(clock.timeOfLastPurge), now)
    {
      if now - clock.timeOfLastPurge < PURGE_PERIOD { return; }
      clock.timeOfLastPurge := now;
      EraseAll();
    }

    /** The loop that purge and checkCacheAge share: entries are erased one by one. */
    method EraseAll()
      modifies this
      ensures mCache == map[]
    {
      while mCache != map[]
        decreases |mCache|
      {
        var key :| key in mCache;
        assert |mCache - {key}| < |mCache| by { Fewer(mCache, key); }
        mCache := mCache - {key};
      }
    }

    /** None is the exception that the key was not found. */
    method Lookup(key: string, now: int) returns (r: Option<string>)
      modifies this, clock
      ensures mCache == Looked(Aged(old(mCache), old(clock.timeOfLastPurge), now), mDB.rows, mSchema, key)
      ensures r == mCache[key] && clock.timeOfLastPurge == PurgeTime(old(clock.timeOfLastPurge), now)
    {
      CheckCacheAge(now);
      if key in mCache { return mCache[key]; }
      var value := if key in mDB.rows then Some(mDB.rows[key]) else None;
      if value.Some? {
        mCache := mCache[key := value];
      } else if key in mSchema {
        mCache := mCache[key := Some(mSchema[key])];
      } else {
        mCache := mCache[key := None];
      }
      return mCache[key];
    }

    method Defines(key: string, now: int) returns (b: bool)
      modifies this, clock
      ensures b == Looked(Aged(old(mCache), old(clock.timeOfLastPurge), now), mDB.rows, mSchema, key)[key].Some?
    {
      var r := Lookup(key, now);
      b := r.Some?;
    }

    /** succeeds tells how the SQL command ends. */
    method Set(key: string, value: string, succeeds: bool) returns (success: bool)
      modifies this, mDB
      ensures success == succeeds
      ensures mDB.rows == if succeeds then old(mDB.rows)[key := value] else old(mDB.rows)
      ensures mCache == if succeeds then old(mCache)[key := Some(value)] else old(mCache)
    {
      if succeeds {
        mDB.rows := mDB.rows[key := value];
        mCache := mCache[key := Some(value)];
      }
      success := succeeds;
    }

    method Remove(key: string, succeeds: bool) returns (success: bool)
      modifies this, mDB
      ensures success == succeeds && mCache == old(mCache) - {key}
      ensures mDB.rows == if succeeds then old(mDB.rows) - {key} else old(mDB.rows)
    {
      mCache := mCache - {key};
      if succeeds { mDB.rows := mDB.rows - {key}; }
      success := succeeds;
    }

    method Purge()
      modifies this
      ensures mCache == map[]
    {
      EraseAll();
    }
  }

  lemma Fewer(m: Cache, key: string)
    requires key in m
    ensures |m - {key}| < |m|
  {
    assert (m - {key}).Keys == m.Keys - {key};
    assert |(m - {key}).Keys| == |m.Keys| - 1;
  }

  // ---------- runs of several tables over one database ----------

  datatype Event =
    | Lookup(table: nat, key: string)
    | Set(table: nat, key: string, value: string, succeeds: bool)
    | Remove(table: nat, key: string, succeeds: bool)
    | Purge(table: nat)
    | Outside(rows: Rows)       // another process has changed the database

  datatype Timed = Timed(now: int, event: Event)

  /** What the database was at a moment. */
  datatype Moment = Moment(time: int, db: Rows)

  /** The tables' caches, the purge time they share, the database and its past. */
  datatype World = World(schema: Rows, db: Rows, caches: seq<Cache>, lastPurge: int, past: seq<Moment>)

  function Start(n: nat, schema: Rows, db: Rows): World {
    World(schema, db, seq(n, _ => map[]), 0, [])
  }

  predicate Happens(w: World, e: Event) { e.Outside? || e.table < |w.caches| }

  function CacheAfter(w: World, e: Event, now: int): Cache
    requires Happens(w, e) && !e.Outside?
  {
    var cache := w.caches[e.table];
    match e
    case Lookup(_, key) => Looked(Aged(cache, w.lastPurge, now), w.db, w.schema, key)
    case Set(_, key, value, succeeds) => if succeeds then cache[key := Some(value)] else cache
    case Remove(_, key, _) => cache - {key}
    case Purge(_) => map[]
  }

  function DbAfter(db: Rows, e: Event): Rows {
    match e
    case Set(_, key, value, succeeds) => if succeeds then db[key := value] else db
    case Remove(_, key, succeeds) => if succeeds then db - {key} else db
    case Outside(rows) => rows
    case _ => db
  }

  function Next(w: World, t: Timed): World
    requires Happens(w, t.event)
  {
    var db := DbAfter(w.db, t.event);
    World(w.schema, db,
          if t.event.Outside? then w.caches else w.caches[t.event.table := CacheAfter(w, t.event, t.now)],
          if t.event.Lookup? then PurgeTime(w.lastPurge, t.now) else w.lastPurge,
          w.past + [Moment(t.now, db)])
  }

  /** What a lookup returns. */
  function Found(w: World, t: Timed): Option<string>
    requires t.event.Lookup? && Happens(w, t.event)
  {
    CacheAfter(w, t.event, t.now)[t.event.key]
  }

  /** The result is what the database resolved to at a moment less than d seconds before. */
  ghost predicate Recent(w: World, t: Timed, d: int)
    requires t.event.Lookup? && Happens(w, t.event)
  {
    var past := w.past + [Moment(t.now, w.db)];
    exists i :: 0 <= i < |past| && t.now - past[i].time < d
                && Found(w, t) == Resolve(past[i].db, w.schema, t.event.key)
  }

  /** The result is what the database resolves to now. */
  predicate Exact(w: World, t: Timed)
    requires t.event.Lookup? && Happens(w, t.event)
  {
    Found(w, t) == Resolve(w.db, w.schema, t.event.key)
  }

  /** Events in the order of a clock that does not go back. */
  predicate InOrder(w: World, from: int, run: seq<Timed>)
    decreases |run|
  {
    run != [] ==> from <= run[0].now && Happens(w, run[0].event) && InOrder(Next(w, run[0]), run[0].now, run[1..])
  }

  ghost predicate AllRecent(w: World, from: int, run: seq<Timed>, d: int)
    requires InOrder(w, from, run)
    decreases |run|
  {
    run != [] ==> (run[0].event.Lookup? ==> Recent(w, run[0], d)) && AllRecent(Next(w, run[0]), run[0].now, run[1..], d)
  }

  predicate AllExact(w: World, from: int, run: seq<Timed>)
    requires InOrder(w, from, run)
    decreases |run|
  {
    run != [] ==> (run[0].event.Lookup? ==> Exact(w, run[0])) && AllExact(Next(w, run[0]), run[0].now, run[1..])
  }

  // ---------- one table ----------

  /** Every cached record was right at some moment since the last purge. */
  ghost predicate Timely(w: World, from: int) {
    && |w.caches| <= 1 && w.lastPurge <= from
    && (|w.caches| == 1 ==> forall key | key in w.caches[0] :: Since(w, key))
  }

  ghost predicate Since(w: World, key: string)
    requires |w.caches| == 1 && key in w.caches[0]
  {
    exists i :: 0 <= i < |w.past| && w.lastPurge <= w.past[i].time
                && w.caches[0][key] == Resolve(w.past[i].db, w.schema, key)
  }

  lemma SinceStays(w: World, w': World, key: string)
    requires |w.caches| == |w'.caches| == 1 && key in w.caches[0] && Since(w, key)
    requires key in w'.caches[0] && w'.caches[0][key] == w.caches[0][key]
    requires w.past <= w'.past && w'.lastPurge == w.lastPurge && w'.schema == w.schema
    ensures Since(w', key)
  {
    var i :| 0 <= i < |w.past| && w.lastPurge <= w.past[i].time
             && w.caches[0][key] == Resolve(w.past[i].db, w.schema, key);
    assert w'.past[i] == w.past[i];
  }

  /** A record just made from the database of the last moment. */
  lemma SinceNow(w: World, key: string)
    requires |w.caches| == 1 && key in w.caches[0] && w.past != []
    requires w.lastPurge <= w.past[|w.past| - 1].time
    requires w.caches[0][key] == Resolve(w.past[|w.past| - 1].db, w.schema, key)
    ensures Since(w, key)
  {
  }

  lemma NextTimely(w: World, from: int, t: Timed)
    requires Timely(w, from) && from <= t.now && Happens(w, t.event)
    ensures Timely(Next(w, t), t.now)
  {
    var w' := Next(w, t);
    if |w.caches| == 1 {
      forall key | key in w'.caches[0] ensures Since(w', key) {
        hide Since, Resolve;
        if key in w.caches[0] && w'.caches[0][key] == w.caches[0][key] && w'.lastPurge == w.lastPurge {
          SinceStays(w, w', key);
        } else {
          RecordIsNew(w, t, key);
          SinceNow(w', key);
        }
      }
    }
  }

  lemma RecordIsNew(w: World, t: Timed, key: string)
    requires |w.caches| == 1 && Happens(w, t.event) && key in Next(w, t).caches[0]
    requires !(key in w.caches[0] && Next(w, t).caches[0][key] == w.caches[0][key] && Next(w, t).lastPurge == w.lastPurge)
    ensures Next(w, t).caches[0][key] == Resolve(Next(w, t).db, w.schema, key)
  {
  }

  lemma LookupIsRecent(w: World, from: int, t: Timed)
    requires Timely(w, from) && from <= t.now && Happens(w, t.event) && t.event.Lookup?
    ensures Recent(w, t, PURGE_PERIOD)
  {
    NextTimely(w, from, t);
    var w', key := Next(w, t), t.event.key;
    assert Since(w', key);
    var i :| 0 <= i < |w'.past| && w'.lastPurge <= w'.past[i].time
             && w'.caches[0][key] == Resolve(w'.past[i].db, w'.schema, key);
    assert w'.past == w.past + [Moment(t.now, w.db)];
  }

  lemma {:induction false} OneTableRecent(w: World, from: int, run: seq<Timed>)
    requires Timely(w, from) && InOrder(w, from, run)
    ensures AllRecent(w, from, run, PURGE_PERIOD)
    decreases |run|
  {
    if run != [] {
      hide Timely, Recent;
      if run[0].event.Lookup? { LookupIsRecent(w, from, run[0]); }
      NextTimely(w, from, run[0]);
      OneTableRecent(Next(w, run[0]), run[0].now, run[1..]);
    }
  }

  /** Every cached record is what the database resolves to. */
  ghost predicate Coherent(w: World) {
    |w.caches| <= 1
    && (|w.caches| == 1 ==> forall key | key in w.caches[0] :: w.caches[0][key] == Resolve(w.db, w.schema, key))
  }

  lemma NextCoherent(w: World, t: Timed)
    requires Coherent(w) && Happens(w, t.event) && !t.event.Outside?
    ensures Coherent(Next(w, t))
  {
  }

  predicate NoOutside(run: seq<Timed>) { forall i :: 0 <= i < |run| ==> !run[i].event.Outside? }

  lemma {:induction false} OneTableExact(w: World, from: int, run: seq<Timed>)
    requires Coherent(w) && InOrder(w, from, run) && NoOutside(run)
    ensures AllExact(w, from, run)
    decreases |run|
  {
    if run != [] {
      NextCoherent(w, run[0]);
      OneTableExact(Next(w, run[0]), run[0].now, run[1..]);
    }
  }

  // ---------- more tables ----------

  const K: string := "K"
  const OLD: Rows := map[K := "1"]
  const NEW: Rows := map[K := "2"]

  /** Two lookups of one table around a write by another, within a second. */
  lemma TwoTablesDisagree(n: nat)
    requires n >= 2
    ensures exists run :: InOrder(Start(n, map[], OLD), 100, run) && NoOutside(run) && !AllExact(Start(n, map[], OLD), 100, run)
  {
    var w := Start(n, map[], OLD);
    var a, b := Timed(100, Lookup(0, K)), Timed(100, Set(1, K, "2", true));
    var w1 := Next(w, a);
    var w2 := Next(w1, b);
    assert w1.caches[0] == map[K := Some("1")] && w1.lastPurge == 100;
    assert w2.caches[0] == w1.caches[0] && w2.db[K] == "2";
    RunOfOne(w2, 100, a);
    var run := [a, b, a];
    assert run[1..] == [b, a] && [b, a][1..] == [a];
    assert InOrder(w1, 100, [b, a]);
    assert InOrder(w, 100, run) && !AllExact(w1, 100, [b, a]);
  }

  lemma RunOfOne(w: World, from: int, t: Timed)
    requires from <= t.now && Happens(w, t.event) && t.event.Lookup?
    ensures InOrder(w, from, [t]) && (AllExact(w, from, [t]) <==> Exact(w, t))
    ensures forall d :: AllRecent(w, from, [t], d) <==> Recent(w, t, d)
  {
    assert [t][1..] == [];
  }

  /** Table 1 purges every three seconds, and so table 0 never does. */
  function Alternation(k: nat, from: int): seq<Timed> {
    if k == 0 then [Timed(from + 1, Lookup(0, K))]
    else [Timed(from + 3, Lookup(1, K))] + Alternation(k - 1, from + 3)
  }

  /** Table 0 holds a record of a row that changed at time 100. */
  ghost predicate Stale(w: World, from: int) {
    && |w.caches| >= 2 && w.schema == map[] && w.db == NEW && w.lastPurge == from
    && K in w.caches[0] && w.caches[0][K] == Some("1")
    && forall i :: 0 <= i < |w.past| ==> w.past[i].time > 100 ==> w.past[i].db == NEW
  }

  lemma StaleNext(w: World, from: int)
    requires Stale(w, from)
    ensures Stale(Next(w, Timed(from + 3, Lookup(1, K))), from + 3)
  {
  }

  lemma {:induction false} StaleRun(w: World, from: int, k: nat, d: int)
    requires Stale(w, from) && from >= 100 && from + 3 * k + 1 - 100 >= d
    ensures InOrder(w, from, Alternation(k, from)) && !AllRecent(w, from, Alternation(k, from), d)
    decreases k
  {
    if k == 0 {
      var t := Timed(from + 1, Lookup(0, K));
      RunOfOne(w, from, t);
      assert Found(w, t) == Some("1");
      forall i | 0 <= i < |w.past + [Moment(t.now, w.db)]| && t.now - (w.past + [Moment(t.now, w.db)])[i].time < d
        ensures Found(w, t) != Resolve((w.past + [Moment(t.now, w.db)])[i].db, w.schema, K)
      {
        assert (w.past + [Moment(t.now, w.db)])[i].db == NEW;
      }
    } else {
      hide Stale, Recent;
      var t := Timed(from + 3, Lookup(1, K));
      StaleHappens(w, from);
      StaleNext(w, from);
      StaleRun(Next(w, t), from + 3, k - 1, d);
      assert Alternation(k, from)[1..] == Alternation(k - 1, from + 3);
    }
  }

  lemma StaleHappens(w: World, from: int)
    requires Stale(w, from)
    ensures Happens(w, Lookup(1, K))
  {
  }

  lemma FirstTwo(n: nat)
    requires n >= 2
    ensures var w, a, b := Start(n, map[], OLD), Timed(100, Lookup(0, K)), Timed(100, Outside(NEW));
      Happens(w, a.event) && Happens(Next(w, a), b.event) && Stale(Next(Next(w, a), b), 100)
  {
    var w1 := Next(Start(n, map[], OLD), Timed(100, Lookup(0, K)));
    assert w1.caches[0] == map[K := Some("1")];
  }

  /** A run that goes wrong goes wrong behind two more events. */
  lemma WrongBehindTwo(w: World, from: int, a: Timed, b: Timed, rest: seq<Timed>, d: int)
    requires from <= a.now <= b.now && Happens(w, a.event) && Happens(Next(w, a), b.event)
    requires InOrder(Next(Next(w, a), b), b.now, rest) && !AllRecent(Next(Next(w, a), b), b.now, rest, d)
    ensures InOrder(w, from, [a, b] + rest) && !AllRecent(w, from, [a, b] + rest, d)
  {
    hide Next, Happens, Recent;
    var run, tail := [a, b] + rest, [b] + rest;
    assert run[1..] == tail && tail[1..] == rest;
    assert InOrder(Next(w, a), a.now, tail) && !AllRecent(Next(w, a), a.now, tail, d);
  }

  lemma TwoTablesStale(n: nat, d: int)
    requires n >= 2
    ensures exists run :: InOrder(Start(n, map[], OLD), 100, run) && !AllRecent(Start(n, map[], OLD), 100, run, d)
  {
    var w, a, b := Start(n, map[], OLD), Timed(100, Lookup(0, K)), Timed(100, Outside(NEW));
    FirstTwo(n);
    hide *;
    var k := if d > 0 then d else 0;
    var rest := Alternation(k, 100);
    StaleRun(Next(Next(w, a), b), 100, k, d);
    WrongBehindTwo(w, 100, a, b, rest, d);
    assert InOrder(w, 100, [a, b] + rest);
  }

  // ---------- how many tables may share the purge time ----------

  /** Lookups in every run of n tables return what was true less than d seconds before. */
  ghost predicate StalenessBound(n: nat, d: int) {
    forall schema, db, from, run | 0 <= from && InOrder(Start(n, schema, db), from, run) ::
      AllRecent(Start(n, schema, db), from, run, d)
  }

  /** Lookups in every run without outside writers return what is true now. */
  ghost predicate CacheAgrees(n: nat) {
    forall schema, db, from, run | 0 <= from && InOrder(Start(n, schema, db), from, run) && NoOutside(run) ::
      AllExact(Start(n, schema, db), from, run)
  }

  /** With one table the bound is three seconds.  With two there is none: each purges for
      the time they share, and clears only its own cache. */
  lemma BoundIffOneTable(n: nat)
    ensures n <= 1 ==> StalenessBound(n, 3)
    ensures (exists d: int :: StalenessBound(n, d)) <==> n <= 1
  {
    if n <= 1 {
      forall schema, db, from, run | 0 <= from && InOrder(Start(n, schema, db), from, run)
        ensures AllRecent(Start(n, schema, db), from, run, PURGE_PERIOD)
      {
        OneTableRecent(Start(n, schema, db), from, run);
      }
      assert StalenessBound(n, PURGE_PERIOD);
    } else {
      forall d: int ensures !StalenessBound(n, d) { TwoTablesStale(n, d); }
    }
  }

  lemma {:induction false} LongerBound(w: World, from: int, run: seq<Timed>, d: int, e: int)
    requires InOrder(w, from, run) && AllRecent(w, from, run, d) && d <= e
    ensures AllRecent(w, from, run, e)
    decreases |run|
  {
    if run != [] {
      hide Next, Happens, Found;
      LongerBound(Next(w, run[0]), run[0].now, run[1..], d, e);
    }
  }

  /** A record that is two seconds old is returned once more. */
  lemma TwoSecondsOld(d: int)
    requires d <= 2
    ensures !StalenessBound(1, d)
  {
    var w, a, b := Start(1, map[], OLD), Timed(100, Lookup(0, K)), Timed(100, Outside(NEW));
    var t := Timed(102, Lookup(0, K));
    var w1 := Next(w, a);
    var w2 := Next(w1, b);
    assert w1.caches[0] == map[K := Some("1")] && w1.lastPurge == 100;
    assert Found(w2, t) == Some("1");
    var past := w2.past + [Moment(102, NEW)];
    forall i | 0 <= i < |past| && 102 - past[i].time < d ensures Some("1") != Resolve(past[i].db, map[], K) {
      assert past[i].db == NEW;
    }
    assert !Recent(w2, t, d);
    RunOfOne(w2, 100, t);
    hide Next, Recent, Found;
    WrongBehindTwo(w, 0, a, b, [t], d);
    assert InOrder(w, 0, [a, b] + [t]);
  }

  /** The bound of one table is three seconds and no less. */
  lemma BoundExact(d: int)
    ensures StalenessBound(1, d) <==> d >= 3
  {
    if d >= 3 {
      forall schema, db, from, run | 0 <= from && InOrder(Start(1, schema, db), from, run)
        ensures AllRecent(Start(1, schema, db), from, run, d)
      {
        OneTableRecent(Start(1, schema, db), from, run);
        LongerBound(Start(1, schema, db), from, run, 3, d);
      }
    } else {
      TwoSecondsOld(d);
    }
  }

  // ---------- what one call does ----------

  /** A lookup returns the cached record if there is one and the last purge is less than three
      seconds ago; else the row, else the default in the schema, else nothing. */
  lemma LookupReturns(w: World, now: int, table: nat, key: string)
    requires table < |w.caches|
    ensures var r, cache := Found(w, Timed(now, Lookup(table, key))), w.caches[table];
      && (now - w.lastPurge < 3 && key in cache ==> r == cache[key])
      && (!(now - w.lastPurge < 3 && key in cache) ==>
           r == if key in w.db then Some(w.db[key]) else if key in w.schema then Some(w.schema[key]) else None)
  {
  }

  /** What has been set is what the table returns next, at whatever time. */
  lemma SetIsFound(w: World, t: Timed, now: int)
    requires Happens(w, t.event) && t.event.Set? && t.event.succeeds
    ensures var w' := Next(w, t);
      && w'.db == w.db[t.event.key := t.event.value]
      && Found(w', Timed(now, Lookup(t.event.table, t.event.key))) == Some(t.event.value)
  {
  }

  /** A command that fails sets nothing. */
  lemma FailedSet(w: World, t: Timed)
    requires Happens(w, t.event) && t.event.Set? && !t.event.succeeds
    ensures Next(w, t).db == w.db && Next(w, t).caches == w.caches
  {
  }

  /** What has been removed is the schema's default or nothing; what could not be removed is the
      row, whatever was cached. */
  lemma RemovedIsDefault(w: World, t: Timed, now: int)
    requires Happens(w, t.event) && t.event.Remove?
    ensures var w', key := Next(w, t), t.event.key;
      Found(w', Timed(now, Lookup(t.event.table, key)))
      == if !t.event.succeeds && key in w.db then Some(w.db[key]) else if key in w.schema then Some(w.schema[key]) else None
  {
  }

  /** After a purge the table returns what the database has. */
  lemma PurgedIsExact(w: World, t: Timed, now: int, key: string)
    requires Happens(w, t.event) && t.event.Purge?
    ensures Next(w, t).db == w.db
    ensures Found(Next(w, t), Timed(now, Lookup(t.event.table, key)))
         == if key in w.db then Some(w.db[key]) else if key in w.schema then Some(w.schema[key]) else None
  {
  }

  /** Without outside writers, lookups agree with the database exactly when there is one table. */
  lemma AgreesIffOneTable(n: nat)
    ensures CacheAgrees(n) <==> n <= 1
  {
    if n <= 1 {
      forall schema, db, from, run | 0 <= from && InOrder(Start(n, schema, db), from, run) && NoOutside(run)
        ensures AllExact(Start(n, schema, db), from, run)
      {
        OneTableExact(Start(n, schema, db), from, run);
      }
    } else {
      TwoTablesDisagree(n);
    }
  }
}
