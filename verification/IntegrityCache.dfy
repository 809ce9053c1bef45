/** The promise cache of schema checks: one map of promises per database, held by a weak map. */
module IntegrityCache {
  import opened Prelude
  import opened JsText
  import opened IntegrityKeys

  type Database = nat
  type PromiseId = nat

  /** A `Map` object of promises. A call may hold on to one the weak map has let go. */
  datatype CacheId = CacheId(db: Database, serial: nat)

  type Cache = map<JsString, PromiseId>

  /** The weak map, and every `Map` object made so far. */
  datatype Tables = Tables(current: map<Database, CacheId>, caches: map<CacheId, Cache>)

  // ----- what the synchronous parts of a call do

  function Lookup(t: Tables, db: Database, key: JsString): Option<PromiseId> {
    if db in t.current && t.current[db] in t.caches && key in t.caches[t.current[db]]
    then Some(t.caches[t.current[db]][key]) else None
  }

  /** The `Map` object a new check goes to; `serial` tells a new object from all others. */
  function CacheFor(t: Tables, db: Database, serial: nat): CacheId {
    if db in t.current then t.current[db] else CacheId(db, serial)
  }

  function Entries(t: Tables, id: CacheId): Cache { if id in t.caches then t.caches[id] else map[] }

  function Store(t: Tables, db: Database, key: JsString, p: PromiseId, serial: nat): Tables {
    var id := CacheFor(t, db, serial);
    Tables(t.current[db := id], t.caches[id := Entries(t, id)[key := p]])
  }

  /** The `catch` block of the call that made promise `p`. */
  function Forget(t: Tables, db: Database, id: CacheId, key: JsString, p: PromiseId): Tables {
    var kept := if key in Entries(t, id) && Entries(t, id)[key] == p then Entries(t, id) - {key} else Entries(t, id);
    Tables(if kept == map[] then t.current - {db} else t.current, t.caches[id := kept])
  }

  class VerifiedExpectations {
    var current: map<Database, CacheId>
    var caches: map<CacheId, Cache>

    function Contents(): Tables reads this { Tables(current, caches) }

    constructor ()
      ensures Contents() == Tables(map[], map[])
    {
      current, caches := map[], map[];
    }

    /** The part of a call before its first wait. `p` is the promise a new check would make. */
    method Enter(db: Database, key: JsString, p: PromiseId, serial: nat)
      returns (joined: Option<PromiseId>, cache: CacheId)
      modifies this
      ensures joined == old(Lookup(Contents(), db, key))
      ensures cache == old(CacheFor(Contents(), db, serial))
      ensures Contents() == if joined.Some? then old(Contents()) else Store(old(Contents()), db, key, p, serial)
    {
      if db in current {
        cache := current[db];
        if cache in caches && key in caches[cache] { return Some(caches[cache][key]), cache; }
      } else {
        cache := CacheId(db, serial);
        current := current[db := cache];
      }
      assert current == old(current)[db := cache];
      var entries := if cache in caches then caches[cache] else map[];
      caches := caches[cache := entries[key := p]];
      return None, cache;
    }

    /** After a failed check. */
    method DropFailed(db: Database, cache: CacheId, key: JsString, p: PromiseId)
      modifies this
      ensures Contents() == Forget(old(Contents()), db, cache, key, p)
    {
      var entries := if cache in caches then caches[cache] else map[];
      if key in entries && entries[key] == p { entries := entries - {key}; }
      caches := caches[cache := entries];
      if |entries| == 0 { current := current - {db}; }
    }
  }

  // ----- calls as interleaved steps

  datatype Outcome = Verified | InvalidIdentifier(name: JsString) | Failed(table: JsString, message: JsString)

  /** A check made by a call: its promise is pending, settled, or settled and reacted to by its maker. */
  datatype Progress = Querying | Settled(outcome: Outcome) | Reacted(outcome: Outcome)

  datatype Check = Check(cache: CacheId, expectation: Expectation, progress: Progress)

  /** A call waits for the promise of a check, its own or another's. */
  datatype Call = Call(db: Database, expectation: Expectation, check: PromiseId)

  datatype State = State(tables: Tables, checks: seq<Check>, calls: seq<Call>)

  const START := State(Tables(map[], map[]), [], [])

  datatype Action =
    | Begin(db: Database, expectation: Expectation)
    | QueryEnds(p: PromiseId, error: Option<JsString>)
    | MakerReacts(p: PromiseId)

  /** A check with an invalid name is settled without any query. */
  function FirstProgress(e: Expectation): Progress {
    if FirstInvalid(Names(e)).Some? then Settled(InvalidIdentifier(FirstInvalid(Names(e)).value)) else Querying
  }

  function QueryOutcome(e: Expectation, error: Option<JsString>): Outcome {
    if error.None? then Verified else Failed(e.table, error.value)
  }

  function Apply(s: State, a: Action): State {
    match a
    case Begin(db, e) =>
      var joined, p := Lookup(s.tables, db, KeyOf(e)), |s.checks|;
      if joined.Some? then s.(calls := s.calls + [Call(db, e, joined.value)])
      else State(Store(s.tables, db, KeyOf(e), p, p),
                 s.checks + [Check(CacheFor(s.tables, db, p), e, FirstProgress(e))],
                 s.calls + [Call(db, e, p)])
    case QueryEnds(p, error) =>
      if p < |s.checks| && s.checks[p].progress.Querying?
      then s.(checks := s.checks[p := s.checks[p].(progress := Settled(QueryOutcome(s.checks[p].expectation, error)))])
      else s
    case MakerReacts(p) =>
      if p < |s.checks| && s.checks[p].progress.Settled?
      then
        var c := s.checks[p];
        State(if c.progress.outcome.Verified? then s.tables
              else Forget(s.tables, c.cache.db, c.cache, KeyOf(c.expectation), p),
              s.checks[p := c.(progress := Reacted(c.progress.outcome))],
              s.calls)
      else s
  }

  function Run(s: State, actions: seq<Action>): State
    decreases |actions|
  {
    if actions == [] then s else Run(Apply(s, actions[0]), actions[1..])
  }

  /** What a call has been answered, if anything. */
  function Answer(s: State, call: nat): Option<Outcome>
    requires call < |s.calls|
  {
    var p := s.calls[call].check;
    if p < |s.checks| && !s.checks[p].progress.Querying? then Some(s.checks[p].progress.outcome) else None
  }

  // ----- what every step keeps

  /** The check failed and its maker knows. */
  predicate Dropped(c: Check) { c.progress.Reacted? && !c.progress.outcome.Verified? }

  predicate Serves(s: State, db: Database, key: JsString, p: PromiseId) {
    p < |s.checks| && s.checks[p].cache.db == db && KeyOf(s.checks[p].expectation) == key && !Dropped(s.checks[p])
  }

  /** Each weak-map entry is a `Map` object made for its database. */
  ghost predicate TablesSound(t: Tables) {
    forall db | db in t.current :: t.current[db].db == db && t.current[db] in t.caches
  }

  /** The next promise's number has not been used for a `Map` object. */
  ghost predicate SerialsUsed(s: State) { forall id | id in s.tables.caches :: id.serial < |s.checks| }

  /** Entries of a current `Map` object are checks of its database and their own key. */
  ghost predicate EntriesServe(s: State) {
    forall db, key | Lookup(s.tables, db, key).Some? :: Serves(s, db, key, Lookup(s.tables, db, key).value)
  }

  /** Every check not dropped is cached, in the `Map` object its maker holds. */
  ghost predicate ChecksCached(s: State) {
    forall p | 0 <= p < |s.checks| && !Dropped(s.checks[p]) ::
      Cached(s.tables, s.checks[p], p)
  }

  predicate Cached(t: Tables, c: Check, p: PromiseId) {
    c.cache.db in t.current && t.current[c.cache.db] == c.cache
    && Lookup(t, c.cache.db, KeyOf(c.expectation)) == Some(p)
  }

  /** A call waits for a check of its own database and key. */
  ghost predicate CallsMatch(s: State) {
    forall i | 0 <= i < |s.calls| :: Matches(s, s.calls[i])
  }

  predicate Matches(s: State, c: Call) {
    c.check < |s.checks| && s.checks[c.check].cache.db == c.db
    && KeyOf(s.checks[c.check].expectation) == KeyOf(c.expectation)
  }

  ghost predicate Inv(s: State) {
    TablesSound(s.tables) && SerialsUsed(s) && EntriesServe(s) && ChecksCached(s) && CallsMatch(s)
  }
}
