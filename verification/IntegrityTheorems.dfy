/** The schema-check cache over every interleaving of calls, query results and reactions. */
module IntegrityTheorems {
  import opened Prelude
  import opened JsText
  import opened IntegrityKeys
  import opened IntegrityCache

  // ----- the two maps act as one

  lemma LookupAfterStore(t: Tables, db: Database, key: JsString, p: PromiseId, serial: nat, db2: Database,
                         key2: JsString)
    requires TablesSound(t) && CacheId(db, serial) !in t.caches
    ensures Lookup(Store(t, db, key, p, serial), db2, key2)
            == if db2 == db && key2 == key then Some(p) else Lookup(t, db2, key2)
  {
    if db2 in t.current { assert t.current[db2].db == db2; }
  }

  lemma LookupAfterForget(t: Tables, db: Database, id: CacheId, key: JsString, p: PromiseId, db2: Database,
                          key2: JsString)
    requires TablesSound(t) && db in t.current && t.current[db] == id && Lookup(t, db, key) == Some(p)
    ensures Lookup(Forget(t, db, id, key, p), db2, key2)
            == if db2 == db && key2 == key then None else Lookup(t, db2, key2)
  {
    if db2 in t.current { assert t.current[db2].db == db2; }
    if db2 == db && key2 != key && key2 in t.caches[id] { assert key2 in t.caches[id] - {key}; }
  }

  // ----- every step keeps the invariant

  lemma BeginKeepsInv(s: State, db: Database, e: Expectation)
    requires Inv(s)
    ensures Inv(Apply(s, Begin(db, e)))
  {
    hide KeyOf, FirstProgress, Lookup, Store;
    var joined := Lookup(s.tables, db, KeyOf(e));
    var p := |s.checks|;
    var t := Apply(s, Begin(db, e));
    if joined.Some? {
      assert Serves(s, db, KeyOf(e), joined.value);
      CallAppended(s, t, Call(db, e, joined.value));
    } else {
      NewCheckKeepsInv(s, db, e);
    }
  }

  lemma CallAppended(s: State, t: State, c: Call)
    requires CallsMatch(s) && t.calls == s.calls + [c] && Matches(t, c)
    requires |s.checks| <= |t.checks| && forall p | 0 <= p < |s.checks| ::
               t.checks[p].cache == s.checks[p].cache && t.checks[p].expectation == s.checks[p].expectation
    ensures CallsMatch(t)
  {
    hide KeyOf;
    forall i | 0 <= i < |t.calls| ensures Matches(t, t.calls[i]) {
      if i < |s.calls| { assert Matches(s, s.calls[i]); }
    }
  }

  lemma NewCheckKeepsInv(s: State, db: Database, e: Expectation)
    requires Inv(s) && Lookup(s.tables, db, KeyOf(e)).None?
    ensures Inv(Apply(s, Begin(db, e)))
  {
    hide KeyOf, FirstProgress, Lookup;
    var key, p, t := KeyOf(e), |s.checks|, Apply(s, Begin(db, e));
    var id := CacheFor(s.tables, db, p);
    assert t.tables == Store(s.tables, db, key, p, p);
    assert CacheId(db, p) !in s.tables.caches;
    assert FirstProgress(e).Reacted? == false by { NeverReactedAtFirst(e); }
    forall d, k | Lookup(t.tables, d, k).Some? ensures Serves(t, d, k, Lookup(t.tables, d, k).value) {
      LookupAfterStore(s.tables, db, key, p, p, d, k);
      if d != db || k != key { assert Serves(s, d, k, Lookup(s.tables, d, k).value); }
    }
    forall q | 0 <= q < |t.checks| && !Dropped(t.checks[q]) ensures Cached(t.tables, t.checks[q], q) {
      var c := t.checks[q];
      LookupAfterStore(s.tables, db, key, p, p, c.cache.db, KeyOf(c.expectation));
      if q < p { assert Cached(s.tables, s.checks[q], q); }
    }
    assert TablesSound(t.tables);
    assert SerialsUsed(t);
    CallAppended(s, t, Call(db, e, p));
  }

  lemma NeverReactedAtFirst(e: Expectation)
    ensures !FirstProgress(e).Reacted?
  {
  }

  /** Replacing a check's progress changes neither its key nor the calls that wait for it. */
  lemma CallsKept(s: State, t: State, p: PromiseId, progress: Progress)
    requires CallsMatch(s) && p < |s.checks| && t.calls == s.calls
    requires t.checks == s.checks[p := s.checks[p].(progress := progress)]
    ensures CallsMatch(t)
  {
    hide KeyOf;
    forall i | 0 <= i < |t.calls| ensures Matches(t, t.calls[i]) { assert Matches(s, s.calls[i]); }
  }

  lemma ProgressKeepsInv(s: State, p: PromiseId, progress: Progress)
    requires Inv(s) && p < |s.checks| && !Dropped(s.checks[p])
    requires !Dropped(s.checks[p].(progress := progress))
    ensures Inv(s.(checks := s.checks[p := s.checks[p].(progress := progress)]))
  {
    hide KeyOf, Lookup;
    var t := s.(checks := s.checks[p := s.checks[p].(progress := progress)]);
    CallsKept(s, t, p, progress);
    forall d, k | Lookup(t.tables, d, k).Some? ensures Serves(t, d, k, Lookup(t.tables, d, k).value) {
      assert Serves(s, d, k, Lookup(s.tables, d, k).value);
    }
    forall q | 0 <= q < |t.checks| && !Dropped(t.checks[q]) ensures Cached(t.tables, t.checks[q], q) {
      assert Cached(s.tables, s.checks[q], q);
    }
  }

  lemma FailureKeepsInv(s: State, p: PromiseId)
    requires Inv(s) && p < |s.checks| && s.checks[p].progress.Settled? && !s.checks[p].progress.outcome.Verified?
    ensures Inv(Apply(s, MakerReacts(p)))
  {
    hide KeyOf, Lookup, Forget;
    var c, t := s.checks[p], Apply(s, MakerReacts(p));
    var db, key := c.cache.db, KeyOf(c.expectation);
    assert Cached(s.tables, c, p);
    CallsKept(s, t, p, Reacted(c.progress.outcome));
    forall d, k | Lookup(t.tables, d, k).Some? ensures Serves(t, d, k, Lookup(t.tables, d, k).value) {
      LookupAfterForget(s.tables, db, c.cache, key, p, d, k);
      assert Serves(s, d, k, Lookup(s.tables, d, k).value);
    }
    ForgetKeepsTables(s.tables, db, c.cache, key, p);
    assert SerialsUsed(t);
    forall q | 0 <= q < |t.checks| && !Dropped(t.checks[q]) ensures Cached(t.tables, t.checks[q], q) {
      assert Cached(s.tables, s.checks[q], q);
      LookupAfterForget(s.tables, db, c.cache, key, p, s.checks[q].cache.db, KeyOf(s.checks[q].expectation));
      LookupIsCurrent(t.tables, s.checks[q].cache.db, KeyOf(s.checks[q].expectation));
    }
  }

  lemma ForgetKeepsTables(t: Tables, db: Database, id: CacheId, key: JsString, p: PromiseId)
    requires TablesSound(t) && db in t.current && t.current[db] == id
    ensures TablesSound(Forget(t, db, id, key, p))
    ensures Forget(t, db, id, key, p).caches.Keys == t.caches.Keys
    ensures forall d | d in Forget(t, db, id, key, p).current ::
              d in t.current && Forget(t, db, id, key, p).current[d] == t.current[d]
  {
  }

  lemma LookupIsCurrent(t: Tables, db: Database, key: JsString)
    requires Lookup(t, db, key).Some?
    ensures db in t.current
  {
  }

  lemma StepKeepsInv(s: State, a: Action)
    requires Inv(s)
    ensures Inv(Apply(s, a))
  {
    hide Inv, Forget, Store, Lookup, KeyOf, QueryOutcome;
    match a
    case Begin(db, e) => BeginKeepsInv(s, db, e);
    case QueryEnds(p, error) =>
      if p < |s.checks| && s.checks[p].progress.Querying? {
        ProgressKeepsInv(s, p, Settled(QueryOutcome(s.checks[p].expectation, error)));
      }
    case MakerReacts(p) =>
      if p < |s.checks| && s.checks[p].progress.Settled? {
        var o := s.checks[p].progress.outcome;
        if o.Verified? { ProgressKeepsInv(s, p, Reacted(o)); } else { FailureKeepsInv(s, p); }
      }
  }

  lemma {:induction false} RunKeepsInv(s: State, actions: seq<Action>)
    requires Inv(s)
    ensures Inv(Run(s, actions))
    decreases |actions|
  {
    hide Inv, Apply;
    if actions != [] {
      StepKeepsInv(s, actions[0]);
      RunKeepsInv(Apply(s, actions[0]), actions[1..]);
    }
  }

  // ----- what is cached

  /** Over every run: a lookup finds a promise exactly if it is a check of that database and key which is
      pending, has succeeded, or has failed without its maker having reacted yet. */
  lemma CachedExactly(actions: seq<Action>, db: Database, key: JsString, p: PromiseId)
    ensures var s := Run(START, actions);
            Lookup(s.tables, db, key) == Some(p) <==> Serves(s, db, key, p)
  {
    hide Lookup, KeyOf;
    StartInv();
    RunKeepsInv(START, actions);
    var s := Run(START, actions);
    if Serves(s, db, key, p) { assert Cached(s.tables, s.checks[p], p); }
  }

  lemma StartInv()
    ensures Inv(START)
  {
  }

  /** No two queries are ever in flight for one database and key, nor a query beside a success. */
  lemma OneQueryInFlight(actions: seq<Action>, p: PromiseId, q: PromiseId)
    requires var s := Run(START, actions);
             p < |s.checks| && q < |s.checks| && p != q && s.checks[p].progress.Querying?
             && s.checks[p].cache.db == s.checks[q].cache.db
             && KeyOf(s.checks[p].expectation) == KeyOf(s.checks[q].expectation)
    ensures Dropped(Run(START, actions).checks[q])
  {
    hide Lookup, KeyOf;
    var c := Run(START, actions).checks[p];
    CachedExactly(actions, c.cache.db, KeyOf(c.expectation), p);
    CachedExactly(actions, c.cache.db, KeyOf(c.expectation), q);
  }

  predicate FailedUnseen(s: State, p: PromiseId) {
    p < |s.checks| && s.checks[p].progress.Settled? && !s.checks[p].progress.outcome.Verified?
  }

  /** A reaction, however late, takes away its own promise if that failed, and never another one. */
  lemma ReactionForgetsOnlyItsOwn(actions: seq<Action>, p: PromiseId, db: Database, key: JsString)
    ensures var s := Run(START, actions);
            var t := Apply(s, MakerReacts(p));
            Lookup(t.tables, db, key)
            == if Lookup(s.tables, db, key) == Some(p) && FailedUnseen(s, p)
               then None else Lookup(s.tables, db, key)
  {
    hide Lookup, KeyOf, Forget;
    StartInv();
    RunKeepsInv(START, actions);
    var s := Run(START, actions);
    if FailedUnseen(s, p) {
      var c := s.checks[p];
      assert Cached(s.tables, c, p);
      LookupAfterForget(s.tables, c.cache.db, c.cache, KeyOf(c.expectation), p, db, key);
    }
  }

  lemma ChecksOnlyGrow(s: State, a: Action, p: PromiseId)
    requires p < |s.checks| && !s.checks[p].progress.Querying? && s.checks[p].progress.outcome.Verified?
    ensures var t := Apply(s, a);
            p < |t.checks| && t.checks[p].cache == s.checks[p].cache
            && t.checks[p].expectation == s.checks[p].expectation
            && !t.checks[p].progress.Querying? && t.checks[p].progress.outcome.Verified?
  {
    hide Lookup, Store, Forget, KeyOf, FirstProgress;
  }

  lemma {:induction false} SuccessStays(s: State, actions: seq<Action>, p: PromiseId)
    requires p < |s.checks| && !s.checks[p].progress.Querying? && s.checks[p].progress.outcome.Verified?
    ensures var t := Run(s, actions);
            p < |t.checks| && t.checks[p].cache == s.checks[p].cache
            && t.checks[p].expectation == s.checks[p].expectation
            && !t.checks[p].progress.Querying? && t.checks[p].progress.outcome.Verified?
    decreases |actions|
  {
    hide Apply;
    if actions != [] {
      ChecksOnlyGrow(s, actions[0], p);
      SuccessStays(Apply(s, actions[0]), actions[1..], p);
    }
  }

  lemma {:induction false} RunsCompose(s: State, a: seq<Action>, b: seq<Action>)
    ensures Run(s, a + b) == Run(Run(s, a), b)
    decreases |a|
  {
    hide Apply;
    if a == [] {
      assert a + b == b;
    } else {
      assert (a + b)[1..] == a[1..] + b;
      RunsCompose(Apply(s, a[0]), a[1..], b);
    }
  }

  /** Once a check has succeeded, every later call with its database and key joins it, and none asks the
      database again. */
  lemma {:induction false} SuccessIsFinal(before: seq<Action>, after: seq<Action>, p: PromiseId, e: Expectation)
    requires var s := Run(START, before);
             p < |s.checks| && !s.checks[p].progress.Querying? && s.checks[p].progress.outcome.Verified?
             && KeyOf(e) == KeyOf(s.checks[p].expectation)
    ensures var s, t := Run(START, before), Run(START, before + after);
            var u := Apply(t, Begin(s.checks[p].cache.db, e));
            u.checks == t.checks && Answer(u, |u.calls| - 1) == Some(Verified)
  {
    hide Lookup, KeyOf, Store, FirstProgress;
    var s, t := Run(START, before), Run(START, before + after);
    RunsCompose(START, before, after);
    SuccessStays(s, after, p);
    CachedExactly(before + after, s.checks[p].cache.db, KeyOf(e), p);
  }

  // ----- what is answered

  /** Whether a database answers a projection of these columns of this table, or the error it gives. */
  type Schema = (Database, JsString, seq<JsString>) -> Option<JsString>

  /** Without any cache. */
  function Direct(ask: Schema, db: Database, e: Expectation): Outcome {
    if FirstInvalid(Names(e)).Some? then InvalidIdentifier(FirstInvalid(Names(e)).value)
    else QueryOutcome(e, ask(db, e.table, Distinct(e.columns)))
  }

  /** The queries of a run are answered as a fixed schema answers them. */
  ghost predicate Follows(ask: Schema, s: State, actions: seq<Action>)
    decreases |actions|
  {
    actions != [] ==>
      && (actions[0].QueryEnds? && actions[0].p < |s.checks| ==>
            var c := s.checks[actions[0].p];
            actions[0].error == ask(c.cache.db, c.expectation.table, Distinct(c.expectation.columns)))
      && Follows(ask, Apply(s, actions[0]), actions[1..])
  }

  predicate CheckTold(ask: Schema, c: Check) {
    if c.progress.Querying? then Valid(c.expectation) else c.progress.outcome == Direct(ask, c.cache.db, c.expectation)
  }

  ghost predicate Told(ask: Schema, s: State) {
    forall p | 0 <= p < |s.checks| :: CheckTold(ask, s.checks[p])
  }

  lemma StepKeepsTold(ask: Schema, s: State, a: Action)
    requires Told(ask, s) && Follows(ask, s, [a])
    ensures Told(ask, Apply(s, a))
  {
    hide Lookup, Store, Forget, KeyOf, FirstInvalid, Distinct, Names;
    var t := Apply(s, a);
    forall p | 0 <= p < |t.checks| ensures CheckTold(ask, t.checks[p]) {
      if p < |s.checks| { assert CheckTold(ask, s.checks[p]); }
    }
  }

  lemma {:induction false} RunKeepsTold(ask: Schema, s: State, actions: seq<Action>)
    requires Told(ask, s) && Follows(ask, s, actions)
    ensures Told(ask, Run(s, actions))
    decreases |actions|
  {
    hide Apply, Told;
    if actions != [] {
      assert Follows(ask, Apply(s, actions[0]), [actions[0]][1..]);
      StepKeepsTold(ask, s, actions[0]);
      RunKeepsTold(ask, Apply(s, actions[0]), actions[1..]);
    }
  }

  /** Which columns are asked for decides between success and error, not their order. */
  ghost predicate OrderFree(ask: Schema) {
    forall db, e: Expectation, f: Expectation | e.table == f.table && SameColumns(e, f) ::
      ask(db, e.table, Distinct(e.columns)).None? <==> ask(db, f.table, Distinct(f.columns)).None?
  }

  predicate SameVerdict(o: Outcome, p: Outcome) {
    match o
    case Verified => p.Verified?
    case InvalidIdentifier(_) => p.InvalidIdentifier?
    case Failed(table, _) => p.Failed? && p.table == table
  }

  /** Over every interleaving against a fixed schema: a call is answered as a direct query would be exactly
      when its own identifiers and those of the check it joined are both valid or both not. */
  lemma CachedVerdictExactly(ask: Schema, actions: seq<Action>, i: nat)
    requires OrderFree(ask) && Follows(ask, START, actions)
    requires var s := Run(START, actions);
             i < |s.calls| && Answer(s, i).Some?
    ensures var s := Run(START, actions);
            var c := s.calls[i];
            c.check < |s.checks|
            && Answer(s, i).value == Direct(ask, c.db, s.checks[c.check].expectation)
            && (SameVerdict(Answer(s, i).value, Direct(ask, c.db, c.expectation))
                <==> (Valid(s.checks[c.check].expectation) <==> Valid(c.expectation)))
  {
    hide Lookup, KeyOf, FirstInvalid, Names, Distinct, Follows, SameColumns;
    StartInv();
    RunKeepsInv(START, actions);
    RunKeepsTold(ask, START, actions);
    var s := Run(START, actions);
    var c := s.calls[i];
    assert Matches(s, c);
    var e := s.checks[c.check].expectation;
    assert CheckTold(ask, s.checks[c.check]);
    if Valid(e) && Valid(c.expectation) { KeysCoincideExactly(e, c.expectation); }
  }

  ghost predicate MadeValid(s: State) { forall p | 0 <= p < |s.checks| :: Valid(s.checks[p].expectation) }

  lemma BegunValid(s: State, a: Action)
    requires MadeValid(s)
    requires a.Begin? ==> Valid(a.expectation)
    ensures MadeValid(Apply(s, a))
  {
    hide Lookup, Store, Forget, KeyOf, Valid, FirstProgress, QueryOutcome;
  }

  lemma {:induction false} AllBegunValid(s: State, actions: seq<Action>)
    requires MadeValid(s)
    requires forall k | 0 <= k < |actions| && actions[k].Begin? :: Valid(actions[k].expectation)
    ensures MadeValid(Run(s, actions))
    decreases |actions|
  {
    hide Apply, Valid;
    if actions != [] {
      BegunValid(s, actions[0]);
      assert forall k | 0 <= k < |actions[1..]| :: actions[1..][k] == actions[k + 1];
      AllBegunValid(Apply(s, actions[0]), actions[1..]);
    }
  }

  /** If every call has valid identifiers, every verdict is the direct one; and so is the error's text exactly
      when the database says the same of the joined check's column order. */
  lemma CachedVerdictIsDirect(ask: Schema, actions: seq<Action>, i: nat)
    requires OrderFree(ask) && Follows(ask, START, actions)
    requires forall k | 0 <= k < |actions| && actions[k].Begin? :: Valid(actions[k].expectation)
    requires var s := Run(START, actions); i < |s.calls| && Valid(s.calls[i].expectation) && Answer(s, i).Some?
    ensures var s := Run(START, actions);
            var c := s.calls[i];
            c.check < |s.checks|
            && SameVerdict(Answer(s, i).value, Direct(ask, c.db, c.expectation))
            && (Answer(s, i).value == Direct(ask, c.db, c.expectation)
                <==> ask(c.db, c.expectation.table, Distinct(s.checks[c.check].expectation.columns))
                     == ask(c.db, c.expectation.table, Distinct(c.expectation.columns)))
  {
    hide Apply, Follows, Valid, OrderFree, Answer, Run, Distinct, KeyOf;
    StartInv();
    RunKeepsInv(START, actions);
    AllBegunValid(START, actions);
    CachedVerdictExactly(ask, actions, i);
    var s := Run(START, actions);
    var c := s.calls[i];
    assert Matches(s, c);
    var e := s.checks[c.check].expectation;
    KeysCoincideExactly(e, c.expectation);
    DirectOfValid(ask, c.db, e);
    DirectOfValid(ask, c.db, c.expectation);
  }

  lemma DirectOfValid(ask: Schema, db: Database, e: Expectation)
    requires Valid(e)
    ensures Direct(ask, db, e) == QueryOutcome(e, ask(db, e.table, Distinct(e.columns)))
  {
  }

  lemma RunThree(a: Action, b: Action, c: Action)
    ensures Run(START, [a, b, c]) == Apply(Apply(Apply(START, a), b), c)
  {
    hide Apply;
    assert [a, b, c][1..] == [b, c] && [b, c][1..] == [c] && [c][1..] == [];
    assert Run(Apply(Apply(START, a), b), [c]) == Apply(Apply(Apply(START, a), b), c);
  }

  /** Otherwise not: a call that a direct check refuses for its invalid name is answered with the success
      of a call for two valid names. */
  lemma InvalidNameCanPass(db: Database, table: JsString)
    requires IsIdentifier(table)
    ensures var good, bad := Expectation(table, [[97], [98]]), Expectation(table, [[97, 44, 98]]);
            var s := Run(START, [Begin(db, good), QueryEnds(0, None), Begin(db, bad)]);
            |s.calls| == 2 && s.calls[1].expectation == bad && !Valid(bad) && Answer(s, 1) == Some(Verified)
  {
    hide KeyOf, FirstInvalid, Names, IsIdentifier;
    var good, bad := Expectation(table, [[97], [98]]), Expectation(table, [[97, 44, 98]]);
    InvalidNameSharesKey(table);
    var begin, ends, again := Begin(db, good), QueryEnds(0, None), Begin(db, bad);
    var s1 := Apply(START, begin);
    var s2 := Apply(s1, ends);
    var s3 := Apply(s2, again);
    RunThree(begin, ends, again);
    assert s2.tables == s1.tables && Lookup(s2.tables, db, KeyOf(bad)) == Some(0);
  }
}
