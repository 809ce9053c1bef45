/** Runs of the ledger: the overlap bound is reached, and what token cleanup can and cannot cost. */
module LedgerRuns {
  import opened Prelude
  import opened Ledger
  import opened LedgerTheorems

  // ----- composing runs

  /** `actions` lead from `s` to `t` with never more than `w` serves of `session` open. */
  ghost predicate Leads(keyOf: string -> string, s: State, actions: seq<Action>, t: State, session: string, w: nat) {
    Run(keyOf, s, actions) == Some(t) && NeverMoreThan(keyOf, s, actions, session, w)
  }

  lemma {:induction false} LeadsOn(keyOf: string -> string, s: State, a: seq<Action>, t: State, b: seq<Action>,
                                   u: State, session: string, w: nat)
    requires Leads(keyOf, s, a, t, session, w) && Leads(keyOf, t, b, u, session, w)
    ensures Leads(keyOf, s, a + b, u, session, w)
    decreases |a|
  {
    if a == [] {
      assert a + b == b;
    } else {
      assert (a + b)[0] == a[0] && (a + b)[1..] == a[1..] + b;
      LeadsOn(keyOf, Apply(keyOf, s, a[0]).value, a[1..], t, b, u, session, w);
    }
  }

  /** Some run leads from `s` to `t` with never more than `w` serves of `session` open. */
  ghost predicate Hops(keyOf: string -> string, s: State, t: State, session: string, w: nat) {
    exists actions :: Leads(keyOf, s, actions, t, session, w)
  }

  lemma HopsOn(keyOf: string -> string, s: State, t: State, u: State, session: string, w: nat)
    requires Hops(keyOf, s, t, session, w) && Hops(keyOf, t, u, session, w)
    ensures Hops(keyOf, s, u, session, w)
  {
    var a :| Leads(keyOf, s, a, t, session, w);
    var b :| Leads(keyOf, t, b, u, session, w);
    LeadsOn(keyOf, s, a, t, b, u, session, w);
  }

  lemma StayHere(keyOf: string -> string, s: State, session: string, w: nat)
    requires Count(s.requests, session, Open) <= w
    ensures Hops(keyOf, s, s, session, w)
  {
    assert Leads(keyOf, s, [], s, session, w);
  }

  lemma Hop(keyOf: string -> string, s: State, a: Action, t: State, session: string, w: nat)
    requires Apply(keyOf, s, a) == Some(t)
    requires Count(s.requests, session, Open) <= w && Count(t.requests, session, Open) <= w
    ensures Hops(keyOf, s, t, session, w)
  {
    assert [a][1..] == [];
    assert Run(keyOf, t, []) == Some(t) && NeverMoreThan(keyOf, t, [], session, w);
    assert Leads(keyOf, s, [a], t, session, w);
  }

  /** A request's step as a hop, when the overlap leaves room for it. */
  lemma RequestHop(keyOf: string -> string, s: State, i: nat, h: TokenHash, r: Request, t: State, session: string,
                   w: nat)
    requires i < |s.requests| && t.requests == s.requests[i := r]
    requires AdvanceRequest(keyOf, s, i, true, h) == Some(t)
    requires var opens := Matches(r, session, Open) && !Matches(s.requests[i], session, Open);
             Count(s.requests, session, Open) + (if opens then 1 else 0) <= w
    ensures Hops(keyOf, s, t, session, w)
    ensures Count(t.requests, session, Open) + (if Matches(s.requests[i], session, Open) then 1 else 0)
         == Count(s.requests, session, Open) + (if Matches(r, session, Open) then 1 else 0)
  {
    CountAfterChange(s.requests, i, r, session, Open);
    Hop(keyOf, s, Advance(i, true, h), t, session, w);
  }

  lemma UpdateLast(rs: seq<Request>, r: Request, q: Request)
    ensures (rs + [r])[|rs| := q] == rs + [q]
  {
  }

  // ----- the bound is tight

  /** At time zero, with `c` downloads counted and the tokens `lo..hi` of the one order unused. */
  ghost predicate Stage(s: State, session: string, lo: nat, hi: nat, c: nat) {
    && s.clock == 0 && s.orders.Keys <= {session} && Downloads(s, session) == c
    && (lo < hi ==> session in s.orders)
    && (forall h | h in s.issued :: h < hi)
    && (forall h | lo <= h < hi :: h in s.tokens && s.tokens[h] == Token(session, TOKEN_TTL_MS, None))
  }

  /** `t` continues `s` by requests of its own, leaving the tokens below `lo` alone. */
  ghost predicate Beside(s: State, t: State, lo: nat) {
    && |s.requests| <= |t.requests| && (forall i | 0 <= i < |s.requests| :: t.requests[i] == s.requests[i])
    && (forall h | h in s.tokens && h < lo :: h in t.tokens && t.tokens[h] == s.tokens[h])
  }

  /** Issuing: the request reads the order and upserts it. */
  lemma IssueFirstHalf(keyOf: string -> string, s: State, session: string, hi: nat, w: nat) returns (t: State)
    requires Stage(s, session, 0, hi, 0) && Count(s.requests, session, Open) == 0
    ensures Hops(keyOf, s, t, session, w) && Count(t.requests, session, Open) == 0
    ensures t == s.(requests := s.requests + [IssueCleaning(session, 0)], orders := t.orders)
    ensures t.orders.Keys == {session} && t.orders[session].count == 0
  {
    var i, k := |s.requests|, if session in s.orders then s.orders[session].licenseKey else keyOf(session);
    var s1 := s.(requests := s.requests + [IssueReading(session, 0)]);
    var s2 := s.(requests := s.requests + [IssueVerifying(session, 0, k)]);
    t := s.(requests := s.requests + [IssueCleaning(session, 0)], orders := Upsert(s.orders, session, k, 0));
    CountAfterStart(s.requests, IssueReading(session, 0), session, Open);
    Hop(keyOf, s, BeginIssue(session), s1, session, w);
    UpdateLast(s.requests, IssueReading(session, 0), IssueVerifying(session, 0, k));
    RequestHop(keyOf, s1, i, 0, IssueVerifying(session, 0, k), s2, session, w);
    UpdateLast(s.requests, IssueVerifying(session, 0, k), IssueCleaning(session, 0));
    assert session !in s.orders ==> !LicenseTaken(s.orders, session, k);
    RequestHop(keyOf, s2, i, 0, IssueCleaning(session, 0), t, session, w);
    HopsOn(keyOf, s, s1, s2, session, w);
    HopsOn(keyOf, s, s2, t, session, w);
  }

  /** Issuing: the request cleans up, with nothing on the stage expired, and inserts its token. */
  lemma IssueSecondHalf(keyOf: string -> string, rs: seq<Request>, s: State, session: string, hi: nat, w: nat)
    returns (t: State)
    requires Stage(s, session, 0, hi, 0) && session in s.orders && Count(s.requests, session, Open) == 0
    requires s.requests == rs + [IssueCleaning(session, 0)]
    ensures Hops(keyOf, s, t, session, w)
    ensures Stage(t, session, 0, hi + 1, 0) && Count(t.requests, session, Open) == 0 && session in t.orders
  {
    var kept := Cleanup(s.tokens, 0);
    var s1 := s.(requests := rs + [IssueInserting(session, 0)], tokens := kept);
    t := s.(requests := rs + [Issued(session)], tokens := kept[hi := Token(session, TOKEN_TTL_MS, None)],
            issued := s.issued + {hi});
    UpdateLast(rs, IssueCleaning(session, 0), IssueInserting(session, 0));
    RequestHop(keyOf, s, |rs|, 0, IssueInserting(session, 0), s1, session, w);
    UpdateLast(rs, IssueInserting(session, 0), Issued(session));
    RequestHop(keyOf, s1, |rs|, hi, Issued(session), t, session, w);
    HopsOn(keyOf, s, s1, t, session, w);
  }

  /** Before any serve: `hi` unused tokens, nothing counted, nothing open. */
  ghost predicate Stocked(s: State, session: string, hi: nat) {
    Stage(s, session, 0, hi, 0) && Count(s.requests, session, Open) == 0 && (hi > 0 ==> session in s.orders)
  }

  lemma IssueOne(keyOf: string -> string, s: State, session: string, hi: nat, w: nat) returns (t: State)
    requires Stocked(s, session, hi)
    ensures Hops(keyOf, s, t, session, w) && Stocked(t, session, hi + 1)
  {
    var u := IssueFirstHalf(keyOf, s, session, hi, w);
    t := IssueSecondHalf(keyOf, s.requests, u, session, hi, w);
    HopsOn(keyOf, s, u, t, session, w);
  }

  lemma {:induction false} IssueMany(keyOf: string -> string, s0: State, session: string, n: nat, w: nat)
    returns (t: State)
    requires Stocked(s0, session, 0)
    ensures Hops(keyOf, s0, t, session, w) && Stocked(t, session, n)
    decreases n
  {
    if n == 0 {
      t := s0;
      StayHere(keyOf, s0, session, w);
    } else {
      var s := IssueMany(keyOf, s0, session, n - 1, w);
      t := IssueOne(keyOf, s, session, n - 1, w);
      HopsOn(keyOf, s0, s, t, session, w);
    }
  }

  lemma OpenOne(keyOf: string -> string, s: State, session: string, lo: nat, hi: nat, c: nat, w: nat) returns (t: State)
    requires Stage(s, session, lo, hi, c) && lo < hi && c < MAX_DOWNLOADS && Count(s.requests, session, Open) < w
    ensures Hops(keyOf, s, t, session, w)
    ensures t == s.(requests := s.requests + [ServeConsuming(lo, 0, session)])
    ensures Count(t.requests, session, Open) == Count(s.requests, session, Open) + 1
  {
    var i := |s.requests|;
    var s1 := s.(requests := s.requests + [ServeReading(lo, 0)]);
    var s2 := s.(requests := s.requests + [ServeFetching(lo, 0, session)]);
    t := s.(requests := s.requests + [ServeConsuming(lo, 0, session)]);
    CountAfterStart(s.requests, ServeReading(lo, 0), session, Open);
    Hop(keyOf, s, BeginServe(lo), s1, session, w);
    UpdateLast(s.requests, ServeReading(lo, 0), ServeFetching(lo, 0, session));
    RequestHop(keyOf, s1, i, 0, ServeFetching(lo, 0, session), s2, session, w);
    UpdateLast(s.requests, ServeFetching(lo, 0, session), ServeConsuming(lo, 0, session));
    RequestHop(keyOf, s2, i, 0, ServeConsuming(lo, 0, session), t, session, w);
    HopsOn(keyOf, s, s1, s2, session, w);
    HopsOn(keyOf, s, s2, t, session, w);
  }

  lemma CloseOne(keyOf: string -> string, s: State, i: nat, session: string, mine: nat, lo: nat, hi: nat, c: nat,
                 w: nat)
    returns (t: State)
    requires Stage(s, session, lo, hi, c) && session in s.orders && mine < lo
    requires i < |s.requests| && s.requests[i] == ServeConsuming(mine, 0, session)
    requires mine in s.tokens && s.tokens[mine] == Token(session, TOKEN_TTL_MS, None)
             && Count(s.requests, session, Open) <= w
    ensures Hops(keyOf, s, t, session, w) && Stage(t, session, lo, hi, c + 1) && session in t.orders
    ensures t.requests == s.requests[i := Served(session)]
    ensures forall h | h in s.tokens && h != mine :: h in t.tokens && t.tokens[h] == s.tokens[h]
    ensures Count(t.requests, session, Open) + 1 == Count(s.requests, session, Open)
  {
    var used := s.tokens[mine].(used := Some(0));
    var s1 := s.(requests := s.requests[i := ServeCounting(session)], tokens := s.tokens[mine := used],
                 consumptions := s.consumptions + [(mine, session)]);
    t := s1.(requests := s.requests[i := Served(session)], orders := Increment(s.orders, session));
    RequestHop(keyOf, s, i, 0, ServeCounting(session), s1, session, w);
    assert s1.requests[i := Served(session)] == t.requests;
    RequestHop(keyOf, s1, i, 0, Served(session), t, session, w);
    HopsOn(keyOf, s, s1, t, session, w);
  }

  /** `m` serves nested in one another: all pass the limit check before the first one counts. */
  lemma {:induction false} Overlap(keyOf: string -> string, s: State, m: nat, session: string, lo: nat, hi: nat,
                                   c: nat, w: nat)
    returns (t: State)
    requires Stage(s, session, lo, hi, c) && session in s.orders && 0 < m && lo + m <= hi
    requires c < MAX_DOWNLOADS && Count(s.requests, session, Open) + m <= w
    ensures Hops(keyOf, s, t, session, w)
    ensures Stage(t, session, lo + m, hi, c + m) && Beside(s, t, lo) && session in t.orders
    ensures Count(t.requests, session, Open) == Count(s.requests, session, Open)
    decreases m
  {
    var s1 := OpenOne(keyOf, s, session, lo, hi, c, w);
    var s2 := s1;
    assert s1.requests[|s.requests|] == ServeConsuming(lo, 0, session);
    if m > 1 {
      s2 := Overlap(keyOf, s1, m - 1, session, lo + 1, hi, c, w);
      HopsOn(keyOf, s, s1, s2, session, w);
    }
    t := CloseOne(keyOf, s2, |s.requests|, session, lo, lo + m, hi, c + m - 1, w);
    HopsOn(keyOf, s, s2, t, session, w);
  }

  /** For every overlap `w` the bound is reached: four serves one after the other, then `w` at once. */
  lemma OverlapBoundIsTight(keyOf: string -> string, session: string, w: nat)
    requires w > 0
    ensures exists actions ::
              && Run(keyOf, Initial(), actions).Some?
              && NeverMoreThan(keyOf, Initial(), actions, session, w)
              && Downloads(Run(keyOf, Initial(), actions).value, session) == 4 + w
  {
    var s := IssueMany(keyOf, Initial(), session, 4 + w, w);
    for n := 0 to 4
      invariant Hops(keyOf, Initial(), s, session, w)
      invariant Stage(s, session, n, 4 + w, n) && session in s.orders && Count(s.requests, session, Open) == 0
    {
      var t := Overlap(keyOf, s, 1, session, n, 4 + w, n, w);
      HopsOn(keyOf, Initial(), s, t, session, w);
      s := t;
    }
    var t := Overlap(keyOf, s, w, session, 4, 4 + w, 4, w);
    HopsOn(keyOf, Initial(), s, t, session, w);
    var actions :| Leads(keyOf, Initial(), actions, t, session, w);
  }

  // ----- cleanup

  /** As long as a token row exists it keeps its expiry, and once used it stays used. */
  ghost predicate Aged(s: State, t: State, h: TokenHash) {
    h in s.issued && h in t.issued &&
    (h in t.tokens ==> h in s.tokens && t.tokens[h].expires == s.tokens[h].expires
                       && (s.tokens[h].used.Some? ==> t.tokens[h].used.Some?))
  }

  lemma {:induction false} RowsAge(keyOf: string -> string, s: State, actions: seq<Action>, h: TokenHash)
    requires Run(keyOf, s, actions).Some? && h in s.issued
    ensures Aged(s, Run(keyOf, s, actions).value, h)
    decreases |actions|
  {
    if actions != [] {
      var u := Apply(keyOf, s, actions[0]).value;
      assert Aged(s, u, h);
      RowsAge(keyOf, u, actions[1..], h);
    }
  }

  /** Cleanup costs no later buyer a download: if a cleanup at time `T` deletes a token, then in no
      continuation, with the cleanup or without it, does a serve that started at or after `T` consume it. */
  lemma CleanupSparesLaterServes(keyOf: string -> string, before: seq<Action>, i: nat, T: nat, h: TokenHash,
                                 after: seq<Action>, j: nat)
    requires Run(keyOf, Initial(), before).Some?
    requires var s := Run(keyOf, Initial(), before).value;
             && i < |s.requests| && s.requests[i].IssueCleaning? && s.requests[i].now == T
             && h in s.tokens && h !in Cleanup(s.tokens, T)
             && Run(keyOf, s, after).Some?
             && j < |Run(keyOf, s, after).value.requests|
    requires var r := Run(keyOf, Run(keyOf, Initial(), before).value, after).value.requests[j];
             r.ServeConsuming? && r.hash == h && r.now >= T
    ensures var t := Run(keyOf, Run(keyOf, Initial(), before).value, after).value;
            !Consumable(t.tokens, h, t.requests[j].now)
  {
    var s := Run(keyOf, Initial(), before).value;
    RunKeepsInv(keyOf, Initial(), before);
    RowsAge(keyOf, s, after, h);
  }

  /** For one cleanup: it takes a token a serve could have consumed with time `c` exactly if the token is unused
      and expires in a later second than `c` and in no later one than the cleanup. */
  lemma CleanupCostsExactly(tokens: Tokens, h: TokenHash, c: nat, T: nat)
    ensures Consumable(tokens, h, c) && !Consumable(Cleanup(tokens, T), h, c)
            <==> h in tokens && tokens[h].used.None? && Seconds(c) < Seconds(tokens[h].expires) <= Seconds(T)
  {
  }

  /** This step of a serve consumes the token. */
  predicate Consumes(s: State, a: Action, h: TokenHash) {
    && a.Advance? && a.request < |s.requests|
    && s.requests[a.request].ServeConsuming? && s.requests[a.request].hash == h
    && Consumable(s.tokens, h, s.requests[a.request].now)
  }

  /** This step of an issue deletes the token as expired. */
  predicate CleansUp(s: State, a: Action, h: TokenHash) {
    && a.Advance? && a.request < |s.requests| && s.requests[a.request].IssueCleaning?
    && h in s.tokens && Seconds(s.tokens[h].expires) <= Seconds(s.requests[a.request].now)
  }

  ghost predicate TakenDuring(keyOf: string -> string, s: State, actions: seq<Action>, h: TokenHash)
    decreases |actions|
  {
    && actions != []
    && (Consumes(s, actions[0], h) || CleansUp(s, actions[0], h)
        || (Apply(keyOf, s, actions[0]).Some?
            && TakenDuring(keyOf, Apply(keyOf, s, actions[0]).value, actions[1..], h)))
  }

  lemma StepTakesExactly(keyOf: string -> string, s: State, a: Action, h: TokenHash, c: nat)
    requires Apply(keyOf, s, a).Some? && h in s.issued && Consumable(s.tokens, h, c)
    ensures !Consumable(Apply(keyOf, s, a).value.tokens, h, c) <==> Consumes(s, a, h) || CleansUp(s, a, h)
  {
    hide LicenseTaken, Upsert, Increment;
  }

  lemma GoneForGood(keyOf: string -> string, s: State, actions: seq<Action>, h: TokenHash, c: nat)
    requires Run(keyOf, s, actions).Some? && h in s.issued && !Consumable(s.tokens, h, c)
    ensures !Consumable(Run(keyOf, s, actions).value.tokens, h, c)
  {
    hide Run;
    RowsAge(keyOf, s, actions, h);
  }

  lemma {:induction false} RunTakesExactly(keyOf: string -> string, s: State, actions: seq<Action>, h: TokenHash,
                                           c: nat)
    requires Run(keyOf, s, actions).Some? && h in s.issued && Consumable(s.tokens, h, c)
    ensures !Consumable(Run(keyOf, s, actions).value.tokens, h, c) <==> TakenDuring(keyOf, s, actions, h)
    decreases |actions|
  {
    hide Apply, Consumable, Consumes, CleansUp;
    if actions != [] {
      var u := Apply(keyOf, s, actions[0]).value;
      StepTakesExactly(keyOf, s, actions[0], h, c);
      StillIssued(keyOf, s, actions[0], h);
      if Consumable(u.tokens, h, c) {
        RunTakesExactly(keyOf, u, actions[1..], h, c);
      } else {
        GoneForGood(keyOf, u, actions[1..], h, c);
      }
    }
  }

  lemma StillIssued(keyOf: string -> string, s: State, a: Action, h: TokenHash)
    requires Apply(keyOf, s, a).Some? && h in s.issued
    ensures h in Apply(keyOf, s, a).value.issued
  {
    hide Cleanup, Upsert, Consume, Increment, Consumable;
  }

  /** Over runs: a serve that could consume its token at some moment of a run can do so at any later moment
      exactly until a serve consumes that token or a cleanup runs in a second no earlier than its expiry. */
  lemma TokenLostExactly(keyOf: string -> string, before: seq<Action>, after: seq<Action>, j: nat)
    requires Run(keyOf, Initial(), before).Some?
    requires var s := Run(keyOf, Initial(), before).value;
             && j < |s.requests| && s.requests[j].ServeConsuming? && Run(keyOf, s, after).Some?
             && Consumable(s.tokens, s.requests[j].hash, s.requests[j].now)
    ensures var s := Run(keyOf, Initial(), before).value;
            var h, c := s.requests[j].hash, s.requests[j].now;
            !Consumable(Run(keyOf, s, after).value.tokens, h, c) <==> TakenDuring(keyOf, s, after, h)
  {
    hide Run, Consumable, TakenDuring;
    RunKeepsInv(keyOf, Initial(), before);
    var s := Run(keyOf, Initial(), before).value;
    InFlightIsIssued(keyOf, s, j);
    RunTakesExactly(keyOf, s, after, s.requests[j].hash, s.requests[j].now);
  }

  lemma InFlightIsIssued(keyOf: string -> string, s: State, j: nat)
    requires Inv(keyOf, s) && j < |s.requests| && s.requests[j].ServeConsuming?
    ensures s.requests[j].hash in s.issued
  {
    assert RequestInv(keyOf, s, s.requests[j]);
  }

  lemma {:induction false} CountAtMostAll(rs: seq<Request>, session: string, k: Kind)
    ensures Count(rs, session, k) <= |rs|
    decreases |rs|
  {
    if rs != [] { CountAtMostAll(rs[..|rs| - 1], session, k); }
  }

  /** A hop of any kind, with the overlap left unbounded. */
  lemma FreeHop(keyOf: string -> string, s0: State, s: State, a: Action, t: State, session: string, w: nat)
    requires Hops(keyOf, s0, s, session, w) && Apply(keyOf, s, a) == Some(t)
    requires |s.requests| <= w && |t.requests| <= w
    ensures Hops(keyOf, s0, t, session, w)
  {
    CountAtMostAll(s.requests, session, Open);
    CountAtMostAll(t.requests, session, Open);
    Hop(keyOf, s, a, t, session, w);
    HopsOn(keyOf, s0, s, t, session, w);
  }

  /** Late in the life of token 0 a serve of it gets as far as consuming. */
  lemma ServeLate(keyOf: string -> string, s0: State, s: State, session: string, late: nat, w: nat) returns (t: State)
    requires Hops(keyOf, s0, s, session, w) && Stage(s, session, 0, 1, 0) && session in s.orders
    requires late < TOKEN_TTL_MS && |s.requests| < w
    ensures Hops(keyOf, s0, t, session, w)
    ensures t == s.(clock := late, requests := s.requests + [ServeConsuming(0, late, session)])
  {
    var i := |s.requests|;
    var s1 := s.(clock := late);
    var s2 := s1.(requests := s.requests + [ServeReading(0, late)]);
    var s3 := s1.(requests := s.requests + [ServeFetching(0, late, session)]);
    t := s1.(requests := s.requests + [ServeConsuming(0, late, session)]);
    FreeHop(keyOf, s0, s, Tick(late), s1, session, w);
    FreeHop(keyOf, s0, s1, BeginServe(0), s2, session, w);
    UpdateLast(s.requests, ServeReading(0, late), ServeFetching(0, late, session));
    FreeHop(keyOf, s0, s2, Advance(i, true, 0), s3, session, w);
    UpdateLast(s.requests, ServeFetching(0, late, session), ServeConsuming(0, late, session));
    FreeHop(keyOf, s0, s3, Advance(i, true, 0), t, session, w);
  }

  /** Later still an issue request for the same order gets as far as cleaning up. */
  lemma IssueLater(keyOf: string -> string, s0: State, s: State, session: string, wait: nat, w: nat) returns (t: State)
    requires Hops(keyOf, s0, s, session, w) && session in s.orders && s.orders[session].count == 0 && |s.requests| < w
    ensures Hops(keyOf, s0, t, session, w)
    ensures t.tokens == s.tokens && t.requests == s.requests + [IssueCleaning(session, s.clock + wait)]
  {
    var i, now, k := |s.requests|, s.clock + wait, s.orders[session].licenseKey;
    var s1 := s.(clock := now);
    var s2 := s1.(requests := s.requests + [IssueReading(session, now)]);
    var s3 := s1.(requests := s.requests + [IssueVerifying(session, now, k)]);
    t := s1.(requests := s.requests + [IssueCleaning(session, now)], orders := Upsert(s.orders, session, k, now));
    FreeHop(keyOf, s0, s, Tick(wait), s1, session, w);
    FreeHop(keyOf, s0, s1, BeginIssue(session), s2, session, w);
    UpdateLast(s.requests, IssueReading(session, now), IssueVerifying(session, now, k));
    FreeHop(keyOf, s0, s2, Advance(i, true, 0), s3, session, w);
    UpdateLast(s.requests, IssueVerifying(session, now, k), IssueCleaning(session, now));
    FreeHop(keyOf, s0, s3, Advance(i, true, 0), t, session, w);
  }

  /** The exception: a serve in flight consumes with the time captured at its start, so a cleanup that
      overtakes it does cost it the token. */
  lemma CleanupCanOvertakeAServe(keyOf: string -> string, session: string)
    ensures exists actions, i: nat, j: nat ::
              && Run(keyOf, Initial(), actions).Some?
              && var s := Run(keyOf, Initial(), actions).value;
              && i < |s.requests| && j < |s.requests|
              && s.requests[i].IssueCleaning? && s.requests[j].ServeConsuming?
              && Consumable(s.tokens, s.requests[j].hash, s.requests[j].now)
              && !Consumable(Cleanup(s.tokens, s.requests[i].now), s.requests[j].hash, s.requests[j].now)
  {
    var s := IssueMany(keyOf, Initial(), session, 1, 0);
    var n := |s.requests|;
    var actions :| Leads(keyOf, Initial(), actions, s, session, 0);
    LooserOverlap(keyOf, Initial(), actions, session, 0, n + 2);
    assert Leads(keyOf, Initial(), actions, s, session, n + 2);
    var t := ServeLate(keyOf, Initial(), s, session, TOKEN_TTL_MS - 1000, n + 2);
    var u := IssueLater(keyOf, Initial(), t, session, 1000, n + 2);
    assert u.requests[n] == ServeConsuming(0, TOKEN_TTL_MS - 1000, session);
    assert u.requests[n + 1] == IssueCleaning(session, TOKEN_TTL_MS);
    actions :| Leads(keyOf, Initial(), actions, u, session, n + 2);
  }

  lemma {:induction false} LooserOverlap(keyOf: string -> string, s: State, actions: seq<Action>, session: string,
                                         w: nat, v: nat)
    requires NeverMoreThan(keyOf, s, actions, session, w) && w <= v
    ensures NeverMoreThan(keyOf, s, actions, session, v)
    decreases |actions|
  {
    if actions != [] && Apply(keyOf, s, actions[0]).Some? {
      LooserOverlap(keyOf, Apply(keyOf, s, actions[0]).value, actions[1..], session, w, v);
    }
  }

  /** Three steps of one serve, with nothing in between: read, fetch, consume. */
  function Unraced(keyOf: string -> string, s: State, i: nat): Option<State> {
    var a := Advance(i, true, 0);
    if Apply(keyOf, s, a).None? || Apply(keyOf, Apply(keyOf, s, a).value, a).None? then None
    else Apply(keyOf, Apply(keyOf, Apply(keyOf, s, a).value, a).value, a)
  }

  lemma ReachedInv(keyOf: string -> string, actions: seq<Action>)
    requires Run(keyOf, Initial(), actions).Some?
    ensures Inv(keyOf, Run(keyOf, Initial(), actions).value)
  {
    hide Run;
    RunKeepsInv(keyOf, Initial(), actions);
  }

  lemma ReadingInv(keyOf: string -> string, s: State, i: nat)
    requires Inv(keyOf, s) && i < |s.requests| && s.requests[i].ServeReading?
    ensures s.requests[i].now <= s.clock && forall h | h in s.tokens :: s.tokens[h].session in s.orders
  {
    assert RequestInv(keyOf, s, s.requests[i]);
  }

  /** An unraced serve that starts at `c` and reads at the clock's time: with a token unused and an order below
      the limit, it consumes exactly if the token is alive at the read by the millisecond and at `c` by the
      second; and it gets past the read and then fails exactly in the last, broken second of the token's life. */
  lemma LastSecondIsLost(keyOf: string -> string, actions: seq<Action>, i: nat, h: TokenHash, c: nat)
    requires Run(keyOf, Initial(), actions).Some?
    requires var s := Run(keyOf, Initial(), actions).value;
             && i < |s.requests| && s.requests[i] == ServeReading(h, c)
             && h in s.tokens && s.tokens[h].used.None?
             && Downloads(s, s.tokens[h].session) < MAX_DOWNLOADS
    ensures var s := Run(keyOf, Initial(), actions).value;
            var expires, end := s.tokens[h].expires, Unraced(keyOf, s, i);
            && (end.Some? && end.value.requests[i].ServeCounting?
                <==> s.clock < expires && Seconds(c) < Seconds(expires))
            && (end.Some? && end.value.requests[i] == Rejected
                <==> s.clock < expires && Seconds(c) == Seconds(expires))
  {
    hide Run, Cleanup, Upsert, Increment, LicenseTaken, Consume, Inv;
    ReachedInv(keyOf, actions);
    ReadingInv(keyOf, Run(keyOf, Initial(), actions).value, i);
  }
}
