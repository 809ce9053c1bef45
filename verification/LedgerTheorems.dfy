/** What the download ledger keeps over every interleaving of issue and serve requests. */
module LedgerTheorems {
  import opened Prelude
  import opened Ledger

  // ----- the invariant

  function Downloads(s: State, session: string): nat {
    if session in s.orders then s.orders[session].count else 0
  }

  ghost predicate OrdersInv(keyOf: string -> string, s: State) {
    forall session | session in s.orders ::
      && s.orders[session].licenseKey == keyOf(session)
      && s.orders[session].count + Count(s.requests, session, Uncounted) == ConsumedFor(s.consumptions, session)
  }

  ghost predicate TokensInv(s: State) {
    && s.tokens.Keys <= s.issued
    && (forall h | h in s.tokens :: s.tokens[h].session in s.orders)
    && (forall k | 0 <= k < |s.consumptions| ::
          && s.consumptions[k].0 in s.issued
          && s.consumptions[k].1 in s.orders
          && (s.consumptions[k].0 in s.tokens ==> s.tokens[s.consumptions[k].0].used.Some?))
    && (forall j, k | 0 <= j < k < |s.consumptions| :: s.consumptions[j].0 != s.consumptions[k].0)
  }

  /** A request carries the license key its session has or will get, the session of its token, and
      only sessions that have an order once it relies on one. */
  ghost predicate RequestInv(keyOf: string -> string, s: State, r: Request) {
    match r
    case IssueVerifying(session, now, k) => k == keyOf(session) && now <= s.clock
    case IssueCleaning(session, now) => session in s.orders && now <= s.clock
    case IssueInserting(session, _) => session in s.orders
    case ServeReading(_, now) => now <= s.clock
    case ServeFetching(h, now, session) =>
      session in s.orders && h in s.issued && (h in s.tokens ==> s.tokens[h].session == session)
    case ServeConsuming(h, now, session) =>
      session in s.orders && h in s.issued && (h in s.tokens ==> s.tokens[h].session == session)
    case ServeCounting(session) => session in s.orders
    case Stopped(was) => RequestInv(keyOf, s, was)
    case IssueReading(_, now) => now <= s.clock
    case _ => true
  }

  ghost predicate Inv(keyOf: string -> string, s: State) {
    && OrdersInv(keyOf, s)
    && (forall session | session !in s.orders ::
          Count(s.requests, session, Uncounted) == 0 && ConsumedFor(s.consumptions, session) == 0)
    && TokensInv(s)
    && (forall i | 0 <= i < |s.requests| :: RequestInv(keyOf, s, s.requests[i]))
  }

  /** The tables only grow in what a request relies on. */
  ghost predicate Extends(s: State, t: State) {
    && s.orders.Keys <= t.orders.Keys && s.issued <= t.issued && s.clock <= t.clock
    && forall h | h in t.tokens && h in s.issued :: h in s.tokens && t.tokens[h].session == s.tokens[h].session
  }

  lemma {:induction false} RequestInvKept(keyOf: string -> string, s: State, t: State, r: Request)
    requires RequestInv(keyOf, s, r) && Extends(s, t)
    ensures RequestInv(keyOf, t, r)
    decreases r
  {
    if r.Stopped? { RequestInvKept(keyOf, s, t, r.was); }
  }

  lemma RequestsInvKept(keyOf: string -> string, s: State, t: State, i: nat)
    requires Inv(keyOf, s) && Extends(s, t) && i < |s.requests|
    requires |t.requests| == |s.requests| && t.requests == s.requests[i := t.requests[i]]
    requires RequestInv(keyOf, t, t.requests[i])
    ensures forall j | 0 <= j < |t.requests| :: RequestInv(keyOf, t, t.requests[j])
  {
    forall j | 0 <= j < |t.requests| ensures RequestInv(keyOf, t, t.requests[j]) {
      if j != i { RequestInvKept(keyOf, s, t, s.requests[j]); }
    }
  }

  /** A step that neither consumes nor counts leaves every sum as it was. */
  lemma SumsKept(s: State, i: nat, r: Request, session: string)
    requires i < |s.requests|
    requires Matches(s.requests[i], session, Uncounted) <==> Matches(r, session, Uncounted)
    ensures Count(s.requests[i := r], session, Uncounted) == Count(s.requests, session, Uncounted)
  {
    CountAfterChange(s.requests, i, r, session, Uncounted);
  }

  ghost predicate Quiet(s: State, t: State, i: nat) {
    && i < |s.requests| && |t.requests| == |s.requests|
    && t.requests == s.requests[i := t.requests[i]]
    && t.consumptions == s.consumptions
    && forall session :: Matches(s.requests[i], session, Uncounted) <==> Matches(t.requests[i], session, Uncounted)
  }

  /** Every step of a request but consuming and counting: it prepares what comes next. */
  lemma SimpleAdvanceEffect(keyOf: string -> string, s: State, i: nat, success: bool, h: TokenHash)
    requires i < |s.requests| && AdvanceRequest(keyOf, s, i, success, h).Some?
    requires RequestInv(keyOf, s, s.requests[i]) && s.tokens.Keys <= s.issued
    requires forall session | session in s.orders :: s.orders[session].licenseKey == keyOf(session)
    requires !s.requests[i].ServeConsuming? && !s.requests[i].ServeCounting?
    ensures var t := AdvanceRequest(keyOf, s, i, success, h).value;
            Quiet(s, t, i) && Extends(s, t) && RequestInv(keyOf, t, t.requests[i])
  {
    hide AdvanceRequest, Quiet, Extends, RequestInv;
    if s.requests[i].ServeReading? || s.requests[i].ServeFetching? {
      ServeAdvanceEffect(keyOf, s, i, success, h);
    } else {
      IssueAdvanceEffect(keyOf, s, i, success, h);
    }
  }

  lemma ServeAdvanceEffect(keyOf: string -> string, s: State, i: nat, success: bool, h: TokenHash)
    requires i < |s.requests| && AdvanceRequest(keyOf, s, i, success, h).Some?
    requires RequestInv(keyOf, s, s.requests[i]) && s.tokens.Keys <= s.issued
    requires s.requests[i].ServeReading? || s.requests[i].ServeFetching?
    ensures var t := AdvanceRequest(keyOf, s, i, success, h).value;
            Quiet(s, t, i) && Extends(s, t) && RequestInv(keyOf, t, t.requests[i])
  {
    hide Expired, Consumable, LicenseTaken, Upsert, Cleanup, Consume, Increment;
    var t := AdvanceRequest(keyOf, s, i, success, h).value;
    assert t.tokens == s.tokens && t.orders == s.orders;
  }

  lemma IssueAdvanceEffect(keyOf: string -> string, s: State, i: nat, success: bool, h: TokenHash)
    requires i < |s.requests| && AdvanceRequest(keyOf, s, i, success, h).Some?
    requires RequestInv(keyOf, s, s.requests[i]) && s.tokens.Keys <= s.issued
    requires forall session | session in s.orders :: s.orders[session].licenseKey == keyOf(session)
    requires !s.requests[i].ServeReading? && !s.requests[i].ServeFetching?
    requires !s.requests[i].ServeConsuming? && !s.requests[i].ServeCounting?
    ensures var t := AdvanceRequest(keyOf, s, i, success, h).value;
            Quiet(s, t, i) && Extends(s, t) && RequestInv(keyOf, t, t.requests[i])
  {
    hide Expired, Consumable, LicenseTaken, Consume, Increment, Upsert, Cleanup, Quiet;
    IssueAdvanceIsQuiet(keyOf, s, i, success, h);
    var t := AdvanceRequest(keyOf, s, i, success, h).value;
    match s.requests[i]
    case IssueReading(_, _) => assert t.tokens == s.tokens && t.orders == s.orders;
    case IssueVerifying(session, now, k) => UpsertGrows(s.orders, session, k, now);
    case IssueCleaning(_, now) => CleanupShrinks(s.tokens, now);
    case IssueInserting(_, _) => assert t.orders == s.orders;
    case _ =>
  }

  lemma IssueAdvanceIsQuiet(keyOf: string -> string, s: State, i: nat, success: bool, h: TokenHash)
    requires i < |s.requests| && AdvanceRequest(keyOf, s, i, success, h).Some?
    requires !s.requests[i].ServeConsuming? && !s.requests[i].ServeCounting?
    ensures Quiet(s, AdvanceRequest(keyOf, s, i, success, h).value, i)
  {
    hide Expired, Consumable, LicenseTaken, Consume, Increment, Upsert, Cleanup;
  }

  lemma UpsertGrows(orders: Orders, session: string, k: string, now: nat)
    ensures session in Upsert(orders, session, k, now)
    ensures orders.Keys <= Upsert(orders, session, k, now).Keys
  {
  }

  lemma CleanupShrinks(tokens: Tokens, now: nat)
    ensures forall h | h in Cleanup(tokens, now) :: h in tokens && Cleanup(tokens, now)[h] == tokens[h]
  {
  }

  lemma AdvanceKeepsOrders(keyOf: string -> string, s: State, i: nat, success: bool, h: TokenHash)
    requires i < |s.requests| && AdvanceRequest(keyOf, s, i, success, h).Some?
    requires !s.requests[i].IssueVerifying? && !s.requests[i].ServeCounting?
    ensures AdvanceRequest(keyOf, s, i, success, h).value.orders == s.orders
  {
    hide Cleanup, Consumable, LicenseTaken, Consume, Increment, Upsert;
  }

  lemma VerifyKeepsOrders(keyOf: string -> string, s: State, i: nat, success: bool, h: TokenHash)
    requires i < |s.requests| && AdvanceRequest(keyOf, s, i, success, h).Some?
    requires s.requests[i].IssueVerifying?
    ensures var r, t := s.requests[i], AdvanceRequest(keyOf, s, i, success, h).value;
            t.orders == s.orders || t.orders == Upsert(s.orders, r.session, r.licenseKey, r.now)
  {
    hide LicenseTaken, Upsert;
  }

  lemma SimpleAdvanceKeepsOrders(keyOf: string -> string, s: State, i: nat, success: bool, h: TokenHash)
    requires i < |s.requests| && AdvanceRequest(keyOf, s, i, success, h).Some?
    requires RequestInv(keyOf, s, s.requests[i])
    requires forall session | session in s.orders :: s.orders[session].licenseKey == keyOf(session)
    requires !s.requests[i].ServeConsuming? && !s.requests[i].ServeCounting?
    ensures var t := AdvanceRequest(keyOf, s, i, success, h).value;
            && s.orders.Keys <= t.orders.Keys
            && forall session | session in t.orders ::
                 t.orders[session].licenseKey == keyOf(session) && t.orders[session].count == Downloads(s, session)
  {
    hide AdvanceRequest;
    if s.requests[i].IssueVerifying? {
      VerifyKeepsOrders(keyOf, s, i, success, h);
    } else {
      AdvanceKeepsOrders(keyOf, s, i, success, h);
    }
  }

  lemma TokensInvKept(s: State, t: State)
    requires TokensInv(s) && s.orders.Keys <= t.orders.Keys
    requires t.consumptions == s.consumptions && t.issued == s.issued
    requires forall h | h in t.tokens :: h in s.tokens && t.tokens[h] == s.tokens[h]
    ensures TokensInv(t)
  {
  }

  lemma InsertKeepsTokens(s: State, t: State, h: TokenHash, token: Token)
    requires TokensInv(s) && h !in s.issued && token.session in s.orders
    requires t.orders == s.orders && t.consumptions == s.consumptions
    requires t.issued == s.issued + {h} && t.tokens == s.tokens[h := token]
    ensures TokensInv(t)
  {
  }

  lemma SimpleAdvanceKeepsTokens(keyOf: string -> string, s: State, i: nat, success: bool, h: TokenHash)
    requires TokensInv(s) && i < |s.requests| && AdvanceRequest(keyOf, s, i, success, h).Some?
    requires RequestInv(keyOf, s, s.requests[i])
    requires !s.requests[i].ServeConsuming? && !s.requests[i].ServeCounting?
    ensures TokensInv(AdvanceRequest(keyOf, s, i, success, h).value)
  {
    var t := AdvanceRequest(keyOf, s, i, success, h).value;
    if s.requests[i].IssueInserting? {
      InsertKeepsTokens(s, t, h, t.tokens[h]);
    } else {
      TokensInvKept(s, t);
    }
  }

  lemma SimpleAdvanceKeepsInv(keyOf: string -> string, s: State, i: nat, success: bool, h: TokenHash)
    requires Inv(keyOf, s) && i < |s.requests| && AdvanceRequest(keyOf, s, i, success, h).Some?
    requires !s.requests[i].ServeConsuming? && !s.requests[i].ServeCounting?
    ensures Inv(keyOf, AdvanceRequest(keyOf, s, i, success, h).value)
  {
    var t := AdvanceRequest(keyOf, s, i, success, h).value;
    assert RequestInv(keyOf, s, s.requests[i]);
    SimpleAdvanceEffect(keyOf, s, i, success, h);
    SimpleAdvanceKeepsOrders(keyOf, s, i, success, h);
    SimpleAdvanceKeepsTokens(keyOf, s, i, success, h);
    SumsDecideOrders(keyOf, s, t, i);
    RequestsInvKept(keyOf, s, t, i);
  }

  lemma SumsDecideOrders(keyOf: string -> string, s: State, t: State, i: nat)
    requires Inv(keyOf, s) && Quiet(s, t, i) && s.orders.Keys <= t.orders.Keys
    requires forall session | session in t.orders ::
               t.orders[session].licenseKey == keyOf(session) && t.orders[session].count == Downloads(s, session)
    ensures OrdersInv(keyOf, t)
    ensures forall session | session !in t.orders ::
              Count(t.requests, session, Uncounted) == 0 && ConsumedFor(t.consumptions, session) == 0
  {
    forall session ensures Count(t.requests, session, Uncounted) == Count(s.requests, session, Uncounted) {
      SumsKept(s, i, t.requests[i], session);
    }
  }

  lemma ConsumeKeepsInv(keyOf: string -> string, s: State, i: nat, success: bool, h: TokenHash)
    requires Inv(keyOf, s) && i < |s.requests| && s.requests[i].ServeConsuming?
    ensures Inv(keyOf, AdvanceRequest(keyOf, s, i, success, h).value)
  {
    var r, t := s.requests[i], AdvanceRequest(keyOf, s, i, success, h).value;
    assert RequestInv(keyOf, s, r);
    RequestsInvKept(keyOf, s, t, i);
    if Consumable(s.tokens, r.hash, r.now) {
      ConsumptionIsNew(s, t, r.hash, r.session, r.now);
      ConsumptionSums(s, t, i, r.hash, r.session);
    } else {
      SumsDecideOrders(keyOf, s, t, i);
    }
  }

  /** Only an unused token is consumed, and a used one is never unused again. */
  lemma ConsumptionIsNew(s: State, t: State, h: TokenHash, session: string, now: nat)
    requires TokensInv(s) && Consumable(s.tokens, h, now) && s.tokens[h].session == session
    requires t.orders == s.orders && t.issued == s.issued && t.tokens == s.tokens[h := s.tokens[h].(used := Some(now))]
    requires t.consumptions == s.consumptions + [(h, session)]
    ensures TokensInv(t)
  {
  }

  lemma ConsumptionSums(s: State, t: State, i: nat, h: TokenHash, session: string)
    requires i < |s.requests| && s.requests[i].ServeConsuming?
    requires t.requests == s.requests[i := ServeCounting(session)] && t.consumptions == s.consumptions + [(h, session)]
    ensures forall x ::
              Count(t.requests, x, Uncounted) == Count(s.requests, x, Uncounted) + (if x == session then 1 else 0)
    ensures forall x ::
              ConsumedFor(t.consumptions, x) == ConsumedFor(s.consumptions, x) + (if x == session then 1 else 0)
  {
    forall x
      ensures Count(t.requests, x, Uncounted) == Count(s.requests, x, Uncounted) + (if x == session then 1 else 0)
    {
      CountAfterChange(s.requests, i, ServeCounting(session), x, Uncounted);
    }
    assert t.consumptions[..|s.consumptions|] == s.consumptions;
  }

  lemma CountKeepsInv(keyOf: string -> string, s: State, i: nat, success: bool, h: TokenHash)
    requires Inv(keyOf, s) && i < |s.requests| && s.requests[i].ServeCounting?
    ensures Inv(keyOf, AdvanceRequest(keyOf, s, i, success, h).value)
  {
    var r, t := s.requests[i], AdvanceRequest(keyOf, s, i, success, h).value;
    assert RequestInv(keyOf, s, r);
    RequestsInvKept(keyOf, s, t, i);
    forall session
      ensures Count(t.requests, session, Uncounted) + (if session == r.session then 1 else 0)
              == Count(s.requests, session, Uncounted)
    {
      CountAfterChange(s.requests, i, Served(r.session), session, Uncounted);
    }
  }

  lemma StepKeepsInv(keyOf: string -> string, s: State, a: Action)
    requires Inv(keyOf, s) && Apply(keyOf, s, a).Some?
    ensures Inv(keyOf, Apply(keyOf, s, a).value)
  {
    var t := Apply(keyOf, s, a).value;
    match a
    case Tick(_) =>
      forall j | 0 <= j < |t.requests| ensures RequestInv(keyOf, t, t.requests[j]) {
        RequestInvKept(keyOf, s, t, s.requests[j]);
      }
    case BeginIssue(_) => StartKeepsInv(keyOf, s, t);
    case BeginServe(_) => StartKeepsInv(keyOf, s, t);
    case Advance(i, success, h) =>
      if s.requests[i].ServeConsuming? { ConsumeKeepsInv(keyOf, s, i, success, h); }
      else if s.requests[i].ServeCounting? { CountKeepsInv(keyOf, s, i, success, h); }
      else { SimpleAdvanceKeepsInv(keyOf, s, i, success, h); }
    case Stop(i) =>
      assert RequestInv(keyOf, s, s.requests[i]);
      RequestInvKept(keyOf, s, t, s.requests[i]);
      RequestsInvKept(keyOf, s, t, i);
      forall session ensures Count(t.requests, session, Uncounted) == Count(s.requests, session, Uncounted) {
        SumsKept(s, i, t.requests[i], session);
      }
  }

  lemma StartKeepsInv(keyOf: string -> string, s: State, t: State)
    requires Inv(keyOf, s) && |t.requests| == |s.requests| + 1
    requires t == s.(requests := s.requests + [t.requests[|s.requests|]])
    requires t.requests[|s.requests|].IssueReading? || t.requests[|s.requests|].ServeReading?
    requires t.requests[|s.requests|].now == s.clock
    ensures Inv(keyOf, t)
  {
    forall j | 0 <= j < |t.requests| ensures RequestInv(keyOf, t, t.requests[j]) {
      if j < |s.requests| { RequestInvKept(keyOf, s, t, s.requests[j]); }
    }
    forall session ensures Count(t.requests, session, Uncounted) == Count(s.requests, session, Uncounted) {
      CountAfterStart(s.requests, t.requests[|s.requests|], session, Uncounted);
    }
  }

  lemma {:induction false} RunKeepsInv(keyOf: string -> string, s: State, actions: seq<Action>)
    requires Inv(keyOf, s) && Run(keyOf, s, actions).Some?
    ensures Inv(keyOf, Run(keyOf, s, actions).value)
    decreases |actions|
  {
    if actions != [] {
      StepKeepsInv(keyOf, s, actions[0]);
      RunKeepsInv(keyOf, Apply(keyOf, s, actions[0]).value, actions[1..]);
    }
  }

  // ----- main results

  /** Every interleaving: no token is consumed twice; the download count and the serves cut off or
      still running between consuming and counting add up to the tokens consumed for the order; and
      every license key is the deterministic key of its session. */
  lemma LedgerBalances(keyOf: string -> string, actions: seq<Action>)
    requires Run(keyOf, Initial(), actions).Some?
    ensures var s := Run(keyOf, Initial(), actions).value;
            && (forall j, k | 0 <= j < k < |s.consumptions| :: s.consumptions[j].0 != s.consumptions[k].0)
            && (forall session | session in s.orders ::
                  && s.orders[session].licenseKey == keyOf(session)
                  && s.orders[session].count + Count(s.requests, session, Uncounted)
                    == ConsumedFor(s.consumptions, session))
            && (forall session | session !in s.orders :: ConsumedFor(s.consumptions, session) == 0)
  {
    RunKeepsInv(keyOf, Initial(), actions);
  }

  /** Verifying an order again changes neither its count nor its license key; only counting a
      download changes a count, by one. */
  lemma OnlyCountingChangesACount(keyOf: string -> string, s: State, a: Action, session: string)
    requires Apply(keyOf, s, a).Some? && session in s.orders
    ensures var t := Apply(keyOf, s, a).value;
            && session in t.orders
            && t.orders[session].licenseKey == s.orders[session].licenseKey
            && t.orders[session].count - s.orders[session].count
               == (if a.Advance? && s.requests[a.request] == ServeCounting(session) then 1 else 0)
  {
  }

  /** The steps of a run that count a download of the order. */
  function CountingSteps(keyOf: string -> string, s: State, actions: seq<Action>, session: string): nat
    decreases |actions|
  {
    if actions == [] || Apply(keyOf, s, actions[0]).None? then 0
    else
      var a := actions[0];
      CountingSteps(keyOf, Apply(keyOf, s, a).value, actions[1..], session)
      + if a.Advance? && s.requests[a.request] == ServeCounting(session) then 1 else 0
  }

  /** Over a run an order is never lost, its license key never changes, and its count goes up by the downloads
      counted for it and by nothing else, however often it is verified again. */
  lemma {:induction false} CountsAreCountingSteps(keyOf: string -> string, s: State, actions: seq<Action>,
                                                  session: string)
    requires Run(keyOf, s, actions).Some? && session in s.orders
    ensures var t := Run(keyOf, s, actions).value;
            && session in t.orders && t.orders[session].licenseKey == s.orders[session].licenseKey
            && t.orders[session].count == s.orders[session].count + CountingSteps(keyOf, s, actions, session)
    decreases |actions|
  {
    hide Apply;
    if actions != [] {
      OnlyCountingChangesACount(keyOf, s, actions[0], session);
      CountsAreCountingSteps(keyOf, Apply(keyOf, s, actions[0]).value, actions[1..], session);
    }
  }

  /** At every moment of the run, at most `w` serves of the order are past the limit check and uncounted. */
  ghost predicate NeverMoreThan(keyOf: string -> string, s: State, actions: seq<Action>, session: string, w: nat)
    decreases |actions|
  {
    && Count(s.requests, session, Open) <= w
    && (actions != [] && Apply(keyOf, s, actions[0]).Some? ==>
          NeverMoreThan(keyOf, Apply(keyOf, s, actions[0]).value, actions[1..], session, w))
  }

  ghost predicate Bounded(s: State, session: string, w: nat) {
    Downloads(s, session) < MAX_DOWNLOADS
      || Downloads(s, session) + Count(s.requests, session, Open) <= MAX_DOWNLOADS - 1 + w
  }

  /** Only a read that found room for a download opens a serve. */
  lemma AdvanceOpens(keyOf: string -> string, s: State, i: nat, success: bool, h: TokenHash, session: string)
    requires i < |s.requests| && AdvanceRequest(keyOf, s, i, success, h).Some?
    ensures var t := AdvanceRequest(keyOf, s, i, success, h).value;
            && t.requests == s.requests[i := t.requests[i]]
            && (Matches(t.requests[i], session, Open) && !Matches(s.requests[i], session, Open)
                ==> Downloads(s, session) < MAX_DOWNLOADS)
  {
    hide Cleanup, Consumable, LicenseTaken, Consume, Increment, Upsert;
  }

  lemma CountingStep(keyOf: string -> string, s: State, i: nat, success: bool, h: TokenHash)
    requires i < |s.requests| && s.requests[i].ServeCounting?
    ensures var t := AdvanceRequest(keyOf, s, i, success, h);
            && t.Some? && t.value.orders == Increment(s.orders, s.requests[i].session)
            && t.value.requests[i] == Served(s.requests[i].session)
  {
    hide Increment;
  }

  /** A request comes past the limit check only below the limit, and counting takes it out again. */
  lemma AdvanceAndTheLimit(keyOf: string -> string, s: State, i: nat, success: bool, h: TokenHash, session: string)
    requires i < |s.requests| && AdvanceRequest(keyOf, s, i, success, h).Some?
    requires RequestInv(keyOf, s, s.requests[i])
    ensures Steadies(s, AdvanceRequest(keyOf, s, i, success, h).value, i, session)
  {
    hide AdvanceRequest, LicenseTaken;
    AdvanceOpens(keyOf, s, i, success, h, session);
    if s.requests[i].IssueVerifying? {
      VerifyKeepsOrders(keyOf, s, i, success, h);
    } else if s.requests[i].ServeCounting? {
      CountingStep(keyOf, s, i, success, h);
    } else {
      AdvanceKeepsOrders(keyOf, s, i, success, h);
    }
  }

  ghost predicate Steadies(s: State, t: State, i: nat, session: string) {
    && i < |s.requests| && i < |t.requests|
    && var was, now := Matches(s.requests[i], session, Open), Matches(t.requests[i], session, Open);
    && t.requests == s.requests[i := t.requests[i]]
    && (now && !was ==> Downloads(s, session) < MAX_DOWNLOADS)
    && (Downloads(t, session) == Downloads(s, session)
        || (Downloads(t, session) == Downloads(s, session) + 1 && was && !now))
  }

  lemma SteadyKeepsBound(s: State, t: State, i: nat, session: string, w: nat)
    requires Steadies(s, t, i, session) && Bounded(s, session, w) && Count(s.requests, session, Open) <= w
    ensures Bounded(t, session, w)
  {
    CountAfterChange(s.requests, i, t.requests[i], session, Open);
  }

  lemma StartKeepsBound(s: State, r: Request, session: string, w: nat)
    requires Bounded(s, session, w) && (r.IssueReading? || r.ServeReading?)
    ensures Bounded(s.(requests := s.requests + [r]), session, w)
  {
    CountAfterStart(s.requests, r, session, Open);
  }

  lemma StepKeepsBound(keyOf: string -> string, s: State, a: Action, session: string, w: nat)
    requires Inv(keyOf, s) && Apply(keyOf, s, a).Some? && Bounded(s, session, w)
    requires Count(s.requests, session, Open) <= w
    ensures Bounded(Apply(keyOf, s, a).value, session, w)
  {
    var t := Apply(keyOf, s, a).value;
    match a
    case Tick(_) =>
    case BeginIssue(x) => StartKeepsBound(s, IssueReading(x, s.clock), session, w);
    case BeginServe(h) => StartKeepsBound(s, ServeReading(h, s.clock), session, w);
    case Advance(i, success, h) =>
      assert RequestInv(keyOf, s, s.requests[i]);
      AdvanceAndTheLimit(keyOf, s, i, success, h, session);
      SteadyKeepsBound(s, t, i, session, w);
    case Stop(i) => SteadyKeepsBound(s, t, i, session, w);
  }

  lemma {:induction false} RunKeepsBound(keyOf: string -> string, s: State, actions: seq<Action>, session: string,
                                         w: nat)
    requires Inv(keyOf, s) && Run(keyOf, s, actions).Some? && Bounded(s, session, w)
    requires NeverMoreThan(keyOf, s, actions, session, w)
    ensures Bounded(Run(keyOf, s, actions).value, session, w)
    decreases |actions|
  {
    if actions != [] {
      StepKeepsInv(keyOf, s, actions[0]);
      StepKeepsBound(keyOf, s, actions[0], session, w);
      RunKeepsBound(keyOf, Apply(keyOf, s, actions[0]).value, actions[1..], session, w);
    }
  }

  /** With at most `w` overlapping serves, an order is downloaded at most `4 + w` times; so five
      times when its serves do not overlap. */
  lemma DownloadsBoundedByOverlap(keyOf: string -> string, actions: seq<Action>, session: string, w: nat)
    requires Run(keyOf, Initial(), actions).Some?
    requires NeverMoreThan(keyOf, Initial(), actions, session, w)
    ensures Downloads(Run(keyOf, Initial(), actions).value, session) <= 4 + w
  {
    RunKeepsBound(keyOf, Initial(), actions, session, w);
  }
}
