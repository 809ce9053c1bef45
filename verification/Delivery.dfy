/** One issue or serve request from beginning to end, statement by statement over the two tables. */
module Delivery {
  import opened Prelude
  import opened Ledger
  import opened LedgerTheorems

  // ----- an undisturbed request as a run of the ledger

  lemma Before(keyOf: string -> string, s: State, a: Action, t: State, rest: seq<Action>, u: State)
    requires Apply(keyOf, s, a) == Some(t) && Run(keyOf, t, rest) == Some(u)
    ensures Run(keyOf, s, [a] + rest) == Some(u)
  {
    hide Apply;
    assert ([a] + rest)[1..] == rest;
  }

  lemma Done(keyOf: string -> string, s: State)
    ensures Run(keyOf, s, []) == Some(s)
  {
  }

  /** The last request takes a step. */
  function At(s: State, rs: seq<Request>, r: Request): State { s.(requests := rs + [r]) }

  lemma LastStep(keyOf: string -> string, s: State, rs: seq<Request>, r: Request, success: bool, h: TokenHash)
    ensures Apply(keyOf, At(s, rs, r), Advance(|rs|, success, h))
            == AdvanceRequest(keyOf, At(s, rs, r), |rs|, success, h)
    ensures forall q :: (rs + [r])[|rs| := q] == rs + [q]
  {
    hide AdvanceRequest;
  }

  predicate Grants(keyOf: string -> string, s: State, session: string) {
    Downloads(s, session) < MAX_DOWNLOADS
    && (session in s.orders || !LicenseTaken(s.orders, session, keyOf(session)))
  }

  function AfterIssue(keyOf: string -> string, s: State, session: string, now: nat, h: TokenHash): State {
    if !Grants(keyOf, s, session) then At(s, s.requests, Rejected).(clock := now)
    else State(Upsert(s.orders, session, keyOf(session), now),
               Cleanup(s.tokens, now)[h := Token(session, now + TOKEN_TTL_MS, None)],
               s.requests + [Request.Issued(session)], now, s.consumptions, s.issued + {h})
  }

  ghost predicate KeysFit(keyOf: string -> string, s: State) {
    forall session | session in s.orders :: s.orders[session].licenseKey == keyOf(session)
  }

  lemma UpsertedFrom(keyOf: string -> string, s: State, session: string, now: nat, h: TokenHash)
    returns (rest: seq<Action>)
    requires h !in s.issued && Grants(keyOf, s, session)
    ensures Run(keyOf, At(s, s.requests, IssueVerifying(session, now, keyOf(session))).(clock := now), rest)
            == Some(AfterIssue(keyOf, s, session, now, h))
  {
    hide Run, Cleanup, Upsert, LicenseTaken, Downloads;
    var rs, i := s.requests, |s.requests|;
    var s2 := s.(clock := now);
    var s3 := s2.(orders := Upsert(s.orders, session, keyOf(session), now));
    var s4 := s3.(tokens := Cleanup(s.tokens, now));
    LastStep(keyOf, s2, rs, IssueVerifying(session, now, keyOf(session)), true, h);
    LastStep(keyOf, s3, rs, IssueCleaning(session, now), true, h);
    LastStep(keyOf, s4, rs, IssueInserting(session, now), true, h);
    var a := Advance(i, true, h);
    var end := AfterIssue(keyOf, s, session, now, h);
    Done(keyOf, end);
    Before(keyOf, At(s4, rs, IssueInserting(session, now)), a, end, [], end);
    Before(keyOf, At(s3, rs, IssueCleaning(session, now)), a, At(s4, rs, IssueInserting(session, now)), [a] + [], end);
    rest := [a] + ([a] + ([a] + []));
    Before(keyOf, At(s2, rs, IssueVerifying(session, now, keyOf(session))), a,
           At(s3, rs, IssueCleaning(session, now)), [a] + ([a] + []), end);
  }

  lemma IssueRun(keyOf: string -> string, s: State, session: string, now: nat, h: TokenHash)
    returns (trace: seq<Action>)
    requires KeysFit(keyOf, s) && h !in s.issued && now >= s.clock
    ensures Run(keyOf, s, trace) == Some(AfterIssue(keyOf, s, session, now, h))
  {
    hide Run, Cleanup, Upsert, LicenseTaken;
    var rs, i, s2, end := s.requests, |s.requests|, s.(clock := now), AfterIssue(keyOf, s, session, now, h);
    var a := Advance(i, true, h);
    var reading, verifying := IssueReading(session, now), IssueVerifying(session, now, keyOf(session));
    LastStep(keyOf, s2, rs, reading, true, h);
    LastStep(keyOf, s2, rs, verifying, true, h);
    Done(keyOf, end);
    var rest;
    if Downloads(s, session) >= MAX_DOWNLOADS {
      rest := [a] + [];
      Before(keyOf, At(s2, rs, reading), a, end, [], end);
    } else if !Grants(keyOf, s, session) {
      rest := [a] + ([a] + []);
      Before(keyOf, At(s2, rs, verifying), a, end, [], end);
      Before(keyOf, At(s2, rs, reading), a, At(s2, rs, verifying), [a] + [], end);
    } else {
      rest := UpsertedFrom(keyOf, s, session, now, h);
      Before(keyOf, At(s2, rs, reading), a, At(s2, rs, verifying), rest, end);
      rest := [a] + rest;
    }
    Before(keyOf, s2, BeginIssue(session), At(s2, rs, reading), rest, end);
    Before(keyOf, s, Tick(now - s.clock), s2, [BeginIssue(session)] + rest, end);
    trace := [Tick(now - s.clock)] + ([BeginIssue(session)] + rest);
  }

  /** The read finds the token and the order fit for a download. */
  predicate Admits(s: State, h: TokenHash, readAt: nat) {
    && h in s.tokens && s.tokens[h].used.None? && readAt < s.tokens[h].expires
    && Downloads(s, s.tokens[h].session) < MAX_DOWNLOADS
  }

  function AfterServe(s: State, h: TokenHash, now: nat, readAt: nat, fetched: bool): State {
    if !(Admits(s, h, readAt) && fetched && Consumable(s.tokens, h, now))
    then At(s, s.requests, Rejected).(clock := readAt)
    else
      var session := s.tokens[h].session;
      State(Increment(s.orders, session), Consume(s.tokens, h, now), s.requests + [Request.Served(session)], readAt,
            s.consumptions + [(h, session)], s.issued)
  }

  lemma ConsumingFrom(keyOf: string -> string, s: State, h: TokenHash, now: nat, readAt: nat)
    returns (rest: seq<Action>)
    requires Admits(s, h, readAt)
    ensures Run(keyOf, At(s, s.requests, ServeConsuming(h, now, s.tokens[h].session)).(clock := readAt), rest)
            == Some(AfterServe(s, h, now, readAt, true))
  {
    hide Run, Increment, Consume, Consumable, Downloads;
    var rs, s2, session, end := s.requests, s.(clock := readAt), s.tokens[h].session,
      AfterServe(s, h, now, readAt, true);
    var a := Advance(|rs|, true, 0);
    LastStep(keyOf, s2, rs, ServeConsuming(h, now, session), true, 0);
    Done(keyOf, end);
    if Consumable(s.tokens, h, now) {
      var s3 := s2.(tokens := Consume(s.tokens, h, now), consumptions := s.consumptions + [(h, session)]);
      LastStep(keyOf, s3, rs, ServeCounting(session), true, 0);
      Before(keyOf, At(s3, rs, ServeCounting(session)), a, end, [], end);
      Before(keyOf, At(s2, rs, ServeConsuming(h, now, session)), a, At(s3, rs, ServeCounting(session)), [a] + [], end);
      rest := [a] + ([a] + []);
    } else {
      Before(keyOf, At(s2, rs, ServeConsuming(h, now, session)), a, end, [], end);
      rest := [a] + [];
    }
  }

  lemma ReadingFrom(keyOf: string -> string, s: State, h: TokenHash, now: nat, readAt: nat, fetched: bool)
    returns (rest: seq<Action>)
    requires forall g | g in s.tokens :: s.tokens[g].session in s.orders
    ensures Run(keyOf, At(s, s.requests, ServeReading(h, now)).(clock := readAt), rest)
            == Some(AfterServe(s, h, now, readAt, fetched))
  {
    hide Run, Increment, Consume, Consumable;
    var rs, s2, end := s.requests, s.(clock := readAt), AfterServe(s, h, now, readAt, fetched);
    LastStep(keyOf, s2, rs, ServeReading(h, now), true, 0);
    Done(keyOf, end);
    if !Admits(s, h, readAt) {
      Before(keyOf, At(s2, rs, ServeReading(h, now)), Advance(|rs|, true, 0), end, [], end);
      rest := [Advance(|rs|, true, 0)] + [];
    } else {
      var fetching := ServeFetching(h, now, s.tokens[h].session);
      LastStep(keyOf, s2, rs, fetching, fetched, 0);
      if fetched {
        var more := ConsumingFrom(keyOf, s, h, now, readAt);
        Before(keyOf, At(s2, rs, fetching), Advance(|rs|, true, 0),
               At(s2, rs, ServeConsuming(h, now, s.tokens[h].session)), more, end);
        rest := [Advance(|rs|, true, 0)] + more;
      } else {
        Before(keyOf, At(s2, rs, fetching), Advance(|rs|, false, 0), end, [], end);
        rest := [Advance(|rs|, false, 0)] + [];
      }
      Before(keyOf, At(s2, rs, ServeReading(h, now)), Advance(|rs|, true, 0), At(s2, rs, fetching), rest, end);
      rest := [Advance(|rs|, true, 0)] + rest;
    }
  }

  lemma ServeRun(keyOf: string -> string, s: State, h: TokenHash, now: nat, readAt: nat, fetched: bool)
    returns (trace: seq<Action>)
    requires (forall g | g in s.tokens :: s.tokens[g].session in s.orders) && s.clock <= now <= readAt
    ensures Run(keyOf, s, trace) == Some(AfterServe(s, h, now, readAt, fetched))
  {
    hide Run, AfterServe;
    var rs, end := s.requests, AfterServe(s, h, now, readAt, fetched);
    var rest := ReadingFrom(keyOf, s, h, now, readAt, fetched);
    var s1 := s.(clock := now);
    var s2 := At(s1, rs, ServeReading(h, now));
    Before(keyOf, s2, Tick(readAt - now), s2.(clock := readAt), rest, end);
    Before(keyOf, s1, BeginServe(h), s2, [Tick(readAt - now)] + rest, end);
    trace := [Tick(now - s.clock)] + ([BeginServe(h)] + ([Tick(readAt - now)] + rest));
    Before(keyOf, s, Tick(now - s.clock), s1, [BeginServe(h)] + ([Tick(readAt - now)] + rest), end);
  }

  // ----- the requests

  datatype IssueReply = Granted(licenseKey: string, remaining: nat) | IssueRefused

  datatype ServeReply = Download | TokenRefused | LimitReached | AssetFailed

  ghost predicate Reachable(keyOf: string -> string, s: State) {
    exists actions :: Run(keyOf, Initial(), actions) == Some(s)
  }

  lemma {:induction false} RunOn(keyOf: string -> string, s: State, actions: seq<Action>, more: seq<Action>)
    requires Run(keyOf, s, actions).Some?
    ensures Run(keyOf, s, actions + more) == Run(keyOf, Run(keyOf, s, actions).value, more)
    decreases |actions|
  {
    hide Apply;
    if actions == [] {
      assert actions + more == more;
    } else {
      assert (actions + more)[1..] == actions[1..] + more;
      RunOn(keyOf, Apply(keyOf, s, actions[0]).value, actions[1..], more);
    }
  }

  lemma ReachOn(keyOf: string -> string, s: State, trace: seq<Action>, t: State)
    requires Reachable(keyOf, s) && Run(keyOf, s, trace) == Some(t)
    ensures Reachable(keyOf, t)
  {
    hide Run;
    var actions :| Run(keyOf, Initial(), actions) == Some(s);
    RunOn(keyOf, Initial(), actions, trace);
  }

  lemma ReachableTables(keyOf: string -> string, s: State)
    requires Reachable(keyOf, s)
    ensures KeysFit(keyOf, s) && s.tokens.Keys <= s.issued
    ensures forall h | h in s.tokens :: s.tokens[h].session in s.orders
  {
    hide Run;
    var actions :| Run(keyOf, Initial(), actions) == Some(s);
    RunKeepsInv(keyOf, Initial(), actions);
  }

  class DeliveryService {
    const keyOf: string -> string
    const tables: Tables
    /** The state of the ledger's protocol that goes with the tables. */
    ghost var ledger: State

    ghost predicate Valid()
      reads this, tables
    {
      tables.orders == ledger.orders && tables.tokens == ledger.tokens && Reachable(keyOf, ledger)
    }

    constructor (keyOf: string -> string)
      ensures Valid() && fresh(tables) && ledger == Initial() && this.keyOf == keyOf
    {
      this.keyOf := keyOf;
      tables := new Tables();
      ledger := Initial();
      new;
      Done(keyOf, Initial());
    }

    /** An issue request at time `now`, for a verified checkout session, as a run of the ledger. */
    method IssueDownload(session: string, now: nat, newHash: TokenHash)
      returns (reply: IssueReply, ghost trace: seq<Action>)
      requires Valid() && now >= ledger.clock && newHash !in ledger.issued
      modifies this`ledger, tables
      ensures Valid() && Run(keyOf, old(ledger), trace) == Some(ledger)
      ensures ledger == AfterIssue(keyOf, old(ledger), session, now, newHash)
      ensures reply.Granted?
              <==> if session in old(tables.orders) then old(tables.orders)[session].count < 5
                   else forall other | other in old(tables.orders) ::
                          old(tables.orders)[other].licenseKey != keyOf(session)
      ensures reply.Granted? ==>
                && reply.licenseKey == keyOf(session)
                && reply.remaining == 5 - Downloads(old(ledger), session)
                && tables.tokens[newHash] == Token(session, now + 900_000, None)
                && (forall h | h != newHash ::
                      h in tables.tokens <==> h in old(tables.tokens) && !Gone(old(tables.tokens)[h], now))
                && (forall h | h in tables.tokens && h != newHash :: tables.tokens[h] == old(tables.tokens)[h])
                && (forall other | other in old(tables.orders) && other != session ::
                      other in tables.orders && tables.orders[other] == old(tables.orders)[other])
                && session in tables.orders && tables.orders[session].licenseKey == keyOf(session)
                && tables.orders[session].count == Downloads(old(ledger), session)
      ensures reply.IssueRefused? ==> tables.orders == old(tables.orders) && tables.tokens == old(tables.tokens)
    {
      hide Run, Reachable, Expired, LicenseTaken, Cleanup, Upsert;
      ghost var root := ledger;
      ReachableTables(keyOf, root);
      GrantsSpelled(keyOf, root, session);
      if Grants(keyOf, root, session) { IssueSpelled(keyOf, root, session, now, newHash); }
      trace := IssueRun(keyOf, root, session, now, newHash);
      ledger := AfterIssue(keyOf, root, session, now, newHash);
      ReachOn(keyOf, root, trace, ledger);

      var count := if session in tables.orders then tables.orders[session].count else 0;
      if count >= MAX_DOWNLOADS { return IssueRefused, trace; }
      var licenseKey := if session in tables.orders then tables.orders[session].licenseKey else keyOf(session);
      var ok := tables.UpsertOrder(session, licenseKey, now);
      if !ok { return IssueRefused, trace; }
      tables.DeleteExpired(now);
      assert newHash !in tables.tokens by { CleanedKeys(root.tokens, now); }
      tables.InsertToken(newHash, session, now);
      return Granted(licenseKey, MAX_DOWNLOADS - count), trace;
    }

    /** A serve request that starts at `now` and reads its token at `readAt`, as a run of the ledger. */
    method ServeDownload(h: TokenHash, now: nat, readAt: nat, fetched: bool)
      returns (reply: ServeReply, ghost trace: seq<Action>)
      requires Valid() && ledger.clock <= now <= readAt
      modifies this`ledger, tables
      ensures Valid() && Run(keyOf, old(ledger), trace) == Some(ledger)
      ensures ledger == AfterServe(old(ledger), h, now, readAt, fetched)
      ensures reply == if h !in old(tables.tokens) || old(tables.tokens)[h].used.Some?
                          || old(tables.tokens)[h].expires <= readAt then TokenRefused
                       else if Downloads(old(ledger), old(tables.tokens)[h].session) >= 5 then LimitReached
                       else if !fetched then AssetFailed
                       else if old(tables.tokens)[h].expires / 1000 <= now / 1000 then TokenRefused
                       else Download
      ensures reply.Download? ==>
                var session := old(tables.tokens)[h].session;
                && session in old(tables.orders)
                && tables.orders == old(tables.orders)[session := old(tables.orders)[session].(
                                      count := old(tables.orders)[session].count + 1)]
                && tables.tokens == old(tables.tokens)[h := old(tables.tokens)[h].(used := Some(now))]
      ensures !reply.Download? ==> tables.orders == old(tables.orders) && tables.tokens == old(tables.tokens)
    {
      hide Run, Reachable;
      ghost var root := ledger;
      ReachableTables(keyOf, root);
      trace := ServeRun(keyOf, root, h, now, readAt, fetched);
      ledger := AfterServe(root, h, now, readAt, fetched);
      ReachOn(keyOf, root, trace, ledger);

      if h !in tables.tokens || tables.tokens[h].used.Some? || tables.tokens[h].expires <= readAt {
        return TokenRefused, trace;
      }
      var session := tables.tokens[h].session;
      if tables.orders[session].count >= MAX_DOWNLOADS { return LimitReached, trace; }
      if !fetched { return AssetFailed, trace; }
      var consumed := tables.ConsumeToken(h, now);
      if consumed.None? { return TokenRefused, trace; }
      tables.CountDownload(session);
      return Download, trace;
    }
  }

  lemma CleanedKeys(tokens: Tokens, now: nat)
    ensures Cleanup(tokens, now).Keys <= tokens.Keys
  {
  }

  /** Expired by whole seconds, or used at least a day ago. */
  predicate Gone(t: Token, now: nat) {
    t.expires / 1000 <= now / 1000 || (t.used.Some? && t.used.value / 1000 + 86_400 <= now / 1000)
  }

  lemma GrantsSpelled(keyOf: string -> string, s: State, session: string)
    ensures Grants(keyOf, s, session)
            <==> if session in s.orders then s.orders[session].count < 5
                 else forall other | other in s.orders :: s.orders[other].licenseKey != keyOf(session)
  {
  }

  lemma IssueSpelled(keyOf: string -> string, s: State, session: string, now: nat, h: TokenHash)
    requires KeysFit(keyOf, s) && h !in s.tokens && Grants(keyOf, s, session)
    ensures var t := AfterIssue(keyOf, s, session, now, h);
            && h in t.tokens && t.tokens[h] == Token(session, now + 900_000, None)
            && (forall g | g != h :: g in t.tokens <==> g in s.tokens && !Gone(s.tokens[g], now))
            && (forall g | g in t.tokens && g != h :: t.tokens[g] == s.tokens[g])
            && (forall other | other in s.orders && other != session ::
                  other in t.orders && t.orders[other] == s.orders[other])
            && session in t.orders && t.orders[session].licenseKey == keyOf(session)
            && t.orders[session].count == Downloads(s, session)
  {
    hide LicenseTaken, Grants;
    IssueGives(keyOf, s, session, now, h);
    TokenOfIssue(keyOf, s, session, now, h);
    assert Downloads(AfterIssue(keyOf, s, session, now, h), session) == Downloads(s, session);
  }

  // ----- what a buyer gets

  /** A granted issue leaves the order's count and every other order alone, drops exactly the expired tokens and
      keeps the others, and adds one that can be consumed at once. */
  lemma IssueGives(keyOf: string -> string, s: State, session: string, now: nat, h: TokenHash)
    requires KeysFit(keyOf, s) && h !in s.tokens && Grants(keyOf, s, session)
    ensures var t := AfterIssue(keyOf, s, session, now, h);
            && session in t.orders && t.orders[session].licenseKey == keyOf(session)
            && (forall other :: Downloads(t, other) == Downloads(s, other))
            && (forall other | other in s.orders && other != session ::
                  other in t.orders && t.orders[other] == s.orders[other])
            && Consumable(t.tokens, h, now)
            && (forall g | g != h :: g in t.tokens <==> g in s.tokens && !Expired(s.tokens[g], now))
            && (forall g | g in t.tokens && g != h :: t.tokens[g] == s.tokens[g])
  {
    hide LicenseTaken, Expired;
  }

  /** A served download counts one for its order and nothing for any other, and its token is gone for every later
      serve; a serve that fails changes no count and no token. */
  lemma ServeCounts(s: State, h: TokenHash, now: nat, readAt: nat, fetched: bool)
    requires forall g | g in s.tokens :: s.tokens[g].session in s.orders
    ensures var t := AfterServe(s, h, now, readAt, fetched);
            if Admits(s, h, readAt) && fetched && Consumable(s.tokens, h, now)
            then && (forall other ::
                       Downloads(t, other) == Downloads(s, other) + if other == s.tokens[h].session then 1 else 0)
                 && (forall later :: !Consumable(t.tokens, h, later))
                 && (forall g | g in s.tokens && g != h :: g in t.tokens && t.tokens[g] == s.tokens[g])
            else t.orders == s.orders && t.tokens == s.tokens
  {
  }

  /** The token of a granted issue serves one download, exactly if the serve reads it within fifteen minutes and
      started in an earlier second than its expiry; and then none, whenever it is tried again. */
  lemma IssuedTokenServesOnce(keyOf: string -> string, s: State, session: string, now: nat, h: TokenHash,
                              start: nat, readAt: nat, again: nat, readAgain: nat)
    requires KeysFit(keyOf, s) && h !in s.tokens && Grants(keyOf, s, session)
    requires forall g | g in s.tokens :: s.tokens[g].session in s.orders
    ensures var t := AfterIssue(keyOf, s, session, now, h);
            var u := AfterServe(t, h, start, readAt, true);
            && (Downloads(u, session) == Downloads(s, session) + 1
                <==> readAt < now + TOKEN_TTL_MS && Seconds(start) < Seconds(now + TOKEN_TTL_MS))
            && (Downloads(u, session) != Downloads(s, session)
                ==> AfterServe(u, h, again, readAgain, true) == At(u, u.requests, Rejected).(clock := readAgain))
  {
    hide LicenseTaken, Expired, Grants;
    IssueGives(keyOf, s, session, now, h);
    var t := AfterIssue(keyOf, s, session, now, h);
    assert t.tokens[h] == Token(session, now + TOKEN_TTL_MS, None) by { TokenOfIssue(keyOf, s, session, now, h); }
    forall g | g in t.tokens ensures t.tokens[g].session in t.orders {
      if g != h { assert t.tokens[g] == s.tokens[g] && t.tokens[g].session in s.orders; }
    }
    assert Downloads(t, session) < MAX_DOWNLOADS by { GrantedBelowLimit(keyOf, s, session); }
    ServeCounts(t, h, start, readAt, true);
  }

  lemma TokenOfIssue(keyOf: string -> string, s: State, session: string, now: nat, h: TokenHash)
    requires Grants(keyOf, s, session)
    ensures h in AfterIssue(keyOf, s, session, now, h).tokens
    ensures AfterIssue(keyOf, s, session, now, h).tokens[h] == Token(session, now + TOKEN_TTL_MS, None)
  {
    hide LicenseTaken;
  }

  lemma GrantedBelowLimit(keyOf: string -> string, s: State, session: string)
    requires Grants(keyOf, s, session)
    ensures Downloads(s, session) < MAX_DOWNLOADS
  {
    hide LicenseTaken;
  }
}
