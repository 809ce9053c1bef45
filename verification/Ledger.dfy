/** The commercial download ledger: an order table and a table of one-time download tokens. */
module Ledger {
  import opened Prelude

  const MAX_DOWNLOADS := 5
  const TOKEN_TTL_MS := 15 * 60 * 1000
  const DAY_SECONDS := 24 * 60 * 60

  /** Token hashes are only compared, and a fresh random token's hash has never been seen. */
  type TokenHash = nat

  datatype Order = Order(count: nat, licenseKey: string, lastVerified: nat)

  /** `expires` and `used` are times in milliseconds. */
  datatype Token = Token(session: string, expires: nat, used: Option<nat>)

  type Orders = map<string, Order>
  type Tokens = map<TokenHash, Token>

  /** SQL compares times as `datetime(...)`, which drops the fraction of a second. */
  function Seconds(ms: nat): nat { ms / 1000 }

  // ----- what each SQL statement does to its table

  predicate LicenseTaken(orders: Orders, session: string, licenseKey: string) {
    exists other | other in orders :: other != session && orders[other].licenseKey == licenseKey
  }

  function Upsert(orders: Orders, session: string, licenseKey: string, now: nat): Orders {
    if session in orders then orders[session := orders[session].(lastVerified := now)]
    else orders[session := Order(0, licenseKey, now)]
  }

  predicate Expired(t: Token, now: nat) {
    || Seconds(t.expires) <= Seconds(now)
    || (t.used.Some? && Seconds(t.used.value) + DAY_SECONDS <= Seconds(now))
  }

  function Cleanup(tokens: Tokens, now: nat): Tokens {
    map h | h in tokens && !Expired(tokens[h], now) :: tokens[h]
  }

  predicate Consumable(tokens: Tokens, h: TokenHash, now: nat) {
    h in tokens && tokens[h].used.None? && Seconds(tokens[h].expires) > Seconds(now)
  }

  function Consume(tokens: Tokens, h: TokenHash, now: nat): Tokens {
    if Consumable(tokens, h, now) then tokens[h := tokens[h].(used := Some(now))] else tokens
  }

  function Increment(orders: Orders, session: string): Orders {
    if session in orders then orders[session := orders[session].(count := orders[session].count + 1)] else orders
  }

  /** The two tables, each method one statement. */
  class Tables {
    var orders: Orders
    var tokens: Tokens

    constructor ()
      ensures orders == map[] && tokens == map[]
    {
      orders, tokens := map[], map[];
    }

    method UpsertOrder(session: string, licenseKey: string, now: nat) returns (ok: bool)
      modifies this`orders
      ensures ok <==> old(session in orders || !LicenseTaken(orders, session, licenseKey))
      ensures orders == if ok then Upsert(old(orders), session, licenseKey, now) else old(orders)
    {
      if session in orders {
        var o := orders[session];
        orders := orders[session := o.(lastVerified := now)];
        return true;
      }
      if LicenseTaken(orders, session, licenseKey) { return false; }
      orders := orders[session := Order(0, licenseKey, now)];
      return true;
    }

    method DeleteExpired(now: nat)
      modifies this`tokens
      ensures tokens == Cleanup(old(tokens), now)
    {
      tokens := map h | h in tokens && !Expired(tokens[h], now) :: tokens[h];
    }

    method InsertToken(h: TokenHash, session: string, now: nat)
      requires h !in tokens
      modifies this`tokens
      ensures tokens == old(tokens)[h := Token(session, now + TOKEN_TTL_MS, None)]
    {
      tokens := tokens[h := Token(session, now + TOKEN_TTL_MS, None)];
    }

    method ConsumeToken(h: TokenHash, now: nat) returns (session: Option<string>)
      modifies this`tokens
      ensures session.Some? <==> old(Consumable(tokens, h, now))
      ensures session.Some? ==> session.value == old(tokens)[h].session
      ensures tokens == Consume(old(tokens), h, now)
    {
      if h in tokens && tokens[h].used.None? && Seconds(tokens[h].expires) > Seconds(now) {
        tokens := tokens[h := tokens[h].(used := Some(now))];
        return Some(tokens[h].session);
      }
      return None;
    }

    method CountDownload(session: string)
      modifies this`orders
      ensures orders == Increment(old(orders), session)
    {
      if session in orders {
        orders := orders[session := orders[session].(count := orders[session].count + 1)];
      }
    }
  }

  // ----- requests as interleaved steps

  /** Where a request stands. `now` is the time captured when it started. `Stopped` remembers where a
      request was cut off. */
  datatype Request =
    | IssueReading(session: string, now: nat)
    | IssueVerifying(session: string, now: nat, licenseKey: string)
    | IssueCleaning(session: string, now: nat)
    | IssueInserting(session: string, now: nat)
    | Issued(session: string)
    | ServeReading(hash: TokenHash, now: nat)
    | ServeFetching(hash: TokenHash, now: nat, session: string)
    | ServeConsuming(hash: TokenHash, now: nat, session: string)
    | ServeCounting(session: string)
    | Served(session: string)
    | Rejected
    | Stopped(was: Request)

  /** `consumptions` and `issued` record history: tokens consumed, with their orders, and every hash ever inserted. */
  datatype State = State(orders: Orders, tokens: Tokens, requests: seq<Request>, clock: nat,
                         consumptions: seq<(TokenHash, string)>, issued: set<TokenHash>)

  datatype Action =
    | Tick(ms: nat)
    | BeginIssue(session: string)
    | BeginServe(hash: TokenHash)
    | Advance(request: nat, success: bool, newHash: TokenHash)
    | Stop(request: nat)

  function Initial(): State { State(map[], map[], [], 0, [], {}) }

  function Become(s: State, i: nat, r: Request): State
    requires i < |s.requests|
  {
    s.(requests := s.requests[i := r])
  }

  /** One statement of one request. `keyOf` is the deterministic license key of a session. */
  function AdvanceRequest(keyOf: string -> string, s: State, i: nat, success: bool, newHash: TokenHash): Option<State>
    requires i < |s.requests|
  {
    match s.requests[i]
    case IssueReading(session, now) =>
      if session in s.orders && s.orders[session].count >= MAX_DOWNLOADS then Some(Become(s, i, Rejected))
      else
        var k := if session in s.orders then s.orders[session].licenseKey else keyOf(session);
        Some(Become(s, i, IssueVerifying(session, now, k)))
    case IssueVerifying(session, now, k) =>
      if session !in s.orders && LicenseTaken(s.orders, session, k) then Some(Become(s, i, Rejected))
      else Some(Become(s, i, IssueCleaning(session, now)).(orders := Upsert(s.orders, session, k, now)))
    case IssueCleaning(session, now) =>
      Some(Become(s, i, IssueInserting(session, now)).(tokens := Cleanup(s.tokens, now)))
    case IssueInserting(session, now) =>
      if newHash in s.issued then None
      else Some(Become(s, i, Issued(session)).(tokens := s.tokens[newHash := Token(session, now + TOKEN_TTL_MS, None)],
                                               issued := s.issued + {newHash}))
    case ServeReading(h, now) =>
      if h !in s.tokens || s.tokens[h].session !in s.orders || s.tokens[h].used.Some? || s.tokens[h].expires <= s.clock
      then Some(Become(s, i, Rejected))
      else if s.orders[s.tokens[h].session].count >= MAX_DOWNLOADS then Some(Become(s, i, Rejected))
      else Some(Become(s, i, ServeFetching(h, now, s.tokens[h].session)))
    case ServeFetching(h, now, session) =>
      Some(Become(s, i, if success then ServeConsuming(h, now, session) else Rejected))
    case ServeConsuming(h, now, session) =>
      if !Consumable(s.tokens, h, now) then Some(Become(s, i, Rejected))
      else Some(Become(s, i, ServeCounting(session)).(tokens := Consume(s.tokens, h, now),
                                                      consumptions := s.consumptions + [(h, s.tokens[h].session)]))
    case ServeCounting(session) =>
      Some(Become(s, i, Served(session)).(orders := Increment(s.orders, session)))
    case _ => None
  }

  function Apply(keyOf: string -> string, s: State, a: Action): Option<State> {
    match a
    case Tick(ms) => Some(s.(clock := s.clock + ms))
    case BeginIssue(session) => Some(s.(requests := s.requests + [IssueReading(session, s.clock)]))
    case BeginServe(h) => Some(s.(requests := s.requests + [ServeReading(h, s.clock)]))
    case Advance(i, success, newHash) =>
      if i < |s.requests| then AdvanceRequest(keyOf, s, i, success, newHash) else None
    case Stop(i) =>
      if i < |s.requests| then Some(Become(s, i, Stopped(s.requests[i]))) else None
  }

  function Run(keyOf: string -> string, s: State, actions: seq<Action>): Option<State>
    decreases |actions|
  {
    if actions == [] then Some(s)
    else match Apply(keyOf, s, actions[0])
      case None => None
      case Some(t) => Run(keyOf, t, actions[1..])
  }

  // ----- counting requests

  /** `Uncounted`: between consuming a token and counting the download, running or cut off there.
      `Open`: past the limit check and still able to count a download. */
  datatype Kind = Uncounted | Open

  predicate Matches(r: Request, session: string, k: Kind) {
    match k
    case Uncounted => r == ServeCounting(session) || (r.Stopped? && Matches(r.was, session, k))
    case Open => (r.ServeFetching? || r.ServeConsuming? || r.ServeCounting?) && r.session == session
  }

  function Count(rs: seq<Request>, session: string, k: Kind): nat {
    if rs == [] then 0 else Count(rs[..|rs| - 1], session, k) + if Matches(rs[|rs| - 1], session, k) then 1 else 0
  }

  function ConsumedFor(events: seq<(TokenHash, string)>, session: string): nat {
    if events == [] then 0
    else ConsumedFor(events[..|events| - 1], session) + if events[|events| - 1].1 == session then 1 else 0
  }

  lemma {:induction false} CountAfterChange(rs: seq<Request>, i: nat, r: Request, session: string, k: Kind)
    requires i < |rs|
    ensures Count(rs[i := r], session, k) + (if Matches(rs[i], session, k) then 1 else 0)
         == Count(rs, session, k) + (if Matches(r, session, k) then 1 else 0)
    decreases |rs|
  {
    var n := |rs| - 1;
    if i < n {
      CountAfterChange(rs[..n], i, r, session, k);
      assert rs[i := r][..n] == rs[..n][i := r];
    } else {
      assert rs[i := r][..n] == rs[..n];
    }
  }

  lemma CountAfterStart(rs: seq<Request>, r: Request, session: string, k: Kind)
    ensures Count(rs + [r], session, k) == Count(rs, session, k) + if Matches(r, session, k) then 1 else 0
  {
    assert (rs + [r])[..|rs|] == rs;
  }
}
