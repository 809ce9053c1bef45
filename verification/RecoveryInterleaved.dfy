/** The recovery map when executions overlap: any number may be prepared before the first is finalized. */
module RecoveryInterleaved {
  import opened Prelude
  import opened JsText
  import opened Ranking
  import opened RecoveryMap
  import opened RecoveryTheorems

  /** An execution that was prepared, and whether it is still to be finalized. */
  datatype Started = Started(tool: JsString, execution: Execution, waiting: bool)

  datatype Driver = Driver(store: Store, prepared: seq<Started>)

  datatype Move =
    | Begin(request: Request, tools: seq<Tool>, now: nat, newId: IncidentId)
    | End(i: nat, succeeded: bool, now: nat, newId: IncidentId)

  function Apply(d: Driver, m: Move): Driver {
    match m
    case Begin(r, tools, now, newId) =>
      var p := PrepareResult(d.store, r, tools, now);
      Driver(PrepareStore(d.store, r, tools, now, newId),
             d.prepared + if p.Ready? then [Started(p.tool, p.execution, true)] else [])
    case End(i, succeeded, now, newId) =>
      if i >= |d.prepared| || !d.prepared[i].waiting then d
      else
        var e := d.prepared[i];
        Driver(FinalizeStore(d.store, e.execution, e.tool, succeeded, now, newId),
               d.prepared[i := e.(waiting := false)])
  }

  function Runs(d: Driver, moves: seq<Move>): Driver
    decreases |moves|
  {
    if moves == [] then d else Runs(Apply(d, moves[0]), moves[1..])
  }

  /** No new number was used before, and no move is earlier than `from`. */
  ghost predicate Proper(d: Driver, moves: seq<Move>, from: nat)
    decreases |moves|
  {
    moves != [] ==>
      moves[0].newId !in d.store.incidents && moves[0].now >= from && Proper(Apply(d, moves[0]), moves[1..], from)
  }

  predicate Promotes(d: Driver, m: Move, id: IncidentId) {
    && m.End? && m.i < |d.prepared| && d.prepared[m.i].waiting && m.succeeded
    && IsDiscovery(d, m.i, id) && IncidentAt(d.store, id, m.now).Some?
  }

  predicate IsDiscovery(d: Driver, i: nat, id: IncidentId)
    requires i < |d.prepared|
  {
    d.prepared[i].execution.Discovery? && d.prepared[i].execution.incident == id
  }

  /** A discovery of the incident was prepared and is still to be finalized. */
  ghost predicate Waiting(d: Driver, id: IncidentId) {
    exists i | 0 <= i < |d.prepared| :: d.prepared[i].waiting && IsDiscovery(d, i, id)
  }

  ghost predicate PromotesWithin(d: Driver, moves: seq<Move>, id: IncidentId)
    decreases |moves|
  {
    moves != [] && (Promotes(d, moves[0], id) || PromotesWithin(Apply(d, moves[0]), moves[1..], id))
  }

  // ----- records under any interleaving

  /** No key holds both an entry and a stale record, however executions overlap. */
  lemma {:induction false} NeverBoth(d: Driver, moves: seq<Move>)
    requires d.store.entries.Keys !! d.store.stale.Keys
    ensures Runs(d, moves).store.entries.Keys !! Runs(d, moves).store.stale.Keys
    decreases |moves|
  {
    hide Apply;
    if moves != [] {
      StepNeverBoth(d, moves[0]);
      NeverBoth(Apply(d, moves[0]), moves[1..]);
    }
  }

  lemma StepNeverBoth(d: Driver, m: Move)
    requires d.store.entries.Keys !! d.store.stale.Keys
    ensures Apply(d, m).store.entries.Keys !! Apply(d, m).store.stale.Keys
  {
    hide PrepareResult, PrepareStore, Key, Retexted;
    if m.Begin? { PrepareKeepsPaths(d.store, m.request, m.tools, m.now, m.newId); }
  }

  // ----- a second promotion of one incident

  lemma ResolvedStays(d: Driver, m: Move, id: IncidentId)
    requires id in d.store.incidents && d.store.incidents[id].status == Resolved && m.newId !in d.store.incidents
    ensures var e := Apply(d, m);
            id in e.store.incidents && e.store.incidents[id].status == Resolved
            && (!Promotes(d, m, id) ==> e.store.incidents[id] == d.store.incidents[id])
  {
    hide PrepareResult, Key, Retexted, IntentOf;
  }

  /** Nothing more is prepared for an incident that is resolved. */
  lemma NoneNewWaiting(d: Driver, m: Move, id: IncidentId)
    requires id in d.store.incidents && d.store.incidents[id].status == Resolved
    requires Waiting(Apply(d, m), id)
    ensures Waiting(d, id)
  {
    hide Key, Retexted, IntentOf, DiscoveryTool, MapIntent, FinalizeStore, PrepareStore;
    var e := Apply(d, m);
    var i :| 0 <= i < |e.prepared| && e.prepared[i].waiting && IsDiscovery(e, i, id);
    if m.Begin? && IntentOf(m.request).Some? { ReadyByMap(d.store, m.request, m.tools, m.now); }
    assert i < |d.prepared| && d.prepared[i].waiting && IsDiscovery(d, i, id);
  }

  lemma {:induction false} AgainNeedsWaiting(d: Driver, moves: seq<Move>, id: IncidentId, from: nat)
    requires id in d.store.incidents && d.store.incidents[id].status == Resolved
    requires Proper(d, moves, from) && PromotesWithin(d, moves, id)
    ensures Waiting(d, id) && from < d.store.incidents[id].expires
    decreases |moves|
  {
    hide Apply;
    if !Promotes(d, moves[0], id) {
      ResolvedStays(d, moves[0], id);
      AgainNeedsWaiting(Apply(d, moves[0]), moves[1..], id, from);
      NoneNewWaiting(d, moves[0], id);
    }
  }

  ghost predicate CanPromote(d: Driver, id: IncidentId, from: nat) {
    exists moves: seq<Move> :: Proper(d, moves, from) && PromotesWithin(d, moves, id)
  }

  /** An incident that is resolved can be promoted again at some time from `from` on exactly if another discovery
      of it is still to be finalized and the resolved record is still there. */
  lemma PromotedAgainExactly(d: Driver, id: IncidentId, from: nat, free: IncidentId)
    requires id in d.store.incidents && d.store.incidents[id].status == Resolved && free !in d.store.incidents
    ensures CanPromote(d, id, from) <==> Waiting(d, id) && from < d.store.incidents[id].expires
  {
    hide Apply;
    if CanPromote(d, id, from) {
      var moves: seq<Move> :| Proper(d, moves, from) && PromotesWithin(d, moves, id);
      AgainNeedsWaiting(d, moves, id, from);
    }
    if Waiting(d, id) && from < d.store.incidents[id].expires {
      var i :| 0 <= i < |d.prepared| && d.prepared[i].waiting && IsDiscovery(d, i, id);
      var m := End(i, true, from, free);
      assert [m][1..] == [] && Proper(Apply(d, m), [], from);
      assert Proper(d, [m], from) && Promotes(d, m, id) && PromotesWithin(d, [m], id);
    }
  }

  /** That happens: a permit used twice before the first of its two executions is finalized lets both promote. */
  lemma OnePermitCanPromoteTwice(s: Store, r: Request, tools: seq<Tool>, now: nat, id: IncidentId, free: IncidentId)
    requires id in s.incidents && free !in s.incidents
    requires var p := PrepareResult(s, r, tools, now); p.Ready? && p.execution == Discovery(p.execution.intent, id)
    ensures var begin := Begin(r, tools, now, free);
            var d := Apply(Apply(Driver(s, []), begin), begin);
            var e := Apply(d, End(0, true, now, free));
            && Promotes(d, End(0, true, now, free), id)
            && id in e.store.incidents && e.store.incidents[id].status == Resolved && Waiting(e, id)
            && Promotes(e, End(1, true, now, free), id)
  {
    hide Key, Retexted, IntentOf, DiscoveryTool, MapIntent;
    var begin := Begin(r, tools, now, free);
    var p := PrepareResult(s, r, tools, now);
    LiveWhenReady(s, r, tools, now, id);
    var d1 := Apply(Driver(s, []), begin);
    assert d1 == Driver(s, [Started(p.tool, p.execution, true)]);
    var d := Apply(d1, begin);
    assert d == Driver(s, [Started(p.tool, p.execution, true), Started(p.tool, p.execution, true)]);
    var e := Apply(d, End(0, true, now, free));
    assert e.prepared[1].waiting && IsDiscovery(e, 1, id);
  }

  lemma LiveWhenReady(s: Store, r: Request, tools: seq<Tool>, now: nat, id: IncidentId)
    requires var p := PrepareResult(s, r, tools, now); p.Ready? && p.execution == Discovery(p.execution.intent, id)
    ensures IncidentAt(s, id, now).Some?
  {
    hide Key, MapIntent, DiscoveryTool, IntentOf;
    if IntentOf(r).Some? { ReadyByMap(s, r, tools, now); }
  }
}
