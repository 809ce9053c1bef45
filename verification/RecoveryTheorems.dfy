/** The mandatory recovery map over every run of requests. */
module RecoveryTheorems {
  import opened Prelude
  import opened JsText
  import opened Ranking
  import opened RankingTheorems
  import opened RecoveryMap
  import opened Permits
  import opened TokenLaws

  // ----- the key of a prepared intent is the key it is finalized under

  lemma TextShape(s: JsString, max: nat)
    requires Text(s, max).Some? && max > 0
    ensures var t := Text(s, max).value; t != [] && !IsSpace(t[0]) && |t| <= max
  {
    TrimFixesTrimmed(s);
  }

  lemma TrimKeepsStart(s: JsString)
    requires s != [] && !IsSpace(s[0])
    ensures TrimStart(s) == s && Trim(s) != [] && |Trim(s)| <= |s|
  {
    TrimEndShape(s);
    TrimEndKeepsFirst(s);
  }

  lemma {:induction false} TrimEndKeepsFirst(s: JsString)
    requires s != [] && !IsSpace(s[0])
    ensures TrimEnd(s) != []
    decreases |s|
  {
    if IsSpace(s[|s| - 1]) { TrimEndKeepsFirst(s[..|s| - 1]); }
  }

  lemma KeyRetexted(s: JsString)
    requires Text(s, 8000).Some?
    ensures var intent := Text(s, 8000).value; Key(Retexted(intent)) == Key(intent)
  {
    hide Trim, Underscored, StripStart, StripEnd, Cut, IsSpace;
    TextShape(s, 8000);
    var intent := Text(s, 8000).value;
    TrimKeepsStart(intent);
    TrimTwice(intent);
  }

  lemma TrimTwice(s: JsString)
    ensures Trim(Trim(s)) == Trim(s)
  {
    TrimFixesTrimmed(s);
    TrimFixesTrimmed(Trim(s));
  }

  // ----- history: what the last event for a key says

  datatype Event = Failed(tool: JsString, at: nat) | Promoted(tool: JsString)

  /** A known path that failed, or a discovery that was promoted, under the key of the request's intent. */
  function EventFor(s: Store, a: Action, key: JsString): Option<Event> {
    if !Finalized(s, a) || key != Key(IntentOf(a.request).value) then None
    else
      var p := PrepareResult(s, a.request, a.tools, a.now);
      if p.execution.KnownPath? then (if a.succeeded.value then None else Some(Failed(p.tool, a.later)))
      else if a.succeeded.value && IncidentAt(s, p.execution.incident, a.later).Some? then Some(Promoted(p.tool))
      else None
  }

  function Last(s: Store, actions: seq<Action>, key: JsString): Option<Event>
    decreases |actions|
  {
    if actions == [] then None
    else
      var rest := Last(Step(s, actions[0]), actions[1..], key);
      if rest.Some? then rest else EventFor(s, actions[0], key)
  }

  predicate Tells(s: Store, key: JsString, e: Option<Event>) {
    match e
    case None => key !in s.entries && key !in s.stale
    case Some(Promoted(tool)) => key in s.entries && s.entries[key].tool == tool && key !in s.stale
    case Some(Failed(tool, at)) =>
      key !in s.entries && key in s.stale && s.stale[key] == StalePath(tool, at + 90 * 24 * 60 * 60)
  }

  lemma ReadyIntent(s: Store, r: Request, tools: seq<Tool>, now: nat)
    requires PrepareResult(s, r, tools, now).Ready?
    ensures IntentOf(r).Some? && PrepareResult(s, r, tools, now).execution.intent == IntentOf(r).value
    ensures r.intent.Some? && Text(r.intent.value, 8000) == IntentOf(r)
  {
    hide Text, Key, Choose, FindTool, Missing, Allowed, Excluded;
  }

  lemma StepTells(s: Store, a: Action, key: JsString, e: Option<Event>)
    requires Tells(s, key, e)
    ensures var own := EventFor(s, a, key); Tells(Step(s, a), key, if own.Some? then own else e)
  {
    hide Key, PrepareResult, IntentOf, Text, IncidentAt, Retexted;
    var p := PrepareResult(s, a.request, a.tools, a.now);
    if Finalized(s, a) {
      ReadyIntent(s, a.request, a.tools, a.now);
      KeyRetexted(a.request.intent.value);
      ReadyStore(s, a);
    } else {
      PrepareKeepsPaths(s, a.request, a.tools, a.now, a.newId);
    }
  }

  lemma ReadyStore(s: Store, a: Action)
    requires PrepareResult(s, a.request, a.tools, a.now).Ready?
    ensures PrepareStore(s, a.request, a.tools, a.now, a.newId) == s
  {
    hide PrepareResult;
  }

  lemma PrepareKeepsPaths(s: Store, r: Request, tools: seq<Tool>, now: nat, id: IncidentId)
    ensures var t := PrepareStore(s, r, tools, now, id); t.entries == s.entries && t.stale == s.stale
  {
    hide Key, Text, Choose, FindTool, Missing, Allowed, Excluded;
  }

  lemma {:induction false} RunTells(s: Store, actions: seq<Action>, key: JsString, e: Option<Event>)
    requires Tells(s, key, e)
    ensures var last := Last(s, actions, key); Tells(Run(s, actions), key, if last.Some? then last else e)
    decreases |actions|
  {
    hide Step, EventFor, Tells;
    if actions != [] {
      var own := EventFor(s, actions[0], key);
      StepTells(s, actions[0], key, e);
      RunTells(Step(s, actions[0]), actions[1..], key, if own.Some? then own else e);
    }
  }

  /** Over every run the store holds for each key what the last event for it says: a promoted tool, or a
      stale path and its lifetime, or nothing, and never both. */
  lemma LastEventDecides(actions: seq<Action>, key: JsString)
    ensures Tells(Run(EMPTY, actions), key, Last(EMPTY, actions, key))
  {
    hide Run, Last;
    RunTells(EMPTY, actions, key, None);
  }

  lemma {:induction false} NeverEntryAndStale(actions: seq<Action>, key: JsString)
    ensures var s := Run(EMPTY, actions); !(key in s.entries && key in s.stale)
  {
    hide Run, Last;
    LastEventDecides(actions, key);
  }

  predicate StaleNow(e: Option<Event>, now: nat) { e.Some? && e.value.Failed? && now < e.value.at + 90 * 24 * 60 * 60 }

  /** A well-formed request without an unexpired permit is refused as stale exactly while the last event for its key is
      a failure whose lifetime has not ended; a promotion or that end lifts it, and nothing else does. */
  lemma RefusedAsStaleExactly(actions: seq<Action>, r: Request, tools: seq<Tool>, now: nat)
    requires IntentOf(r).Some? && Verified(r, now).None?
    ensures PrepareResult(Run(EMPTY, actions), r, tools, now) == Refused(PathStale)
            <==> StaleNow(Last(EMPTY, actions, Key(IntentOf(r).value)), now)
    ensures forall id ::
              PrepareReply(Run(EMPTY, actions), r, tools, now, id)
              == Answered(Refused(PathStale), Some(Permit(id, now + 30 * 60)))
              <==> StaleNow(Last(EMPTY, actions, Key(IntentOf(r).value)), now) && Signable(IntentOf(r).value)
  {
    hide Run, Last, Key, Choose, FindTool, Missing, Allowed, IntentOf, Signable;
    LastEventDecides(actions, Key(IntentOf(r).value));
  }

  /** Nor does any permit make a stale path run: what it may run is a discovery. */
  lemma StalePathNeverRuns(actions: seq<Action>, r: Request, tools: seq<Tool>, now: nat)
    requires IntentOf(r).Some? && StaleNow(Last(EMPTY, actions, Key(IntentOf(r).value)), now)
    ensures var p := PrepareResult(Run(EMPTY, actions), r, tools, now);
            p.Ready? ==> p.execution.Discovery? && Verified(r, now) == Some(p.execution.incident)
  {
    hide Run, Last, Key, Choose, FindTool, Missing, Allowed, IntentOf, Excluded;
    LastEventDecides(actions, Key(IntentOf(r).value));
  }

  lemma {:induction false} FoundTool(tools: seq<Tool>, name: JsString)
    ensures FindTool(tools, name).Some? <==> exists i | 0 <= i < |tools| :: tools[i].name == name
    ensures FindTool(tools, name).Some?
            ==> FindTool(tools, name).value in tools && FindTool(tools, name).value.name == name
    decreases |tools|
  {
    if tools != [] {
      FoundTool(tools[1..], name);
      assert forall i | 1 <= i < |tools| :: tools[i] == tools[1..][i - 1];
      if FindTool(tools[1..], name).Some? && tools[0].name != name {
        var i :| 0 <= i < |tools[1..]| && tools[1..][i].name == name;
        assert tools[i + 1].name == name;
      }
    }
  }

  predicate Offered(tools: seq<Tool>, name: JsString) { exists i | 0 <= i < |tools| :: tools[i].name == name }

  /** The tool at `k` is the first of that name. */
  predicate FirstNamed(tools: seq<Tool>, k: nat) {
    k < |tools| && forall j | 0 <= j < k :: tools[j].name != tools[k].name
  }

  lemma {:induction false} FirstIsFound(tools: seq<Tool>, k: nat)
    requires FirstNamed(tools, k)
    ensures FindTool(tools, tools[k].name) == Some(tools[k])
    decreases k
  {
    if k > 0 {
      assert tools[0].name != tools[k].name;
      assert forall j | 0 <= j < k - 1 :: tools[1..][j] == tools[j + 1];
      FirstIsFound(tools[1..], k - 1);
    }
  }

  lemma InputsGiven(r: Request)
    ensures IntentOf(r).Some? ==> r.inputs.Some?
  {
  }

  /** Every required input is given, and is one the tool declares. */
  predicate Complete(tool: Tool, inputs: Inputs) {
    forall i | 0 <= i < |tool.required| :: tool.required[i] in inputs && tool.required[i] in tool.properties
  }

  /** `p` makes the tool ready with just the given inputs it declares, if they are complete, and else refuses. */
  ghost predicate ReadyIfComplete(p: Prepared, tool: Tool, inputs: Inputs, intent: JsString) {
    if Complete(tool, inputs)
    then && p.Ready? && p.tool == tool.name && p.execution == KnownPath(intent)
         && (forall k :: k in p.arguments <==> k in inputs && k in tool.properties)
         && (forall k | k in p.arguments :: p.arguments[k] == inputs[k])
    else p == Refused(InputsMissing)
  }

  lemma ActionReadyExactly(tool: Tool, inputs: Inputs, intent: JsString)
    ensures ReadyIfComplete(KnownAction(tool, inputs, intent), tool, inputs, intent)
  {
    var given := Allowed(tool, inputs);
    forall i | 0 <= i < |tool.required|
      ensures tool.required[i] in given <==> tool.required[i] in inputs && tool.required[i] in tool.properties
    {
    }
  }

  /** After a promotion the promoted tool is mandatory for its key while it is offered: no ranking is asked, and it is
      made ready exactly if each required input is given and declared. */
  lemma PromotedToolIsMandatory(actions: seq<Action>, r: Request, tools: seq<Tool>, now: nat, k: nat)
    requires IntentOf(r).Some? && Verified(r, now).None? && FirstNamed(tools, k)
    requires Last(EMPTY, actions, Key(IntentOf(r).value)) == Some(Promoted(tools[k].name))
    ensures ReadyIfComplete(PrepareResult(Run(EMPTY, actions), r, tools, now), tools[k], r.inputs.value,
                            IntentOf(r).value)
  {
    hide Run, Last, Key, Choose, KnownAction, IntentOf, Excluded, FindTool, Complete, ReadyIfComplete;
    LastEventDecides(actions, Key(IntentOf(r).value));
    FirstIsFound(tools, k);
    InputsGiven(r);
    ActionReadyExactly(tools[k], r.inputs.value, IntentOf(r).value);
  }

  /** With no unexpired permit and nothing stale, and without a promoted tool that is still offered, the ranking
      decides: its choice is made ready exactly if each required input is given and declared, and otherwise the
      intent is refused as ambiguous or unknown. */
  lemma RankedToolReadyExactly(actions: seq<Action>, r: Request, tools: seq<Tool>, now: nat)
    requires IntentOf(r).Some? && Verified(r, now).None?
    requires var last := Last(EMPTY, actions, Key(IntentOf(r).value));
             !StaleNow(last, now) && (last.Some? && last.value.Promoted? ==> !Offered(tools, last.value.tool))
    ensures var p := PrepareResult(Run(EMPTY, actions), r, tools, now);
            match Choose(IntentOf(r).value, tools)
            case Chosen(tool) => ReadyIfComplete(p, tool, r.inputs.value, IntentOf(r).value)
            case Ambiguous => p == Refused(MapAmbiguous)
            case Unknown => p == Refused(MapUnknown)
  {
    hide Run, Last, Key, Choose, KnownAction, IntentOf, Excluded, FindTool, Complete, ReadyIfComplete;
    var last := Last(EMPTY, actions, Key(IntentOf(r).value));
    LastEventDecides(actions, Key(IntentOf(r).value));
    if last.Some? && last.value.Promoted? { FoundTool(tools, last.value.tool); }
    InputsGiven(r);
    var choice := Choose(IntentOf(r).value, tools);
    if choice.Chosen? { ActionReadyExactly(choice.tool, r.inputs.value, IntentOf(r).value); }
  }

  /** With neither permit nor record, an intent that is verbatim an alias reaches a tool with exactly its tokens, and
      that tool is made ready exactly if each required input is given and declared. */
  lemma VerbatimAliasReached(actions: seq<Action>, r: Request, tools: seq<Tool>, now: nat, t: Tool)
    requires IntentOf(r).Some? && Verified(r, now).None? && Last(EMPTY, actions, Key(IntentOf(r).value)) == None
    requires t in tools && !Excluded(t.name) && HasAlias(t, IntentOf(r).value)
    ensures var p := PrepareResult(Run(EMPTY, actions), r, tools, now);
            var best := Choose(IntentOf(r).value, tools);
            best.Chosen? && HasTokensOf(best.tool, IntentOf(r).value)
            && ReadyIfComplete(p, best.tool, r.inputs.value, IntentOf(r).value)
  {
    hide Run, Last, Key, Choose, IntentOf, Excluded, HasAlias, HasTokensOf, ReadyIfComplete;
    VerbatimAliasWins(IntentOf(r).value, tools, t);
    RankedToolReadyExactly(actions, r, tools, now);
  }

  /** The intent of a request is its text, trimmed and cut to 8000 units; it has none, and is refused as invalid, if
      that is empty or the inputs are no object. */
  lemma IntentSpelled(s: Store, r: Request, tools: seq<Tool>, now: nat)
    ensures var text := if r.intent.Some? then Trim(r.intent.value) else [];
            && IntentOf(r) == (if r.inputs.None? || text == [] then None
                               else if |text| > 8000 then Some(text[..8000]) else Some(text))
            && (PrepareResult(s, r, tools, now) == Refused(InputInvalid) <==> IntentOf(r).None?)
  {
    hide Key, Choose, FindTool, Missing, Allowed, Trim;
  }

  /** The intent a prepared action is finalized under is its text, trimmed and cut likewise. */
  lemma FinalIntentSpelled(intent: JsString)
    ensures var text := Trim(intent);
            Retexted(intent)
            == if text == [] then Units("unknown action") else if |text| > 8000 then text[..8000] else text
  {
    hide Trim;
  }

  /** An unexpired permit is answered by its incident alone: the discovery is ready if the incident is there, open and
      of the very intent, and the tool asked for, by its name trimmed and cut to 160 units, is offered and neither of
      the two excluded; else it is refused. */
  lemma PermitAnswered(s: Store, r: Request, tools: seq<Tool>, now: nat, id: IncidentId)
    requires IntentOf(r).Some? && Verified(r, now) == Some(id)
    ensures var p := PrepareResult(s, r, tools, now);
            var text := if r.discoveryTool.Some? then Trim(r.discoveryTool.value) else [];
            var name := if |text| > 160 then text[..160] else text;
            var fits := && id in s.incidents && now < s.incidents[id].expires && s.incidents[id].status == Open
                        && s.incidents[id].intent == IntentOf(r).value && text != [] && Offered(tools, name)
                        && name != Units("getRecoveryStartupContext") && name != Units("executeMappedRecoveryIntent");
            p == if fits then Ready(name, r.inputs.value, Discovery(IntentOf(r).value, id))
              else Refused(DiscoveryInvalid)
  {
    hide Key, Choose, FindTool, Missing, Allowed, Trim, IntentOf, Excluded, MapIntent;
    var text := if r.discoveryTool.Some? then Trim(r.discoveryTool.value) else [];
    var name := if |text| > 160 then text[..160] else text;
    FoundTool(tools, name);
    ExcludedSpelled(name);
    InputsGiven(r);
  }

  /** An incident that a refusal opens names the stale path's tool as the one that failed, and none otherwise; nothing
      else of the store changes. */
  lemma RefusalRecords(s: Store, r: Request, tools: seq<Tool>, now: nat, id: IncidentId)
    requires IntentOf(r).Some?
    ensures var p, t := PrepareResult(s, r, tools, now), PrepareStore(s, r, tools, now, id);
            var intent := IntentOf(r).value;
            && t.entries == s.entries && t.stale == s.stale
            && t.incidents
               == if p == Refused(PathStale) then
                    s.incidents[id := Incident(Open, intent, Some(s.stale[Key(intent)].tool), now + 30 * 24 * 60 * 60)]
                  else if p == Refused(MapAmbiguous) || p == Refused(MapUnknown) then
                    s.incidents[id := Incident(Open, intent, None, now + 30 * 24 * 60 * 60)]
                  else s.incidents
  {
    hide Key, Choose, FindTool, Missing, Allowed, Excluded, Text;
  }

  /** What a promotion writes: the entry with its tool and incident, and the incident, resolved, for ninety days. */
  lemma PromotionRecords(s: Store, intent: JsString, id: IncidentId, tool: JsString, now: nat, newId: IncidentId)
    requires IncidentAt(s, id, now).Some?
    ensures var key, t := Key(Retexted(intent)), FinalizeStore(s, Discovery(intent, id), tool, true, now, newId);
            && t.entries == s.entries[key := Entry(tool, id)] && t.stale == s.stale - {key}
            && t.incidents == s.incidents[id := Incident(Resolved, s.incidents[id].intent, s.incidents[id].failedTool,
                                                         now + 90 * 24 * 60 * 60)]
  {
    hide Key, Retexted;
  }

  // ----- excluded tools

  ghost predicate NoneExcluded(s: Store) { forall key | key in s.entries :: !Excluded(s.entries[key].tool) }

  lemma ReadyToolAllowed(s: Store, r: Request, tools: seq<Tool>, now: nat)
    requires NoneExcluded(s) && PrepareResult(s, r, tools, now).Ready?
    ensures var name := PrepareResult(s, r, tools, now).tool; !Excluded(name) && Offered(tools, name)
  {
    hide Key, Text, Choose, Missing, Allowed, Excluded, FindTool;
    var intent := IntentOf(r).value;
    if Verified(r, now).Some? {
      FoundTool(tools, TextOf(r.discoveryTool, 160).value);
    } else {
      if Key(intent) in s.entries { FoundTool(tools, s.entries[Key(intent)].tool); }
      if Choose(intent, tools).Chosen? {
        ChosenIsListed(intent, tools);
        ListedIsOffered(tools, Choose(intent, tools).tool);
      }
    }
  }

  lemma ListedIsOffered(tools: seq<Tool>, t: Tool)
    requires t in tools
    ensures Offered(tools, t.name)
  {
  }

  lemma StepKeepsNoneExcluded(s: Store, a: Action)
    requires NoneExcluded(s)
    ensures NoneExcluded(Step(s, a))
  {
    hide Key, PrepareResult, Text, IncidentAt, Retexted, Excluded;
    if Finalized(s, a) {
      ReadyStore(s, a);
      ReadyToolAllowed(s, a.request, a.tools, a.now);
    } else {
      PrepareKeepsPaths(s, a.request, a.tools, a.now, a.newId);
    }
  }

  lemma {:induction false} RunKeepsNoneExcluded(s: Store, actions: seq<Action>)
    requires NoneExcluded(s)
    ensures NoneExcluded(Run(s, actions))
    decreases |actions|
  {
    hide Step, NoneExcluded;
    if actions != [] {
      StepKeepsNoneExcluded(s, actions[0]);
      RunKeepsNoneExcluded(Step(s, actions[0]), actions[1..]);
    }
  }

  /** After any run, whatever is made ready is a tool of the list, and never an excluded one. */
  lemma ExcludedNeverReady(actions: seq<Action>, r: Request, tools: seq<Tool>, now: nat)
    requires PrepareResult(Run(EMPTY, actions), r, tools, now).Ready?
    ensures var name := PrepareResult(Run(EMPTY, actions), r, tools, now).tool;
            && Offered(tools, name)
            && name != Units("getRecoveryStartupContext") && name != Units("executeMappedRecoveryIntent")
  {
    hide Run, PrepareResult;
    ExcludedSpelled(PrepareResult(Run(EMPTY, actions), r, tools, now).tool);
    RunKeepsNoneExcluded(EMPTY, actions);
    ReadyToolAllowed(Run(EMPTY, actions), r, tools, now);
  }

  // ----- incidents

  /** The incident whose discovery this step promotes. */
  function PromotedIncident(s: Store, a: Action): Option<IncidentId> {
    if !Finalized(s, a) then None
    else
      var x := PrepareResult(s, a.request, a.tools, a.now).execution;
      if x.Discovery? && a.succeeded.value && IncidentAt(s, x.incident, a.later).Some? then Some(x.incident) else None
  }

  /** What is promoted was open, for the same intent. */
  lemma PromotedWasOpen(s: Store, a: Action)
    requires PromotedIncident(s, a).Some?
    ensures var id := PromotedIncident(s, a).value;
            id in s.incidents && s.incidents[id].status == Open
            && IntentOf(a.request) == Some(s.incidents[id].intent) && Verified(a.request, a.now) == Some(id)
  {
    hide Key, Text, Choose, Missing, Allowed, Excluded, FindTool;
  }

  /** An incident is left alone but for its own promotion, which resolves it and keeps its intent. */
  lemma StepIncident(s: Store, a: Action, id: IncidentId)
    requires id in s.incidents && a.newId != id && a.nextId != id
    ensures var t := Step(s, a);
            id in t.incidents && t.incidents[id].intent == s.incidents[id].intent
            && if PromotedIncident(s, a) == Some(id) then t.incidents[id].status == Resolved
               else t.incidents[id] == s.incidents[id]
  {
    hide Key, PrepareResult, Retexted, IntentOf;
    if Finalized(s, a) { ReadyStore(s, a); }
  }

  /** Some step of the run promotes the incident. */
  ghost predicate PromotedDuring(s: Store, actions: seq<Action>, id: IncidentId)
    decreases |actions|
  {
    actions != []
      && (PromotedIncident(s, actions[0]) == Some(id) || PromotedDuring(Step(s, actions[0]), actions[1..], id))
  }

  /** Over a run the same: it keeps its intent, and is resolved exactly if it was or is promoted on the way. */
  lemma {:induction false} RunIncident(s: Store, actions: seq<Action>, id: IncidentId)
    requires id in s.incidents && Fresh(s, actions)
    ensures var t := Run(s, actions);
            id in t.incidents && t.incidents[id].intent == s.incidents[id].intent
            && (t.incidents[id].status == Resolved
                <==> s.incidents[id].status == Resolved || PromotedDuring(s, actions, id))
            && (!PromotedDuring(s, actions, id) ==> t.incidents[id] == s.incidents[id])
    decreases |actions|
  {
    hide Step, PromotedIncident;
    if actions != [] {
      StepIncident(s, actions[0], id);
      RunIncident(Step(s, actions[0]), actions[1..], id);
    }
  }

  /** Once resolved, an incident stays resolved, and its permits authorise nothing. */
  lemma {:induction false} ResolvedAuthorisesNothing(
    s: Store, actions: seq<Action>, id: IncidentId, r: Request, tools: seq<Tool>, now: nat)
    requires id in s.incidents && s.incidents[id].status == Resolved && Fresh(s, actions)
    requires Verified(r, now) == Some(id)
    ensures var p := PrepareResult(Run(s, actions), r, tools, now);
            p == Refused(if IntentOf(r).None? then InputInvalid else DiscoveryInvalid)
  {
    hide Run, Step, Key, IntentOf, DiscoveryTool;
    RunIncident(s, actions, id);
  }

  /** One incident is promoted at most once in a run. */
  lemma PromotedAtMostOnce(s: Store, a: Action, actions: seq<Action>, b: Action)
    requires Fresh(s, [a] + actions)
    requires PromotedIncident(s, a).Some?
    ensures PromotedIncident(Run(s, [a] + actions), b) != PromotedIncident(s, a)
  {
    hide Step, PromotedIncident, Run;
    var id := PromotedIncident(s, a).value;
    assert ([a] + actions)[1..] == actions;
    PromotedWasOpen(s, a);
    RunIncident(s, [a] + actions, id);
    var t := Run(s, [a] + actions);
    if PromotedIncident(t, b) == Some(id) { PromotedWasOpen(t, b); }
  }

  // ----- the way out: permits and how long they last

  /** The request, as it would be made with a permit for a discovery. */
  function With(r: Request, p: Permit): Request { r.(permit := Some(p)) }

  predicate Discovers(p: Prepared, id: IncidentId) { p.Ready? && p.execution.Discovery? && p.execution.incident == id }

  /** For an incident that is open in `s`, and a request that names its intent and an offered tool: in any
      continuation a permit authorises it exactly until the permit or the incident ends or the incident is
      promoted, whichever is first. */
  lemma PermitAuthorisesExactly(s: Store, actions: seq<Action>, p: Permit, r: Request, offered: seq<Tool>, now: nat)
    requires Fresh(s, actions) && p.incident in s.incidents && s.incidents[p.incident].status == Open
    requires IntentOf(r) == Some(s.incidents[p.incident].intent) && DiscoveryTool(r, offered).Some?
    ensures Discovers(PrepareResult(Run(s, actions), With(r, p), offered, now), p.incident)
            <==> now < p.expires && now < s.incidents[p.incident].expires && !PromotedDuring(s, actions, p.incident)
  {
    hide Run, Step, Key, MapIntent, DiscoveryTool, TextOf, PromotedIncident;
    RunIncident(s, actions, p.incident);
    assert IntentOf(With(r, p)) == IntentOf(r);
    WithKeepsTool(r, p, offered);
    ReadyByMap(Run(s, actions), With(r, p), offered, now);
  }

  lemma WithKeepsTool(r: Request, p: Permit, offered: seq<Tool>)
    ensures DiscoveryTool(With(r, p), offered) == DiscoveryTool(r, offered)
  {
  }

  lemma ReadyByMap(s: Store, r: Request, tools: seq<Tool>, now: nat)
    requires IntentOf(r).Some?
    ensures var p := MapIntent(s, IntentOf(r).value, r.inputs.value, tools, now);
            p.Ready? ==> p.execution.KnownPath?
  {
    hide Key, Choose, Missing, Allowed, FindTool, IntentOf;
  }

  /** A refusal as stale, ambiguous or unknown opens an incident for the refused intent, for thirty days, and
      hands out a permit for thirty minutes, unless the intent cannot be signed: then the call throws, and the
      incident is there all the same. Other refusals open nothing. */
  lemma RefusalOpensDiscovery(s: Store, r: Request, tools: seq<Tool>, now: nat, id: IncidentId)
    ensures var t, p := PrepareStore(s, r, tools, now, id), PrepareResult(s, r, tools, now);
            if OpensIncident(p)
            then id in t.incidents && t.incidents[id].status == Open && IntentOf(r) == Some(t.incidents[id].intent)
                 && t.incidents[id].expires == now + 30 * 24 * 60 * 60 && t.incidents - {id} == s.incidents - {id}
                 && PrepareReply(s, r, tools, now, id)
                    == if Signable(IntentOf(r).value) then Answered(p, Some(Permit(id, now + 30 * 60)))
                       else Threw
            else t == s && PrepareReply(s, r, tools, now, id) == Answered(p, None)
  {
    hide Key, Choose, Missing, Allowed, Excluded, FindTool, Text, DiscoveryTool, MapIntent, Signable;
    RefusedWithIntent(s, r, tools, now);
  }

  lemma RefusedWithIntent(s: Store, r: Request, tools: seq<Tool>, now: nat)
    ensures OpensIncident(PrepareResult(s, r, tools, now)) ==> IntentOf(r).Some?
  {
    hide IntentOf, MapIntent;
  }

  /** A failed known path opens an incident and hands out a permit that works for the very intent that failed
      exactly if that intent can be signed and is still trimmed after it was cut to length: the incident is filed
      under the trimmed text. */
  lemma FailureOpensDiscoveryExactly(s: Store, a: Action, actions: seq<Action>, r: Request, offered: seq<Tool>,
                                     now: nat)
    requires Finalized(s, a) && a.succeeded == Some(false) && Fresh(Step(s, a), actions)
    requires PrepareResult(s, a.request, a.tools, a.now).execution.KnownPath?
    requires IntentOf(r) == IntentOf(a.request) && DiscoveryTool(r, offered).Some?
    ensures var p := Permit(a.nextId, a.later + 30 * 60);
            p in StepIssues(s, a)
            && Discovers(PrepareResult(Run(Step(s, a), actions), With(r, p), offered, now), a.nextId)
            <==> Signable(IntentOf(a.request).value) && Trimmed(IntentOf(a.request).value)
                 && now < a.later + 30 * 60 && !PromotedDuring(Step(s, a), actions, a.nextId)
  {
    hide Run, Key, MapIntent, DiscoveryTool, IntentOf, Trim, IsSpace, PromotedIncident, Signable, StepIssues;
    var t, p := Step(s, a), Permit(a.nextId, a.later + 30 * 60);
    FailureIncident(s, a);
    if Trimmed(IntentOf(a.request).value) {
      PermitAuthorisesExactly(t, actions, p, r, offered, now);
    } else {
      RunIncident(t, actions, a.nextId);
      WithKeepsIntent(r, p);
      ReadyByMap(Run(t, actions), With(r, p), offered, now);
    }
  }

  lemma WithKeepsIntent(r: Request, p: Permit)
    ensures IntentOf(With(r, p)) == IntentOf(r)
  {
  }

  lemma FailureIncident(s: Store, a: Action)
    requires Finalized(s, a) && a.succeeded == Some(false)
    requires PrepareResult(s, a.request, a.tools, a.now).execution.KnownPath?
    ensures var t := Step(s, a);
            a.nextId in t.incidents && t.incidents[a.nextId].status == Open
            && t.incidents[a.nextId].expires == a.later + 30 * 24 * 60 * 60
            && (Some(t.incidents[a.nextId].intent) == IntentOf(a.request) <==> Trimmed(IntentOf(a.request).value))
    ensures Permit(a.nextId, a.later + 30 * 60) in StepIssues(s, a)
            <==> Signable(Step(s, a).incidents[a.nextId].intent)
  {
    hide Key, PrepareResult, IntentOf, Trim, IsSpace, Signable;
    ReadyIntent(s, a.request, a.tools, a.now);
    ReadyStore(s, a);
    var intent := IntentOf(a.request).value;
    TextShape(a.request.intent.value, 8000);
    TrimKeepsStart(intent);
    TrimFixesTrimmed(intent);
  }

  function AsSeq<T>(o: Option<T>): seq<T> { if o.Some? then [o.value] else [] }

  /** The permits a step hands out. */
  function StepIssues(s: Store, a: Action): seq<Permit> {
    var p := PrepareResult(s, a.request, a.tools, a.now);
    AsSeq(PrepareIssues(s, a.request, a.tools, a.now, a.newId))
    + if p.Ready? && a.succeeded.Some?
      then AsSeq(FinalizeIssues(PrepareStore(s, a.request, a.tools, a.now, a.newId), p.execution,
                                a.succeeded.value, a.later, a.nextId))
      else []
  }

  ghost predicate IssuedDuring(s: Store, actions: seq<Action>, p: Permit)
    decreases |actions|
  {
    actions != [] && (p in StepIssues(s, actions[0]) || IssuedDuring(Step(s, actions[0]), actions[1..], p))
  }

  /** The time at which a failed discovery renews the permit of its incident: one whose intent can be signed. */
  function RenewedAt(s: Store, a: Action, id: IncidentId): Option<nat> {
    if !Finalized(s, a) then None
    else
      var x := PrepareResult(s, a.request, a.tools, a.now).execution;
      if x == Discovery(x.intent, id) && !a.succeeded.value && IncidentAt(s, id, a.later).Some?
         && Signable(s.incidents[id].intent)
      then Some(a.later) else None
  }

  ghost predicate RenewedDuring(s: Store, actions: seq<Action>, id: IncidentId, t: nat)
    decreases |actions|
  {
    actions != []
      && (RenewedAt(s, actions[0], id) == Some(t) || RenewedDuring(Step(s, actions[0]), actions[1..], id, t))
  }

  /** For an incident that exists, a step hands out a permit exactly if it renews it. */
  lemma StepIssuesRenewal(s: Store, a: Action, p: Permit)
    requires p.incident in s.incidents && a.newId != p.incident && a.nextId != p.incident
    ensures p in StepIssues(s, a)
            <==> RenewedAt(s, a, p.incident).Some? && p.expires == RenewedAt(s, a, p.incident).value + 30 * 60
  {
    hide PrepareResult, PrepareStore, Signable, IntentOf;
    if Finalized(s, a) { ReadyStore(s, a); }
  }

  lemma {:induction false} RunIssuesRenewals(s: Store, actions: seq<Action>, p: Permit)
    requires p.incident in s.incidents && Fresh(s, actions)
    ensures IssuedDuring(s, actions, p)
            <==> p.expires >= 30 * 60 && RenewedDuring(s, actions, p.incident, p.expires - 30 * 60)
    decreases |actions|
  {
    hide Step, StepIssues, RenewedAt, PromotedIncident;
    if actions != [] {
      StepIssuesRenewal(s, actions[0], p);
      StepIncident(s, actions[0], p.incident);
      RunIssuesRenewals(Step(s, actions[0]), actions[1..], p);
    }
  }

  lemma RenewedWasOpen(s: Store, a: Action, id: IncidentId)
    requires RenewedAt(s, a, id).Some?
    ensures id in s.incidents && s.incidents[id].status == Open && RenewedAt(s, a, id).value < s.incidents[id].expires
    ensures Signable(s.incidents[id].intent)
  {
    hide Key, MapIntent, DiscoveryTool, IntentOf, Signable;
    if IntentOf(a.request).Some? { ReadyByMap(s, a.request, a.tools, a.now); }
  }

  /** No incident is renewed once it is resolved or its time is over, and none whose intent cannot be signed. */
  lemma {:induction false} RenewedInTime(s: Store, actions: seq<Action>, id: IncidentId, t: nat)
    requires id in s.incidents && Fresh(s, actions) && RenewedDuring(s, actions, id, t)
    ensures s.incidents[id].status == Open && t < s.incidents[id].expires && Signable(s.incidents[id].intent)
    decreases |actions|
  {
    hide Step, RenewedAt, PromotedIncident, Signable;
    if RenewedAt(s, actions[0], id) == Some(t) {
      RenewedWasOpen(s, actions[0], id);
    } else {
      StepIncident(s, actions[0], id);
      RenewedInTime(Step(s, actions[0]), actions[1..], id, t);
    }
  }

  /** A permit the incident's opening at `o` handed out, or one issued for it since. */
  ghost predicate Handed(s: Store, actions: seq<Action>, id: IncidentId, o: nat, p: Permit)
    requires id in s.incidents
  {
    Sign(id, s.incidents[id].intent, o) == Some(p) || (p.incident == id && IssuedDuring(s, actions, p))
  }

  ghost predicate SomePermitWorks(s: Store, actions: seq<Action>, id: IncidentId, o: nat,
                                  r: Request, offered: seq<Tool>, now: nat)
    requires id in s.incidents
  {
    exists p :: Handed(s, actions, id, o, p) && Discovers(PrepareResult(Run(s, actions), With(r, p), offered, now), id)
  }

  ghost predicate RenewedWithin(s: Store, actions: seq<Action>, id: IncidentId, now: nat) {
    exists t: nat :: RenewedDuring(s, actions, id, t) && now < t + 30 * 60
  }

  /** An incident opened at `o` has a permit that works at `now` exactly if its intent can be signed, it was not
      promoted, its thirty days are not over, and its opening or some renewal is less than thirty minutes old. */
  lemma DiscoveryOpenExactly(s: Store, actions: seq<Action>, id: IncidentId, o: nat,
                             r: Request, offered: seq<Tool>, now: nat)
    requires Fresh(s, actions) && id in s.incidents
    requires s.incidents[id].status == Open && s.incidents[id].expires == o + 30 * 24 * 60 * 60
    requires IntentOf(r) == Some(s.incidents[id].intent) && DiscoveryTool(r, offered).Some?
    ensures SomePermitWorks(s, actions, id, o, r, offered, now)
            <==> Signable(s.incidents[id].intent) && !PromotedDuring(s, actions, id) && now < o + 30 * 24 * 60 * 60
                 && (now < o + 30 * 60 || RenewedWithin(s, actions, id, now))
  {
    hide Run, Fresh, PrepareResult, IntentOf, DiscoveryTool, PromotedDuring, IssuedDuring, RenewedDuring, Discovers;
    hide Signable;
    forall p | Handed(s, actions, id, o, p)
      ensures Discovers(PrepareResult(Run(s, actions), With(r, p), offered, now), id)
              <==> now < p.expires && now < o + 30 * 24 * 60 * 60 && !PromotedDuring(s, actions, id)
      ensures Signable(s.incidents[id].intent)
      ensures p == Permit(id, o + 30 * 60)
              || (p.expires >= 30 * 60 && RenewedDuring(s, actions, id, p.expires - 30 * 60))
    {
      PermitAuthorisesExactly(s, actions, p, r, offered, now);
      if Sign(id, s.incidents[id].intent, o) != Some(p) {
        RunIssuesRenewals(s, actions, p);
        RenewedInTime(s, actions, id, p.expires - 30 * 60);
      }
    }
    if Signable(s.incidents[id].intent) { assert Handed(s, actions, id, o, Permit(id, o + 30 * 60)); }
    forall t: nat | RenewedDuring(s, actions, id, t)
      ensures Handed(s, actions, id, o, Permit(id, t + 30 * 60))
    {
      RunIssuesRenewals(s, actions, Permit(id, t + 30 * 60));
    }
  }

  /** So after a refusal that opens an incident there is a way on exactly as long as that. */
  lemma RefusalLeavesWayOnExactly(s: Store, a: Request, tools: seq<Tool>, o: nat, id: IncidentId,
                                  actions: seq<Action>, r: Request, offered: seq<Tool>, now: nat)
    requires OpensIncident(PrepareResult(s, a, tools, o)) && Fresh(PrepareStore(s, a, tools, o, id), actions)
    requires IntentOf(r) == IntentOf(a) && DiscoveryTool(r, offered).Some?
    ensures var t := PrepareStore(s, a, tools, o, id);
            id in t.incidents
            && (SomePermitWorks(t, actions, id, o, r, offered, now)
                <==> PrepareReply(s, a, tools, o, id).Answered? && !PromotedDuring(t, actions, id)
                     && now < o + 30 * 24 * 60 * 60 && (now < o + 30 * 60 || RenewedWithin(t, actions, id, now)))
  {
    hide Run, Fresh, PrepareResult, PrepareStore, PrepareReply, IntentOf, DiscoveryTool, PromotedDuring;
    hide Signable, SomePermitWorks, RenewedWithin;
    RefusalOpensDiscovery(s, a, tools, o, id);
    DiscoveryOpenExactly(PrepareStore(s, a, tools, o, id), actions, id, o, r, offered, now);
  }

  /** Requests of the run use only permits that were handed out before. */
  ghost predicate Genuine(s: Store, actions: seq<Action>, known: set<Permit>)
    decreases |actions|
  {
    actions != [] ==>
      && (actions[0].request.permit.Some? ==> actions[0].request.permit.value in known)
      && Genuine(Step(s, actions[0]), actions[1..], known + set p | p in StepIssues(s, actions[0]))
  }

  /** One discovery tried and failed with a permit in its last second: nothing changes but the permit. */
  lemma RenewalStep(s: Store, p: Permit, r: Request, offered: seq<Tool>, f: IncidentId, g: IncidentId)
    returns (a: Action)
    requires p.incident in s.incidents && s.incidents[p.incident].status == Open
    requires 0 < p.expires <= s.incidents[p.incident].expires
    requires IntentOf(r) == Some(s.incidents[p.incident].intent) && DiscoveryTool(r, offered).Some?
    requires Signable(s.incidents[p.incident].intent)
    ensures a.request.permit == Some(p) && a.newId == f && a.nextId == g && Step(s, a) == s
    ensures Permit(p.incident, p.expires - 1 + 30 * 60) in StepIssues(s, a)
  {
    hide Key, MapIntent, DiscoveryTool, IntentOf, Signable;
    WithKeepsIntent(r, p);
    WithKeepsTool(r, p, offered);
    a := Action(With(r, p), offered, p.expires - 1, Some(false), p.expires - 1, f, g);
    ReadyStore(s, a);
  }

  /** By renewal any moment of the thirty days is reached. */
  lemma {:induction false} RenewalsReach(s: Store, p: Permit, r: Request, offered: seq<Tool>, now: nat,
                                         f: IncidentId, g: IncidentId, known: set<Permit>)
    returns (actions: seq<Action>, q: Permit)
    requires p in known && p.incident in s.incidents && s.incidents[p.incident].status == Open
    requires 0 < p.expires && now < s.incidents[p.incident].expires
    requires IntentOf(r) == Some(s.incidents[p.incident].intent) && DiscoveryTool(r, offered).Some?
    requires Signable(s.incidents[p.incident].intent)
    requires f !in s.incidents && g !in s.incidents && f != g
    ensures Fresh(s, actions) && Genuine(s, actions, known) && Run(s, actions) == s
    ensures q.incident == p.incident && now < q.expires && (q == p || IssuedDuring(s, actions, q))
    decreases now - p.expires
  {
    hide Step, StepIssues, IntentOf, DiscoveryTool, Signable;
    if now < p.expires { return [], p; }
    var a := RenewalStep(s, p, r, offered, f, g);
    var renewed := Permit(p.incident, p.expires - 1 + 30 * 60);
    var more;
    more, q := RenewalsReach(s, renewed, r, offered, now, f, g, known + set p | p in StepIssues(s, a));
    actions := [a] + more;
    assert actions[1..] == more;
  }

  /** After its permit has expired, a request for a stale path is refused as stale again, under a new incident
      with a permit of its own, or throws, if the intent cannot be signed; no other incident is touched. */
  lemma ExpiredPermitRefusedAnew(actions: seq<Action>, r: Request, tools: seq<Tool>, now: nat, id: IncidentId)
    requires IntentOf(r).Some? && r.permit.Some? && r.permit.value.expires <= now
    requires StaleNow(Last(EMPTY, actions, Key(IntentOf(r).value)), now)
    ensures var s := Run(EMPTY, actions);
            var t := PrepareStore(s, r, tools, now, id);
            && PrepareReply(s, r, tools, now, id)
               == (if Signable(IntentOf(r).value)
                   then Answered(Refused(PathStale), Some(Permit(id, now + 30 * 60))) else Threw)
            && id in t.incidents && t.incidents[id].status == Open && IntentOf(r) == Some(t.incidents[id].intent)
            && t.incidents - {id} == s.incidents - {id}
  {
    hide Run, Last, Key, IntentOf, PrepareResult, PrepareStore, PrepareReply, Signable;
    RefusedAsStaleExactly(actions, r, tools, now);
    RefusalOpensDiscovery(Run(EMPTY, actions), r, tools, now, id);
  }

  // ----- intents that cannot be signed

  /** Every permit of `known` is for an existing incident whose intent can be signed. */
  ghost predicate AllSigned(s: Store, known: set<Permit>) {
    forall p | p in known :: p.incident in s.incidents && Signable(s.incidents[p.incident].intent)
  }

  lemma StepKeepsSigned(s: Store, a: Action, known: set<Permit>)
    requires AllSigned(s, known) && a.newId !in s.incidents && a.nextId !in s.incidents && a.newId != a.nextId
    ensures AllSigned(Step(s, a), known + set p | p in StepIssues(s, a))
  {
    hide Step, StepIssues, Signable, PromotedIncident;
    forall p | p in known + set q | q in StepIssues(s, a)
      ensures p.incident in Step(s, a).incidents && Signable(Step(s, a).incidents[p.incident].intent)
    {
      if p in known { StepIncident(s, a, p.incident); } else { IssuedIsSigned(s, a, p); }
    }
  }

  lemma IssuedIsSigned(s: Store, a: Action, p: Permit)
    requires p in StepIssues(s, a) && a.newId !in s.incidents && a.nextId !in s.incidents && a.newId != a.nextId
    ensures p.incident in Step(s, a).incidents && Signable(Step(s, a).incidents[p.incident].intent)
  {
    hide Signable, Key, PrepareResult, Retexted, IntentOf;
    if Finalized(s, a) { ReadyStore(s, a); }
  }

  /** With genuine permits only, an incident whose intent cannot be signed is never promoted: the way out is
      another intent with the same key, or the end of the stale record's lifetime. */
  lemma {:induction false} UnsignableNeverPromoted(s: Store, actions: seq<Action>, known: set<Permit>, id: IncidentId)
    requires Fresh(s, actions) && Genuine(s, actions, known) && AllSigned(s, known)
    requires id in s.incidents && !Signable(s.incidents[id].intent)
    ensures !PromotedDuring(s, actions, id)
    decreases |actions|
  {
    hide Step, StepIssues, PromotedIncident, Signable;
    if actions != [] {
      if PromotedIncident(s, actions[0]) == Some(id) { PromotedWasOpen(s, actions[0]); }
      StepKeepsSigned(s, actions[0], known);
      StepIncident(s, actions[0], id);
      UnsignableNeverPromoted(Step(s, actions[0]), actions[1..], known + (set p | p in StepIssues(s, actions[0])), id);
    }
  }

  /** An arrow in the intent is enough: the failure of a known path writes its stale record and its incident, drops
      the entry, throws, and hands out no permit. */
  lemma ArrowGetsNoPermit(s: Store, tool: JsString, now: nat, id: IncidentId)
    ensures var arrow: JsString := [0x2192];
            var t := FinalizeStore(s, KnownPath(arrow), tool, false, now, id);
            && Trimmed(arrow) && !Signable(arrow)
            && FinalizeReply(s, KnownPath(arrow), false, now, id) == Threw
            && FinalizeIssues(s, KnownPath(arrow), false, now, id) == None
            && Key(arrow) !in t.entries && StaleAt(t, Key(arrow), now) == Some(StalePath(tool, now + 90 * 24 * 60 * 60))
            && IncidentAt(t, id, now) == Some(Incident(Open, arrow, Some(tool), now + 30 * 24 * 60 * 60))
  {
    hide Key;
    var arrow: JsString := [0x2192];
    TrimFixesTrimmed(arrow);
    assert Retexted(arrow) == arrow;
  }

  /** A known path gets exactly the given inputs its tool declares, and all it requires. */
  lemma KnownPathArguments(s: Store, r: Request, tools: seq<Tool>, now: nat)
    requires PrepareResult(s, r, tools, now).Ready? && PrepareResult(s, r, tools, now).execution.KnownPath?
    ensures var p := PrepareResult(s, r, tools, now);
            exists tool ::
              && tool in tools && tool.name == p.tool
              && (forall k :: k in p.arguments <==> k in r.inputs.value && k in tool.properties)
              && (forall k | k in p.arguments :: p.arguments[k] == r.inputs.value[k])
              && (forall i | 0 <= i < |tool.required| :: tool.required[i] in p.arguments)
  {
    hide Key, Text, Choose, Excluded, FindTool;
    var intent := IntentOf(r).value;
    if Key(intent) in s.entries { FoundTool(tools, s.entries[Key(intent)].tool); }
    if Choose(intent, tools).Chosen? { ChosenIsListed(intent, tools); }
  }
}
