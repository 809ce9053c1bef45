/** The mandatory recovery map: promoted entries, stale paths and discovery incidents in a key-value store. */
module RecoveryMap {
  import opened Prelude
  import opened JsText
  import opened Ranking
  import opened Permits

  type IncidentId = nat
  type Inputs = map<JsString, JsString>

  /** Seconds. A stored record is gone once its time to live is over. */
  const STALE_TTL := 90 * 24 * 60 * 60
  const INCIDENT_TTL := 30 * 24 * 60 * 60
  const RESOLVED_TTL := 90 * 24 * 60 * 60
  const PERMIT_SECONDS := 30 * 60

  // ----- keys

  /** Runs of other units become one underscore. */
  function Underscored(s: JsString): JsString {
    if s == [] then []
    else if IsWordUnit(s[0]) then [s[0]] + Underscored(s[1..])
    else if |s| > 1 && !IsWordUnit(s[1]) then Underscored(s[1..])
    else [95] + Underscored(s[1..])
  }

  function StripStart(s: JsString): JsString { if s != [] && s[0] == 95 then StripStart(s[1..]) else s }

  function StripEnd(s: JsString): JsString { if s != [] && s[|s| - 1] == 95 then StripEnd(s[..|s| - 1]) else s }

  function Cut(s: JsString, max: nat): JsString { if |s| <= max then s else s[..max] }

  function Key(s: JsString): JsString {
    var text := Text(s, 500);
    var lower := if text.Some? then Lower(text.value) else Units("unknown");
    var slug := Cut(StripEnd(StripStart(Underscored(lower))), 160);
    if slug == [] then Units("unknown") else slug
  }

  /** The intent under which a prepared action is finalized. */
  function Retexted(intent: JsString): JsString {
    var text := Text(intent, 8000);
    if text.Some? then text.value else Units("unknown action")
  }

  // ----- records

  datatype Entry = Entry(tool: JsString, incident: IncidentId)

  datatype StalePath = StalePath(tool: JsString, expires: nat)

  datatype Status = Open | Resolved

  datatype Incident = Incident(status: Status, intent: JsString, failedTool: Option<JsString>, expires: nat)

  datatype Store = Store(entries: map<JsString, Entry>, stale: map<JsString, StalePath>,
                         incidents: map<IncidentId, Incident>)

  function StaleAt(s: Store, key: JsString, now: nat): Option<StalePath> {
    if key in s.stale && now < s.stale[key].expires then Some(s.stale[key]) else None
  }

  function IncidentAt(s: Store, id: IncidentId, now: nat): Option<Incident> {
    if id in s.incidents && now < s.incidents[id].expires then Some(s.incidents[id]) else None
  }

  function OpenIncident(s: Store, id: IncidentId, intent: JsString, failedTool: Option<JsString>, now: nat): Store {
    s.(incidents := s.incidents[id := Incident(Open, intent, failedTool, now + INCIDENT_TTL)])
  }

  // ----- requests

  /** A signed permit of the right kind and version. */
  datatype Permit = Permit(incident: IncidentId, expires: nat)

  /** `permit` is a permit whose signature holds; it may have expired. */
  datatype Request = Request(intent: Option<JsString>, inputs: Option<Inputs>, permit: Option<Permit>,
                             discoveryTool: Option<JsString>)

  /** The incident named by a permit that has not expired. An expired permit counts as none. */
  function Verified(r: Request, now: nat): Option<IncidentId> {
    if r.permit.Some? && r.permit.value.expires > now then Some(r.permit.value.incident) else None
  }

  datatype Error = InputInvalid | DiscoveryInvalid | PathStale | MapAmbiguous | MapUnknown | InputsMissing

  datatype Execution = KnownPath(intent: JsString) | Discovery(intent: JsString, incident: IncidentId)

  datatype Prepared =
    | Refused(error: Error)
    | Ready(tool: JsString, arguments: Inputs, execution: Execution)

  function TextOf(s: Option<JsString>, max: nat): Option<JsString> { if s.None? then None else Text(s.value, max) }

  function FindTool(tools: seq<Tool>, name: JsString): Option<Tool> {
    if tools == [] then None else if tools[0].name == name then Some(tools[0]) else FindTool(tools[1..], name)
  }

  /** The request's intent, when the request is well formed. */
  function IntentOf(r: Request): Option<JsString> { if r.inputs.None? then None else TextOf(r.intent, 8000) }

  function DiscoveryTool(r: Request, tools: seq<Tool>): Option<Tool> {
    var name := TextOf(r.discoveryTool, 160);
    if name.None? || Excluded(name.value) then None else FindTool(tools, name.value)
  }

  predicate Missing(tool: Tool, given: Inputs) {
    exists i | 0 <= i < |tool.required| :: tool.required[i] !in given
  }

  function Allowed(tool: Tool, inputs: Inputs): Inputs {
    map k | k in inputs && k in tool.properties :: inputs[k]
  }

  function KnownAction(tool: Tool, inputs: Inputs, intent: JsString): Prepared {
    var given := Allowed(tool, inputs);
    if Missing(tool, given) then Refused(InputsMissing) else Ready(tool.name, given, KnownPath(intent))
  }

  /** The promoted tool for an intent, if there is one and it is still offered. */
  function PromotedTool(s: Store, intent: JsString, tools: seq<Tool>): Option<Tool> {
    if Key(intent) in s.entries then FindTool(tools, s.entries[Key(intent)].tool) else None
  }

  /** An intent without a permit. */
  function MapIntent(s: Store, intent: JsString, inputs: Inputs, tools: seq<Tool>, now: nat): Prepared {
    if StaleAt(s, Key(intent), now).Some? && Key(intent) !in s.entries then Refused(PathStale)
    else
      var promoted := PromotedTool(s, intent, tools);
      if promoted.Some? then KnownAction(promoted.value, inputs, intent)
      else match Choose(intent, tools)
        case Chosen(tool) => KnownAction(tool, inputs, intent)
        case Ambiguous => Refused(MapAmbiguous)
        case Unknown => Refused(MapUnknown)
  }

  function PrepareResult(s: Store, r: Request, tools: seq<Tool>, now: nat): Prepared {
    var intent := IntentOf(r);
    if intent.None? then Refused(InputInvalid)
    else if Verified(r, now).None? then MapIntent(s, intent.value, r.inputs.value, tools, now)
    else
      var incident, tool := IncidentAt(s, Verified(r, now).value, now), DiscoveryTool(r, tools);
      if incident.None? || incident.value.status != Open || incident.value.intent != intent.value || tool.None?
      then Refused(DiscoveryInvalid)
      else Ready(tool.value.name, r.inputs.value, Discovery(intent.value, Verified(r, now).value))
  }

  predicate OpensIncident(p: Prepared) { p.Refused? && p.error in {PathStale, MapAmbiguous, MapUnknown} }

  /** Intents that are stale, ambiguous or unknown open an incident, under a new number. */
  function PrepareStore(s: Store, r: Request, tools: seq<Tool>, now: nat, newId: IncidentId): Store {
    var p := PrepareResult(s, r, tools, now);
    if !OpensIncident(p) then s
    else
      var intent := IntentOf(r).value;
      var stale := StaleAt(s, Key(intent), now);
      OpenIncident(s, newId, intent, if p.error.PathStale? then Some(stale.value.tool) else None, now)
  }

  function Sign(id: IncidentId, intent: JsString, now: nat): Option<Permit> {
    if Signable(intent) then Some(Permit(id, now + PERMIT_SECONDS)) else None
  }

  /** And they hand out a permit for it, if it can be signed. */
  function PrepareIssues(s: Store, r: Request, tools: seq<Tool>, now: nat, newId: IncidentId): Option<Permit> {
    if OpensIncident(PrepareResult(s, r, tools, now)) then Sign(newId, IntentOf(r).value, now) else None
  }

  /** A call answers, or throws while signing a permit, when its records are already written. */
  datatype Reply<T> = Answered(value: T, permit: Option<Permit>) | Threw

  function PrepareReply(s: Store, r: Request, tools: seq<Tool>, now: nat, newId: IncidentId): Reply<Prepared> {
    var p, permit := PrepareResult(s, r, tools, now), PrepareIssues(s, r, tools, now, newId);
    if OpensIncident(p) && permit.None? then Threw else Answered(p, permit)
  }

  // ----- finalizing

  datatype Outcome = PathBecameStale | IncidentMissing | DiscoveryContinues | DiscoveryPromoted | PathCompleted

  function FinalizeResult(s: Store, x: Execution, succeeded: bool, now: nat): Outcome {
    match x
    case KnownPath(_) => if succeeded then PathCompleted else PathBecameStale
    case Discovery(_, id) =>
      if IncidentAt(s, id, now).None? then IncidentMissing
      else if succeeded then DiscoveryPromoted else DiscoveryContinues
  }

  function MarkStale(s: Store, key: JsString, tool: JsString, now: nat): Store {
    s.(stale := s.stale[key := StalePath(tool, now + STALE_TTL)], entries := s.entries - {key})
  }

  function Promote(s: Store, key: JsString, tool: JsString, id: IncidentId, now: nat): Store
    requires id in s.incidents
  {
    Store(s.entries[key := Entry(tool, id)], s.stale - {key},
          s.incidents[id := s.incidents[id].(status := Resolved, expires := now + RESOLVED_TTL)])
  }

  function FinalizeStore(s: Store, x: Execution, tool: JsString, succeeded: bool, now: nat, newId: IncidentId): Store {
    var key := Key(Retexted(x.intent));
    match FinalizeResult(s, x, succeeded, now)
    case PathBecameStale => OpenIncident(MarkStale(s, key, tool, now), newId, Retexted(x.intent), Some(tool), now)
    case DiscoveryPromoted => Promote(s, key, tool, x.incident, now)
    case _ => s
  }

  /** A failed path hands out a permit for its new incident, and a failed discovery a further one for its own, if
      the incident's intent can be signed. */
  function FinalizeIssues(s: Store, x: Execution, succeeded: bool, now: nat, newId: IncidentId): Option<Permit> {
    match FinalizeResult(s, x, succeeded, now)
    case PathBecameStale => Sign(newId, Retexted(x.intent), now)
    case DiscoveryContinues => Sign(x.incident, s.incidents[x.incident].intent, now)
    case _ => None
  }

  function FinalizeReply(s: Store, x: Execution, succeeded: bool, now: nat, newId: IncidentId): Reply<Outcome> {
    var o, permit := FinalizeResult(s, x, succeeded, now), FinalizeIssues(s, x, succeeded, now, newId);
    if o in {PathBecameStale, DiscoveryContinues} && permit.None? then Threw else Answered(o, permit)
  }

  // ----- the store

  class RecoveryStore {
    var entries: map<JsString, Entry>
    var stale: map<JsString, StalePath>
    var incidents: map<IncidentId, Incident>

    function Contents(): Store reads this { Store(entries, stale, incidents) }

    constructor ()
      ensures Contents() == Store(map[], map[], map[])
    {
      entries, stale, incidents := map[], map[], map[];
    }

    method PutIncident(id: IncidentId, intent: JsString, failedTool: Option<JsString>, now: nat)
      modifies this`incidents
      ensures Contents() == OpenIncident(old(Contents()), id, intent, failedTool, now)
    {
      incidents := incidents[id := Incident(Open, intent, failedTool, now + INCIDENT_TTL)];
    }

    method Prepare(r: Request, tools: seq<Tool>, now: nat, newId: IncidentId) returns (reply: Reply<Prepared>)
      modifies this`incidents
      ensures reply == PrepareReply(old(Contents()), r, tools, now, newId)
      ensures Contents() == PrepareStore(old(Contents()), r, tools, now, newId)
    {
      hide Text, Key, Choose, Excluded, FindTool, Missing, Allowed, Signable;
      var text := TextOf(r.intent, 8000);
      if text.None? || r.inputs.None? { return Answered(Refused(InputInvalid), None); }
      var intent, inputs := text.value, r.inputs.value;

      var verified := Verified(r, now);
      if verified.Some? {
        var incident, tool := IncidentAt(Contents(), verified.value, now), DiscoveryTool(r, tools);
        if incident.None? || incident.value.status != Open || incident.value.intent != intent || tool.None? {
          return Answered(Refused(DiscoveryInvalid), None);
        }
        return Answered(Ready(tool.value.name, inputs, Discovery(intent, verified.value)), None);
      }

      var key := Key(intent);
      var path := StaleAt(Contents(), key, now);
      if path.Some? && key !in entries {
        PutIncident(newId, intent, Some(path.value.tool), now);
        var permit := Sign(newId, intent, now);
        return if permit.None? then Threw else Answered(Refused(PathStale), permit);
      }
      var tool := if key in entries then FindTool(tools, entries[key].tool) else None;
      if tool.None? {
        var choice := Choose(intent, tools);
        if !choice.Chosen? {
          PutIncident(newId, intent, None, now);
          var permit := Sign(newId, intent, now);
          return if permit.None? then Threw
                 else Answered(Refused(if choice.Ambiguous? then MapAmbiguous else MapUnknown), permit);
        }
        tool := Some(choice.tool);
      }
      var given := Allowed(tool.value, inputs);
      if Missing(tool.value, given) { return Answered(Refused(InputsMissing), None); }
      return Answered(Ready(tool.value.name, given, KnownPath(intent)), None);
    }

    method Finalize(x: Execution, tool: JsString, succeeded: bool, now: nat, newId: IncidentId)
      returns (reply: Reply<Outcome>)
      modifies this
      ensures reply == FinalizeReply(old(Contents()), x, succeeded, now, newId)
      ensures Contents() == FinalizeStore(old(Contents()), x, tool, succeeded, now, newId)
    {
      hide Text, Key, Retexted, Signable;
      var intent := Retexted(x.intent);
      var key := Key(intent);
      if x.KnownPath? && !succeeded {
        stale := stale[key := StalePath(tool, now + STALE_TTL)];
        entries := entries - {key};
        PutIncident(newId, intent, Some(tool), now);
        var permit := Sign(newId, intent, now);
        return if permit.None? then Threw else Answered(PathBecameStale, permit);
      }
      if x.KnownPath? { return Answered(PathCompleted, None); }
      var incident := IncidentAt(Contents(), x.incident, now);
      if incident.None? { return Answered(IncidentMissing, None); }
      if !succeeded {
        var permit := Sign(x.incident, incident.value.intent, now);
        return if permit.None? then Threw else Answered(DiscoveryContinues, permit);
      }
      entries := entries[key := Entry(tool, x.incident)];
      stale := stale - {key};
      incidents := incidents[x.incident := incident.value.(status := Resolved, expires := now + RESOLVED_TTL)];
      return Answered(DiscoveryPromoted, None);
    }
  }

  // ----- runs

  /** One request, and, when it is ready and its execution comes to an end, the finalization. */
  datatype Action = Action(request: Request, tools: seq<Tool>, now: nat, succeeded: Option<bool>, later: nat,
                           newId: IncidentId, nextId: IncidentId)

  predicate Finalized(s: Store, a: Action) {
    PrepareResult(s, a.request, a.tools, a.now).Ready? && a.succeeded.Some?
  }

  function Step(s: Store, a: Action): Store {
    var p, t := PrepareResult(s, a.request, a.tools, a.now), PrepareStore(s, a.request, a.tools, a.now, a.newId);
    if p.Ready? && a.succeeded.Some?
    then FinalizeStore(t, p.execution, p.tool, a.succeeded.value, a.later, a.nextId) else t
  }

  function Run(s: Store, actions: seq<Action>): Store
    decreases |actions|
  {
    if actions == [] then s else Run(Step(s, actions[0]), actions[1..])
  }

  const EMPTY := Store(map[], map[], map[])

  /** Numbers of new incidents have not been used before. */
  ghost predicate Fresh(s: Store, actions: seq<Action>)
    decreases |actions|
  {
    actions != [] ==>
      && actions[0].newId !in s.incidents && actions[0].nextId !in s.incidents
      && actions[0].newId != actions[0].nextId
      && Fresh(Step(s, actions[0]), actions[1..])
  }
}
