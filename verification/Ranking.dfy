/** Ranking tools by how well one of their aliases matches an intent. */
module Ranking {
  import opened Prelude
  import opened JsText

  // ----- text

  predicate IsUpper(c: CodeUnit) { 65 <= c <= 90 }

  /** A lower-case letter or a digit. */
  predicate IsWordUnit(c: CodeUnit) { 97 <= c <= 122 || 48 <= c <= 57 }

  function LowerUnit(c: CodeUnit): CodeUnit { if IsUpper(c) then c + 32 else c }

  function Lower(s: JsString): (r: JsString)
    ensures |r| == |s| && forall i | 0 <= i < |s| :: r[i] == LowerUnit(s[i])
  {
    seq(|s|, i requires 0 <= i < |s| => LowerUnit(s[i]))
  }

  /** The trimmed text, cut to a length; nothing when it is empty. */
  function Text(s: JsString, max: nat): Option<JsString> {
    var t := Trim(s);
    if t == [] then None else Some(if |t| <= max then t else t[..max])
  }

  // ----- tokens and aliases

  const STOP: seq<string> := [
    "a", "an", "and", "are", "as", "at", "be", "by", "do", "for", "from", "get", "how", "in", "is", "it", "of", "on",
    "or", "the", "this", "to", "use", "we", "with"]

  predicate IsStop(w: JsString) { exists i | 0 <= i < |STOP| :: Units(STOP[i]) == w }

  /** The pieces between units that are neither letters nor digits; some may be empty. */
  function Pieces(s: JsString): (r: seq<JsString>)
    ensures |r| >= 1
  {
    if s == [] then [[]]
    else
      var rest := Pieces(s[1..]);
      if IsWordUnit(s[0]) then [[s[0]] + rest[0]] + rest[1..] else [[]] + rest
  }

  function Telling(words: seq<JsString>): seq<JsString> {
    if words == [] then []
    else if |words[0]| > 1 && !IsStop(words[0]) then [words[0]] + Telling(words[1..]) else Telling(words[1..])
  }

  function Tokens(s: JsString): (r: seq<JsString>)
    ensures forall i, j | 0 <= i < j < |r| :: r[i] != r[j]
  {
    var text := Text(s, 12000);
    Distinct(Telling(Pieces(if text.Some? then Lower(text.value) else [])))
  }

  datatype Tool = Tool(name: JsString, title: JsString, description: JsString,
                       properties: seq<JsString>, required: seq<JsString>)

  /** A space before each capital that follows a small letter or a digit. */
  function SpaceCapitals(s: JsString): JsString {
    if |s| <= 1 then s
    else if IsWordUnit(s[0]) && IsUpper(s[1]) then [s[0], 32] + SpaceCapitals(s[1..])
    else [s[0]] + SpaceCapitals(s[1..])
  }

  predicate IsDash(c: CodeUnit) { c == 95 || c == 45 }

  /** One space for each run of underscores and hyphens. */
  function SpaceDashes(s: JsString): JsString {
    if s == [] then []
    else if !IsDash(s[0]) then [s[0]] + SpaceDashes(s[1..])
    else if |s| > 1 && IsDash(s[1]) then SpaceDashes(s[1..])
    else [32] + SpaceDashes(s[1..])
  }

  function SplitName(name: JsString): JsString { Lower(SpaceDashes(SpaceCapitals(name))) }

  const EXPLICIT_ALIASES: map<string, seq<string>> := map[
    "recoveryHealth" := ["check recovery health", "verify recovery and main health"],
    "getRepoStatus" := ["inspect repository status", "read repository head", "get current repository sha"],
    "readRepoFile" := ["read repository file", "inspect source file"],
    "searchRepoFiles" := ["search repository", "find code in repository"],
    "applyRepoTextPatch" := ["apply exact repository patch", "patch repository file"],
    "listGitHubWorkflowRuns" := ["list workflow runs", "inspect recent github workflows"],
    "runGitHubWorkflow" := ["run github workflow", "dispatch engineering workflow", "run tests", "deploy worker"],
    "getGitHubWorkflowRun" := ["inspect workflow run", "read workflow result", "check workflow failure"],
    "verifyMainMcp" := ["verify main mcp", "inspect main mcp health"],
    "getCloudflareWorkerState" := ["inspect cloudflare worker", "read worker deployment state"],
    "queryCloudflareTelemetry" := ["query cloudflare telemetry", "inspect worker logs"],
    "rollbackMainWorker" := ["rollback main worker", "restore prior worker version"],
    "startRepoFileWrite" := ["start large repository file write"],
    "appendRepoFileChunk" := ["append repository file chunk"],
    "commitRepoFileWrite" := ["commit repository file write"],
    "runMainMcpSmoke" := ["run main mcp smoke", "verify live main mcp contract"]]

  function AsString(s: JsString): string {
    seq(|s|, i requires 0 <= i < |s| => if s[i] < 128 then s[i] as char else '\0')
  }

  function ExplicitAliases(name: JsString): seq<JsString> {
    if AsString(name) in EXPLICIT_ALIASES
    then
      var texts := EXPLICIT_ALIASES[AsString(name)];
      seq(|texts|, i requires 0 <= i < |texts| => Units(texts[i]))
    else []
  }

  function Aliases(t: Tool): seq<JsString> {
    Distinct([SplitName(t.name), Lower(t.title), Lower(t.description)] + ExplicitAliases(t.name))
  }

  // ----- scores, as exact numbers

  function Overlap(alias: seq<JsString>, intent: seq<JsString>): seq<JsString> {
    if alias == [] then []
    else if alias[0] in intent then [alias[0]] + Overlap(alias[1..], intent)
    else Overlap(alias[1..], intent)
  }

  /** Up to ten tenths for the length of each token. */
  function Lengths(tokens: seq<JsString>): nat {
    if tokens == [] then 0 else (if |tokens[0]| <= 10 then |tokens[0]| else 10) + Lengths(tokens[1..])
  }

  function Coverage(overlap: nat, all: nat): real { if all == 0 then 0.0 else overlap as real / all as real }

  function OverlapScore(alias: seq<JsString>, intent: seq<JsString>): real {
    var overlap := Overlap(alias, intent);
    (|overlap| * 4) as real + Coverage(|overlap|, |alias|) * 6.0 + Lengths(overlap) as real / 10.0
  }

  function AliasScore(alias: JsString, intent: JsString): real {
    var exact := if Lower(intent) == alias then 100.0 else 0.0;
    var partial := OverlapScore(Tokens(alias), Tokens(intent));
    if exact >= partial then exact else partial
  }

  function Best(aliases: seq<JsString>, intent: JsString): real {
    if aliases == [] then 0.0
    else
      var rest, last := Best(aliases[..|aliases| - 1], intent), AliasScore(aliases[|aliases| - 1], intent);
      if rest >= last then rest else last
  }

  function Score(intent: JsString, t: Tool): real { Best(Aliases(t), intent) }

  /** The loop over the aliases. */
  method ComputeScore(intent: JsString, tool: Tool) returns (best: real)
    ensures best == Score(intent, tool)
    ensures forall i | 0 <= i < |Aliases(tool)| :: AliasScore(Aliases(tool)[i], intent) <= best
    ensures best == 0.0 || exists i | 0 <= i < |Aliases(tool)| :: AliasScore(Aliases(tool)[i], intent) == best
  {
    hide Aliases, OverlapScore, Tokens, Lower;
    var aliases, intentTokens := Aliases(tool), Tokens(intent);
    best := 0.0;
    var i := 0;
    while i < |aliases|
      invariant 0 <= i <= |aliases|
      invariant best == Best(aliases[..i], intent)
      invariant forall j | 0 <= j < i :: AliasScore(aliases[j], intent) <= best
      invariant best == 0.0 || exists j | 0 <= j < i :: AliasScore(aliases[j], intent) == best
    {
      var alias := aliases[i];
      assert aliases[..i + 1][..i] == aliases[..i];
      if Lower(intent) == alias && best < 100.0 { best := 100.0; }
      var partial := OverlapScore(Tokens(alias), intentTokens);
      if best < partial { best := partial; }
      i := i + 1;
    }
    assert aliases[..i] == aliases;
  }

  // ----- the choice

  const EXCLUDED: set<string> := {"getRecoveryStartupContext", "executeMappedRecoveryIntent"}

  predicate Excluded(name: JsString) { exists s | s in EXCLUDED :: Units(s) == name }

  datatype Ranked = Ranked(tool: Tool, score: real)

  function Candidates(intent: JsString, tools: seq<Tool>): seq<Ranked> {
    if tools == [] then []
    else
      var rest, score := Candidates(intent, tools[1..]), Score(intent, tools[0]);
      if Excluded(tools[0].name) || score < 8.0 then rest else [Ranked(tools[0], score)] + rest
  }

  function InsertRanked(r: Ranked, rs: seq<Ranked>): seq<Ranked> {
    if rs == [] || r.score >= rs[0].score then [r] + rs else [rs[0]] + InsertRanked(r, rs[1..])
  }

  /** Highest score first; equal scores keep their order. */
  function SortRanked(rs: seq<Ranked>): seq<Ranked> {
    if rs == [] then [] else InsertRanked(rs[0], SortRanked(rs[1..]))
  }

  datatype Choice = Chosen(tool: Tool) | Ambiguous | Unknown

  function Choose(intent: JsString, tools: seq<Tool>): Choice {
    var ranked := SortRanked(Candidates(intent, tools));
    if ranked == [] then Unknown
    else if ranked[0].score >= 18.0 || |ranked| == 1 || ranked[0].score - ranked[1].score >= 4.0
    then Chosen(ranked[0].tool)
    else Ambiguous
  }
}
