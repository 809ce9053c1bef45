/** A verbatim alias always wins: no partial overlap of tokens reaches its score. */
module RankingTheorems {
  import opened Prelude
  import opened JsText
  import opened Ranking

  // ----- overlaps

  lemma {:induction false} OverlapHas(alias: seq<JsString>, intent: seq<JsString>, x: JsString)
    ensures x in Overlap(alias, intent) <==> x in alias && x in intent
    decreases |alias|
  {
    if alias != [] {
      OverlapHas(alias[1..], intent, x);
      SplitAt(alias, 1);
    }
  }

  predicate NoRepeats(s: seq<JsString>) { forall i, j | 0 <= i < j < |s| :: s[i] != s[j] }

  lemma {:induction false} OverlapShape(alias: seq<JsString>, intent: seq<JsString>)
    requires NoRepeats(alias)
    ensures NoRepeats(Overlap(alias, intent)) && |Overlap(alias, intent)| <= |alias|
    ensures |Overlap(alias, intent)| == |alias| ==> Overlap(alias, intent) == alias
    decreases |alias|
  {
    if alias != [] {
      OverlapShape(alias[1..], intent);
      SplitAt(alias, 1);
      var rest := Overlap(alias[1..], intent);
      if alias[0] in rest { OverlapHas(alias[1..], intent, alias[0]); }
    }
  }

  lemma {:induction false} OverlapWithItself(tokens: seq<JsString>, intent: seq<JsString>)
    requires forall i | 0 <= i < |tokens| :: tokens[i] in intent
    ensures Overlap(tokens, intent) == tokens
    decreases |tokens|
  {
    if tokens != [] {
      assert tokens[0] in intent;
      OverlapWithItself(tokens[1..], intent);
      SplitAt(tokens, 1);
    }
  }

  function Without(s: seq<JsString>, x: JsString): seq<JsString> {
    if s == [] then [] else if s[0] == x then s[1..] else [s[0]] + Without(s[1..], x)
  }

  lemma {:induction false} WithoutOne(s: seq<JsString>, x: JsString)
    requires x in s && NoRepeats(s)
    ensures var r := Without(s, x);
            |r| == |s| - 1 && NoRepeats(r) && Lengths(s) == Lengths(r) + (if |x| <= 10 then |x| else 10)
    ensures forall y :: y in Without(s, x) <==> y in s && y != x
    decreases |s|
  {
    SplitAt(s, 1);
    if s[0] != x {
      WithoutOne(s[1..], x);
      var r := Without(s[1..], x);
      assert Without(s, x)[1..] == r;
      forall i | 0 <= i < |r| ensures r[i] != s[0] { assert r[i] in s[1..]; }
    }
  }

  /** Fewer different tokens, fewer and shorter. */
  lemma {:induction false} PartIsLess(s: seq<JsString>, t: seq<JsString>)
    requires NoRepeats(s) && NoRepeats(t) && forall i | 0 <= i < |s| :: s[i] in t
    ensures |s| <= |t| && Lengths(s) <= Lengths(t)
    ensures |s| == |t| ==> forall x :: x in t ==> x in s
    decreases |s|
  {
    if s == [] {
    } else {
      assert s[0] in t;
      WithoutOne(t, s[0]);
      var r := Without(t, s[0]);
      forall i | 0 <= i < |s[1..]| ensures s[1..][i] in r { assert s[i + 1] in t && s[i + 1] != s[0]; }
      PartIsLess(s[1..], r);
      if |s| == |t| {
        forall x | x in t ensures x in s {
          if x != s[0] { assert x in r && x in s[1..]; }
        }
      }
    }
  }

  // ----- scores

  predicate SameTokens(s: seq<JsString>, t: seq<JsString>) {
    (forall i | 0 <= i < |s| :: s[i] in t) && (forall i | 0 <= i < |t| :: t[i] in s)
  }

  lemma CoverageBound(o: nat, n: nat)
    requires o <= n
    ensures 0.0 <= Coverage(o, n) <= 1.0
    ensures Coverage(o, n) == 1.0 <==> o == n && n > 0
  {
    if n > 0 { assert Coverage(o, n) * n as real == o as real; }
  }

  function FullScore(intent: seq<JsString>): real {
    (|intent| * 4) as real + (if intent == [] then 0.0 else 6.0) + Lengths(intent) as real / 10.0
  }

  /** An alias without exactly the intent's tokens scores less than those tokens would. */
  lemma PartialOverlapScoresLess(alias: seq<JsString>, intent: seq<JsString>)
    requires NoRepeats(alias) && NoRepeats(intent)
    ensures OverlapScore(alias, intent) <= FullScore(intent)
    ensures intent != [] && !SameTokens(alias, intent) ==> OverlapScore(alias, intent) < FullScore(intent)
    ensures SameTokens(alias, intent) ==> OverlapScore(alias, intent) == FullScore(intent)
  {
    hide Coverage, Overlap, Lengths, NoRepeats;
    var o := Overlap(alias, intent);
    OverlapShape(alias, intent);
    forall i | 0 <= i < |o| ensures o[i] in intent && o[i] in alias { OverlapHas(alias, intent, o[i]); }
    PartIsLess(o, intent);
    CoverageBound(|o|, |alias|);
    if |o| == |alias| == |intent| {
      assert SameTokens(alias, intent);
    }
    if SameTokens(alias, intent) {
      OverlapWithItself(alias, intent);
      PartIsLess(alias, intent);
      PartIsLess(intent, alias);
    }
    if intent == [] { NoCoverage(|alias|); }
  }

  lemma NoCoverage(n: nat)
    ensures Coverage(0, n) == 0.0
  {
  }

  /** An alias that is the intent verbatim has the intent's tokens. */
  lemma VerbatimTokens(alias: JsString, intent: JsString)
    requires Lower(intent) == alias
    ensures Tokens(alias) == Tokens(intent)
  {
    LowerTrims(intent);
    LowerTwice();
    LowerCut(Trim(intent), 12000);
  }

  lemma LowerTwice()
    ensures forall t :: Lower(Lower(t)) == Lower(t)
  {
    forall t ensures Lower(Lower(t)) == Lower(t) {
      assert forall i | 0 <= i < |t| :: Lower(Lower(t))[i] == Lower(t)[i];
    }
  }

  lemma LowerCut(s: JsString, n: nat)
    ensures |s| > n ==> Lower(s[..n]) == Lower(s)[..n]
  {
  }

  lemma {:induction false} LowerTrimsStart(s: JsString)
    ensures TrimStart(Lower(s)) == Lower(TrimStart(s))
    decreases |s|
  {
    if s != [] && IsSpace(s[0]) {
      assert Lower(s)[1..] == Lower(s[1..]);
      LowerTrimsStart(s[1..]);
    }
  }

  lemma {:induction false} LowerTrimsEnd(s: JsString)
    ensures TrimEnd(Lower(s)) == Lower(TrimEnd(s))
    decreases |s|
  {
    if s != [] && IsSpace(s[|s| - 1]) {
      assert Lower(s)[..|s| - 1] == Lower(s[..|s| - 1]);
      LowerTrimsEnd(s[..|s| - 1]);
    }
  }

  lemma LowerTrims(s: JsString)
    ensures Trim(Lower(s)) == Lower(Trim(s))
  {
    LowerTrimsStart(s);
    LowerTrimsEnd(TrimStart(s));
  }

  // ----- the best alias of a tool

  lemma {:induction false} BestBounds(aliases: seq<JsString>, intent: JsString)
    ensures forall i | 0 <= i < |aliases| :: AliasScore(aliases[i], intent) <= Best(aliases, intent)
    ensures Best(aliases, intent) == 0.0
            || exists i | 0 <= i < |aliases| :: AliasScore(aliases[i], intent) == Best(aliases, intent)
    decreases |aliases|
  {
    hide AliasScore;
    if aliases != [] {
      var n := |aliases| - 1;
      BestBounds(aliases[..n], intent);
      assert forall i | 0 <= i < n :: aliases[..n][i] == aliases[i];
    }
  }

  predicate HasAlias(t: Tool, intent: JsString) { Lower(intent) in Aliases(t) }

  /** Some alias of the tool has exactly the tokens of the intent. */
  predicate HasTokensOf(t: Tool, intent: JsString) {
    exists i | 0 <= i < |Aliases(t)| :: SameTokens(Tokens(Aliases(t)[i]), Tokens(intent))
  }

  lemma VerbatimScore(t: Tool, intent: JsString)
    requires HasAlias(t, intent)
    ensures Score(intent, t) >= 100.0 && Score(intent, t) >= FullScore(Tokens(intent))
  {
    hide Aliases, Tokens, OverlapScore, FullScore, Best;
    var i :| 0 <= i < |Aliases(t)| && Aliases(t)[i] == Lower(intent);
    VerbatimTokens(Aliases(t)[i], intent);
    PartialOverlapScoresLess(Tokens(Aliases(t)[i]), Tokens(intent));
    BestBounds(Aliases(t), intent);
    assert AliasScore(Aliases(t)[i], intent) >= 100.0;
  }

  /** Whoever reaches the score of a verbatim alias has an alias with the same tokens. */
  lemma ReachingScore(t: Tool, intent: JsString)
    requires Score(intent, t) >= 100.0 && Score(intent, t) >= FullScore(Tokens(intent))
    ensures HasTokensOf(t, intent)
  {
    hide Aliases, Tokens, OverlapScore, FullScore, Best, SameTokens;
    BestBounds(Aliases(t), intent);
    var i :| 0 <= i < |Aliases(t)| && AliasScore(Aliases(t)[i], intent) == Best(Aliases(t), intent);
    var alias := Aliases(t)[i];
    if Lower(intent) == alias {
      VerbatimTokens(alias, intent);
      SameAsItself(Tokens(intent));
    } else {
      PartialOverlapScoresLess(Tokens(alias), Tokens(intent));
      EmptyScore(Tokens(alias));
    }
  }

  lemma SameAsItself(s: seq<JsString>)
    ensures SameTokens(s, s)
  {
  }

  lemma EmptyScore(alias: seq<JsString>)
    ensures OverlapScore(alias, []) == 0.0
  {
    NothingInCommon(alias);
    NoCoverage(|alias|);
  }

  lemma {:induction false} NothingInCommon(alias: seq<JsString>)
    ensures Overlap(alias, []) == []
  {
    if alias != [] { NothingInCommon(alias[1..]); }
  }

  // ----- the choice

  lemma {:induction false} InsertRankedHas(r: Ranked, rs: seq<Ranked>, x: Ranked)
    ensures x in InsertRanked(r, rs) <==> x == r || x in rs
    ensures InsertRanked(r, rs) != []
    decreases |rs|
  {
    if rs != [] {
      InsertRankedHas(r, rs[1..], x);
      SplitAt(rs, 1);
    }
  }

  /** The first of the sorted candidates is one of them, and none scores higher. */
  lemma {:induction false} FirstIsBest(rs: seq<Ranked>, x: Ranked)
    requires rs != []
    ensures var s := SortRanked(rs); s != [] && s[0] in rs && (x in rs ==> x.score <= s[0].score)
    decreases |rs|
  {
    SplitAt(rs, 1);
    if |rs| > 1 {
      FirstIsBest(rs[1..], x);
      InsertRankedHas(rs[0], SortRanked(rs[1..]), x);
    } else {
      assert rs[1..] == [];
    }
  }

  lemma {:induction false} CandidatesHave(intent: JsString, tools: seq<Tool>, r: Ranked)
    ensures r in Candidates(intent, tools)
            <==> r.tool in tools && !Excluded(r.tool.name) && r.score == Score(intent, r.tool) && r.score >= 8.0
    decreases |tools|
  {
    hide Score, Excluded;
    if tools != [] {
      CandidatesHave(intent, tools[1..], r);
      SplitAt(tools, 1);
    }
  }

  /** For any list of tools, no tool that is not excluded scores higher than the chosen one. */
  lemma ChoiceIsBest(intent: JsString, tools: seq<Tool>, t: Tool)
    requires t in tools && !Excluded(t.name) && Choose(intent, tools).Chosen?
    ensures Score(intent, t) <= Score(intent, Choose(intent, tools).tool)
  {
    hide Score, Excluded;
    var cs := Candidates(intent, tools);
    var r := Ranked(t, Score(intent, t));
    CandidatesHave(intent, tools, r);
    FirstIsBest(cs, r);
    CandidatesHave(intent, tools, SortRanked(cs)[0]);
  }

  /** An intent is unknown exactly when no tool that is not excluded scores 8 or more. */
  lemma UnknownExactly(intent: JsString, tools: seq<Tool>)
    ensures Choose(intent, tools).Unknown?
            <==> forall i | 0 <= i < |tools| :: Excluded(tools[i].name) || Score(intent, tools[i]) < 8.0
  {
    hide Score, Excluded;
    var cs := Candidates(intent, tools);
    if cs != [] {
      FirstIsBest(cs, cs[0]);
      CandidatesHave(intent, tools, cs[0]);
    }
    forall i | 0 <= i < |tools| && cs == [] ensures Excluded(tools[i].name) || Score(intent, tools[i]) < 8.0 {
      CandidatesHave(intent, tools, Ranked(tools[i], Score(intent, tools[i])));
    }
  }

  /** Sorting puts the two best of different places first. */
  lemma {:induction false} TopTwo(rs: seq<Ranked>) returns (i: nat, j: nat)
    requires |rs| >= 2
    ensures i < |rs| && j < |rs| && i != j && |SortRanked(rs)| >= 2
    ensures SortRanked(rs)[0] == rs[i] && SortRanked(rs)[1] == rs[j]
    ensures forall k | 0 <= k < |rs| :: rs[k].score <= rs[i].score && (k != i ==> rs[k].score <= rs[j].score)
    decreases |rs|
  {
    var r, rest, sorted := rs[0], rs[1..], SortRanked(rs[1..]);
    if |rest| == 1 {
      assert rest[1..] == [] && SortRanked(rest[1..]) == [];
      assert sorted == [rest[0]] + [] && sorted[1..] == [];
      assert InsertRanked(r, sorted[1..]) == [r];
      assert SortRanked(rs) == InsertRanked(r, sorted);
      i, j := if r.score >= rest[0].score then 0 else 1, if r.score >= rest[0].score then 1 else 0;
    } else {
      i, j := TopTwo(rest);
      assert SortRanked(rs) == InsertRanked(r, sorted);
      assert InsertRanked(r, sorted[1..])[0] == if r.score >= sorted[1].score then r else sorted[1];
      if r.score >= sorted[0].score { i, j := 0, i + 1; }
      else if r.score >= sorted[1].score { i, j := i + 1, 0; }
      else { i, j := i + 1, j + 1; }
    }
  }

  /** A best candidate below 18 that leads another one by less than 4. */
  ghost predicate Contested(cs: seq<Ranked>) {
    exists i, j | 0 <= i < |cs| && 0 <= j < |cs| && i != j ::
      cs[i].score < 18.0 && cs[i].score - cs[j].score < 4.0 && forall k | 0 <= k < |cs| :: cs[k].score <= cs[i].score
  }

  /** An intent is ambiguous exactly when its best candidate is contested. */
  lemma AmbiguousExactly(intent: JsString, tools: seq<Tool>)
    ensures Choose(intent, tools).Ambiguous? <==> Contested(Candidates(intent, tools))
  {
    hide Candidates, SortRanked;
    var cs := Candidates(intent, tools);
    SortedLength(cs);
    if |cs| >= 2 {
      var i, j := TopTwo(cs);
    }
  }

  lemma {:induction false} SortedLength(rs: seq<Ranked>)
    ensures |SortRanked(rs)| == |rs|
  {
    if rs != [] {
      SortedLength(rs[1..]);
      InsertedLength(rs[0], SortRanked(rs[1..]));
    }
  }

  lemma {:induction false} InsertedLength(r: Ranked, rs: seq<Ranked>)
    ensures |InsertRanked(r, rs)| == |rs| + 1
  {
    if rs != [] { InsertedLength(r, rs[1..]); }
  }

  lemma ChosenIsListed(intent: JsString, tools: seq<Tool>)
    requires Choose(intent, tools).Chosen?
    ensures Choose(intent, tools).tool in tools && !Excluded(Choose(intent, tools).tool.name)
  {
    hide Score, Excluded;
    var cs := Candidates(intent, tools);
    var first := SortRanked(cs)[0];
    FirstIsBest(cs, first);
    CandidatesHave(intent, tools, first);
  }

  /** An intent that is verbatim an alias of a tool always chooses a tool, whatever the list: that one, or
      one with an alias of exactly the same tokens. */
  lemma VerbatimAliasWins(intent: JsString, tools: seq<Tool>, t: Tool)
    requires t in tools && !Excluded(t.name) && HasAlias(t, intent)
    ensures Choose(intent, tools).Chosen?
    ensures HasTokensOf(Choose(intent, tools).tool, intent)
    ensures Score(intent, Choose(intent, tools).tool) >= Score(intent, t)
  {
    hide Score, Excluded, HasAlias, HasTokensOf, FullScore;
    var cs := Candidates(intent, tools);
    var r := Ranked(t, Score(intent, t));
    VerbatimScore(t, intent);
    CandidatesHave(intent, tools, r);
    FirstIsBest(cs, r);
    var first := SortRanked(cs)[0];
    CandidatesHave(intent, tools, first);
    ReachingScore(first.tool, intent);
  }

  /** If no other tool has such an alias, it is that tool. */
  lemma OnlyVerbatimAlias(intent: JsString, tools: seq<Tool>, t: Tool)
    requires t in tools && !Excluded(t.name) && HasAlias(t, intent)
    requires forall u | u in tools && !Excluded(u.name) && HasTokensOf(u, intent) :: u == t
    ensures Choose(intent, tools) == Chosen(t)
  {
    hide HasAlias, HasTokensOf, Choose, Excluded;
    VerbatimAliasWins(intent, tools, t);
    ChosenIsListed(intent, tools);
  }
}
