/** Tokens, names, scores and keys of the recovery map, each spelled out without the functions that compute it. */
module TokenLaws {
  import opened Prelude
  import opened JsText
  import opened Ranking
  import opened RecoveryMap

  // ----- runs of letters and digits

  predicate Plain(c: CodeUnit) { 97 <= c <= 122 || 48 <= c <= 57 }

  /** `w` is at `i` a run of small letters and digits that no such unit touches. */
  predicate RunAt(s: JsString, i: int, w: JsString) {
    && 0 <= i && w != [] && i + |w| <= |s| && w == s[i..i + |w|] && (forall k | 0 <= k < |w| :: Plain(w[k]))
    && (i > 0 ==> !Plain(s[i - 1])) && (i + |w| < |s| ==> !Plain(s[i + |w|]))
  }

  ghost predicate IsRun(s: JsString, w: JsString) { exists i :: RunAt(s, i, w) }

  ghost predicate LaterRun(s: JsString, w: JsString) { exists i :: i > 0 && RunAt(s, i, w) }

  /** The run a text starts with, which may be empty. */
  predicate Head(s: JsString, w: JsString) {
    && |w| <= |s| && w == s[..|w|] && (forall k | 0 <= k < |w| :: Plain(w[k]))
    && (|w| == |s| || !Plain(s[|w|]))
  }

  lemma {:induction false} PiecesStart(s: JsString)
    ensures Head(s, Pieces(s)[0])
    ensures |Pieces(s)| == 1 <==> Pieces(s)[0] == s
    decreases |s|
  {
    if s != [] {
      PiecesStart(s[1..]);
      SplitAt(s, 1);
      assert s[..1] == [s[0]];
      var w := Pieces(s[1..])[0];
      if IsWordUnit(s[0]) {
        assert s[..|w| + 1] == [s[0]] + s[1..][..|w|];
        assert forall k | 0 <= k < |w| + 1 :: ([s[0]] + w)[k] == s[k];
      } else {
        assert s[..0] == [];
      }
    }
  }

  function Words(pieces: seq<JsString>): seq<JsString> {
    if pieces == [] then [] else if pieces[0] == [] then Words(pieces[1..]) else [pieces[0]] + Words(pieces[1..])
  }

  lemma {:induction false} WordsHave(pieces: seq<JsString>, w: JsString)
    ensures w in Words(pieces) <==> w in pieces && w != []
    decreases |pieces|
  {
    if pieces != [] {
      WordsHave(pieces[1..], w);
      SplitAt(pieces, 1);
    }
  }

  lemma LaterRunShifts(s: JsString, w: JsString)
    requires s != []
    ensures LaterRun(s, w) <==> LaterRun(s[1..], w) || (!Plain(s[0]) && RunAt(s[1..], 0, w))
  {
    var t := s[1..];
    if i :| i > 0 && RunAt(s, i, w) { assert RunAt(t, i - 1, w); }
    if i :| (i > 0 || !Plain(s[0])) && RunAt(t, i, w) { assert RunAt(s, i + 1, w); }
  }

  /** The pieces but the first are the runs that do not start the text. */
  lemma {:induction false} LaterPieces(s: JsString, w: JsString)
    requires w != []
    ensures w in Pieces(s)[1..] <==> LaterRun(s, w)
    decreases |s|
  {
    hide RunAt, LaterRun;
    if s == [] {
      NoLaterRun(w);
    } else {
      var t, ps := s[1..], Pieces(s[1..]);
      LaterPieces(t, w);
      LaterRunShifts(s, w);
      if IsWordUnit(s[0]) {
        assert Pieces(s)[1..] == ps[1..];
      } else {
        assert Pieces(s)[1..] == ps;
        PiecesStart(t);
        SplitAt(ps, 1);
        assert w in ps <==> w == ps[0] || w in ps[1..];
        HeadIsRun(t, ps[0], w);
      }
    }
  }

  lemma NoLaterRun(w: JsString)
    ensures !LaterRun([], w)
  {
  }

  lemma HeadIsRun(s: JsString, first: JsString, w: JsString)
    requires Head(s, first) && w != []
    ensures w == first <==> RunAt(s, 0, w)
  {
  }

  /** The nonempty pieces of a text are its runs of small letters and digits. */
  lemma PiecesAreRuns(s: JsString, w: JsString)
    ensures w in Words(Pieces(s)) <==> IsRun(s, w)
  {
    WordsHave(Pieces(s), w);
    PiecesStart(s);
    if w != [] {
      LaterPieces(s, w);
      HeadIsRun(s, Pieces(s)[0], w);
      SplitAt(Pieces(s), 1);
      assert IsRun(s, w) <==> RunAt(s, 0, w) || LaterRun(s, w);
    }
  }

  function Flat(pieces: seq<JsString>): JsString { if pieces == [] then [] else pieces[0] + Flat(pieces[1..]) }

  function OnlyPlain(s: JsString): JsString {
    if s == [] then [] else (if Plain(s[0]) then [s[0]] else []) + OnlyPlain(s[1..])
  }

  /** And they come in the order of the text. */
  lemma {:induction false} PiecesInOrder(s: JsString)
    ensures Flat(Pieces(s)) == OnlyPlain(s)
    decreases |s|
  {
    if s != [] {
      PiecesInOrder(s[1..]);
      var rest := Pieces(s[1..]);
      if IsWordUnit(s[0]) {
        assert Pieces(s)[1..] == rest[1..];
        Regroup([s[0]], rest[0], Flat(rest[1..]));
      } else {
        assert Pieces(s)[1..] == rest;
      }
    }
  }

  // ----- tokens

  /** Small letters for the capitals A to Z. */
  lemma LowerSpelled(s: JsString, i: nat)
    requires i < |s|
    ensures |Lower(s)| == |s| && Lower(s)[i] == if 65 <= s[i] <= 90 then s[i] + 32 else s[i]
  {
  }

  /** Trimmed, cut to a length, and nothing if that is empty. */
  lemma TextSpelled(s: JsString, max: nat)
    ensures var t := Trim(s);
            Text(s, max) == if t == [] then None else if |t| > max then Some(t[..max]) else Some(t)
  {
  }

  predicate Told(w: JsString) {
    && |w| > 1
    && w !in {Units("a"), Units("an"), Units("and"), Units("are"), Units("as"), Units("at"), Units("be"), Units("by"),
              Units("do"), Units("for"), Units("from"), Units("get"), Units("how"), Units("in"), Units("is"),
              Units("it"), Units("of"), Units("on"), Units("or"), Units("the"), Units("this"), Units("to"),
              Units("use"), Units("we"), Units("with")}
  }

  lemma StopSpelled(w: JsString)
    ensures |w| > 1 && !IsStop(w) <==> Told(w)
  {
    hide Units;
    assert |STOP| == 25;
    FirstStops();
    MoreStops();
    LastStops();
    if !IsStop(w) { assert forall i | 0 <= i < |STOP| :: Units(STOP[i]) != w; }
  }

  lemma FirstStops()
    ensures STOP[0] == "a" && STOP[1] == "an" && STOP[2] == "and" && STOP[3] == "are" && STOP[4] == "as"
    ensures STOP[5] == "at" && STOP[6] == "be" && STOP[7] == "by" && STOP[8] == "do"
  {
  }

  lemma MoreStops()
    ensures STOP[9] == "for" && STOP[10] == "from" && STOP[11] == "get" && STOP[12] == "how" && STOP[13] == "in"
    ensures STOP[14] == "is" && STOP[15] == "it" && STOP[16] == "of"
  {
  }

  lemma LastStops()
    ensures STOP[17] == "on" && STOP[18] == "or" && STOP[19] == "the" && STOP[20] == "this" && STOP[21] == "to"
    ensures STOP[22] == "use" && STOP[23] == "we" && STOP[24] == "with"
  {
  }

  lemma {:induction false} TellingHas(words: seq<JsString>, w: JsString)
    ensures w in Telling(words) <==> w in words && |w| > 1 && !IsStop(w)
    decreases |words|
  {
    hide IsStop;
    if words != [] {
      TellingHas(words[1..], w);
      SplitAt(words, 1);
    }
  }

  /** The tokens of a text are the runs of the lowered text, trimmed and cut to 12000, that are longer than one unit
      and none of 25 small words, each once. */
  lemma TokensSpelled(s: JsString, w: JsString)
    ensures var t := Trim(s);
            w in Tokens(s) <==> Told(w) && IsRun(Lower(if |t| > 12000 then t[..12000] else t), w)
    ensures forall i, j | 0 <= i < j < |Tokens(s)| :: Tokens(s)[i] != Tokens(s)[j]
  {
    hide IsStop, Told, Telling, Pieces, Lower, IsRun, Words;
    var t := Trim(s);
    var lowered := Lower(if |t| > 12000 then t[..12000] else t);
    TextSpelled(s, 12000);
    StopSpelled(w);
    LowerOfNothing();
    PiecesAreRuns(lowered, w);
    WordsHave(Pieces(lowered), w);
    TellingHas(Pieces(lowered), w);
    if Told(w) { assert w != []; }
  }

  lemma LowerOfNothing()
    ensures Lower([]) == []
  {
  }

  // ----- scores

  /** Four for each token the intent has too, and a tenth for each unit of it up to ten. */
  function SharedScore(alias: seq<JsString>, intent: seq<JsString>): real {
    if alias == [] then 0.0
    else
      var w := alias[0];
      SharedScore(alias[1..], intent)
      + if w in intent then 4.0 + (if |w| < 10 then |w| else 10) as real / 10.0 else 0.0
  }

  function Shared(alias: seq<JsString>, intent: seq<JsString>): nat {
    if alias == [] then 0 else Shared(alias[1..], intent) + if alias[0] in intent then 1 else 0
  }

  lemma {:induction false} OverlapCounts(alias: seq<JsString>, intent: seq<JsString>)
    ensures |Overlap(alias, intent)| == Shared(alias, intent) <= |alias|
    ensures (|Overlap(alias, intent)| * 4) as real + Lengths(Overlap(alias, intent)) as real / 10.0
            == SharedScore(alias, intent)
    decreases |alias|
  {
    if alias != [] {
      OverlapCounts(alias[1..], intent);
      var rest := Overlap(alias[1..], intent);
      if alias[0] in intent { assert ([alias[0]] + rest)[1..] == rest; }
    }
  }

  /** An alias scores that, and six times the part of its tokens that the intent has; or a hundred, if it is more and
      the lowered intent is the alias. */
  lemma AliasScoreSpelled(alias: JsString, intent: JsString)
    ensures var a, b := Tokens(alias), Tokens(intent);
            var partial := SharedScore(a, b) + if a == [] then 0.0 else 6.0 * Shared(a, b) as real / |a| as real;
            AliasScore(alias, intent)
            == if Lower(intent) == alias && partial < 100.0 then 100.0 else if partial < 0.0 then 0.0 else partial
  {
    hide Tokens, Lower, SharedScore, Overlap, Lengths;
    var a, b := Tokens(alias), Tokens(intent);
    OverlapCounts(a, b);
    if a != [] { Sixfold(Shared(a, b), |a|); }
  }

  lemma Sixfold(o: nat, n: nat)
    requires n > 0
    ensures Coverage(o, n) * 6.0 == 6.0 * o as real / n as real
  {
  }

  /** A tool goes by its spaced name, its title and description in small letters, and its explicit aliases. */
  lemma AliasesSpelled(t: Tool, a: JsString)
    ensures a in Aliases(t) <==> a == SplitName(t.name) || a == Lower(t.title) || a == Lower(t.description)
                                 || a in ExplicitAliases(t.name)
  {
    hide SplitName, Lower, ExplicitAliases;
    assert a in Aliases(t)
      <==> a in [SplitName(t.name), Lower(t.title), Lower(t.description)] + ExplicitAliases(t.name);
  }

  /** Two names the tables must hold as they are: neither is ever offered. */
  lemma ExcludedSpelled(name: JsString)
    ensures Excluded(name)
            <==> name == Units("getRecoveryStartupContext") || name == Units("executeMappedRecoveryIntent")
  {
    hide Units;
  }

  // ----- keys

  /** What follows the first piece. */
  function Followed(more: seq<JsString>): JsString {
    if more == [] then []
    else if Words(more) == [] then [95]
    else [95] + Join(Words(more), 95) + if more[|more| - 1] == [] then [95] else []
  }

  lemma {:induction false} Underscores(s: JsString)
    ensures Underscored(s) == Pieces(s)[0] + Followed(Pieces(s)[1..])
    decreases |s|
  {
    hide Followed, Words, Join;
    if s == [] {
      FollowedByNothing();
      var nil: JsString := [];
      assert Pieces(s) == [nil] && [nil][1..] == [] && Underscored(s) == nil;
    } else {
      var rest, q := s[1..], Pieces(s[1..]);
      Underscores(rest);
      PiecesStart(rest);
      if IsWordUnit(s[0]) {
        assert Pieces(s)[1..] == q[1..];
        Regroup([s[0]], q[0], Followed(q[1..]));
      } else {
        assert Pieces(s)[1..] == q;
        assert Underscored(s) == Followed(q) by { SeparatorFirst(rest, q); }
      }
    }
  }

  lemma FollowedByNothing()
    ensures Followed([]) == []
  {
  }

  /** A separator before the pieces `q` of `rest`. */
  lemma SeparatorFirst(rest: JsString, q: seq<JsString>)
    requires q != [] && Head(rest, q[0]) && (q[0] == rest ==> q[1..] == []) && (|q| == 1 ==> q[0] == rest)
    ensures Followed(q)
            == if rest != [] && !Plain(rest[0]) then q[0] + Followed(q[1..]) else [95] + (q[0] + Followed(q[1..]))
  {
    hide Join, Words;
    var more, ws := q[1..], Words(q[1..]);
    FirstWord(q);
    NoMoreWords();
    if more != [] { assert more[|more| - 1] == q[|q| - 1]; }
    if ws == [] && more != [] { WordsOfBlank(more); }
    if q[0] == [] {
      Nil(Followed(more));
    } else {
      assert q[0][0] == rest[0] && Plain(q[0][0]);
      JoinFirst(q[0], ws);
      WordThenFollowed(q[0], more);
      Nil(if ws == [] then q[0] else q[0] + [95] + Join(ws, 95));
      Regroup([95], Join(Words(q), 95), if more != [] && more[|more| - 1] == [] then [95] else []);
    }
  }

  lemma {:induction false} WordsOfBlank(pieces: seq<JsString>)
    requires Words(pieces) == [] && pieces != []
    ensures pieces[|pieces| - 1] == []
    decreases |pieces|
  {
    if |pieces| > 1 { WordsOfBlank(pieces[1..]); }
  }

  lemma {:induction false} PiecesPlain(s: JsString)
    ensures forall i, k | 0 <= i < |Pieces(s)| && 0 <= k < |Pieces(s)[i]| :: Plain(Pieces(s)[i][k])
    decreases |s|
  {
    if s != [] { PiecesPlain(s[1..]); }
  }

  ghost predicate AllPlain(words: seq<JsString>) {
    forall i | 0 <= i < |words| :: words[i] != [] && forall k | 0 <= k < |words[i]| :: Plain(words[i][k])
  }

  lemma {:induction false} WordsPlain(pieces: seq<JsString>)
    requires forall i, k | 0 <= i < |pieces| && 0 <= k < |pieces[i]| :: Plain(pieces[i][k])
    ensures AllPlain(Words(pieces))
    decreases |pieces|
  {
    if pieces != [] {
      assert forall i | 0 <= i < |pieces[1..]| :: pieces[1..][i] == pieces[i + 1];
      WordsPlain(pieces[1..]);
    }
  }

  lemma {:induction false} JoinedEnds(words: seq<JsString>)
    requires words != [] && AllPlain(words)
    ensures var t := Join(words, 95); t != [] && t[0] != 95 && t[|t| - 1] != 95
    decreases |words|
  {
    assert words[0] != [] && Plain(words[0][0]) && Plain(words[0][|words[0]| - 1]);
    if |words| > 1 {
      assert AllPlain(words[1..]);
      JoinedEnds(words[1..]);
    }
  }

  lemma StripFirst(t: JsString, a: bool)
    requires t != [] && t[0] != 95
    ensures StripStart((if a then [95] else []) + t) == t
  {
    if a { assert ([95] + t)[1..] == t; } else { assert [] + t == t; }
  }

  lemma StripLast(t: JsString, b: bool)
    requires t != [] && t[|t| - 1] != 95
    ensures StripEnd(t + if b then [95] else []) == t
  {
    if b { assert (t + [95])[..|t|] == t; } else { assert t + [] == t; }
  }

  lemma StripBoth(t: JsString, a: bool, b: bool)
    requires t != [] ==> t[0] != 95 && t[|t| - 1] != 95
    requires t == [] ==> !(a && b)
    ensures StripEnd(StripStart((if a then [95] else []) + t + (if b then [95] else []))) == t
  {
    hide StripStart, StripEnd;
    if t == [] {
      OneUnderscore();
    } else {
      var before, after: JsString := if a then [95] else [], if b then [95] else [];
      Regroup(before, t, after);
      assert (t + after)[0] == t[0];
      StripFirst(t + after, a);
      StripLast(t, b);
    }
  }

  lemma OneUnderscore()
    ensures StripEnd(StripStart([] + [] + [])) == []
    ensures StripEnd(StripStart([95] + [] + [])) == [] && StripEnd(StripStart([] + [] + [95])) == []
  {
    var one: JsString := [95];
    assert one + [] + [] == one && [] + [] + one == one && one[1..] == [];
  }

  /** The key of an intent is its runs of lowered letters and digits, joined by underscores and cut to 160 units, read
      from the first 500 units of the trimmed intent; "unknown" if there is none. */
  lemma KeySpelled(s: JsString)
    ensures var text := Trim(s);
            var words := Words(Pieces(Lower(if |text| > 500 then text[..500] else text)));
            var joined := Join(words, 95);
            Key(s) == if words == [] then Units("unknown") else if |joined| > 160 then joined[..160] else joined
  {
    hide Lower, Underscored, Pieces, StripStart, StripEnd, Units, Words, Join;
    var text := Trim(s);
    TextSpelled(s, 500);
    if text == [] {
      LowerOfNothing();
      NoWords();
      SlugSpelled(Units("unknown"));
      UnknownWord();
    } else {
      SlugSpelled(Lower(if |text| > 500 then text[..500] else text));
    }
  }

  lemma NoWords()
    ensures Words(Pieces([])) == []
  {
  }

  lemma UnknownWord()
    ensures Words(Pieces(Units("unknown"))) == [Units("unknown")] && Join([Units("unknown")], 95) == Units("unknown")
    ensures |Units("unknown")| == 7
  {
    PlainWord(Units("unknown"));
  }

  lemma {:induction false} PlainWord(s: JsString)
    requires s != [] && forall i | 0 <= i < |s| :: Plain(s[i])
    ensures Pieces(s) == [s] && Words([s]) == [s]
    decreases |s|
  {
    var none: seq<JsString> := [];
    assert [s][1..] == none && Words(none) == none && [s] + none == [s];
    SplitAt(s, 1);
    assert s[..1] == [s[0]];
    if |s| > 1 {
      PlainWord(s[1..]);
      assert [s[1..]][1..] == none && [[s[0]] + s[1..]] + none == [s];
    } else {
      var nil: JsString := [];
      assert s[1..] == nil && Pieces(nil) == [nil] && [nil][1..] == none;
      assert [s[0]] + nil == s && [s] + none == [s];
    }
  }

  lemma SlugSpelled(t: JsString)
    ensures var words := Words(Pieces(t));
            StripEnd(StripStart(Underscored(t))) == Join(words, 95) && (words == [] <==> Join(words, 95) == [])
  {
    hide Underscored, StripStart, StripEnd, Pieces;
    Underscores(t);
    PiecesPlain(t);
    WordsPlain(Pieces(t));
    if Words(Pieces(t)) != [] { JoinedEnds(Words(Pieces(t))); }
    SlugOfPieces(Pieces(t));
  }

  lemma SlugOfPieces(ps: seq<JsString>)
    requires ps != [] && AllPlain(Words(ps))
    requires var t := Join(Words(ps), 95); Words(ps) != [] ==> t != [] && t[0] != 95 && t[|t| - 1] != 95
    ensures StripEnd(StripStart(ps[0] + Followed(ps[1..]))) == Join(Words(ps), 95)
  {
    hide StripStart, StripEnd, AllPlain, Followed, Join, Words;
    var more, words := ps[1..], Words(ps);
    var before, after := ps[0] == [] && more != [], more != [] && words != [] && more[|more| - 1] == [];
    JoinedPieces(ps, before, after);
    if words == [] { NothingJoined(); }
    StripBoth(Join(words, 95), before, after);
  }

  lemma NothingJoined()
    ensures Join([], 95) == []
  {
  }

  lemma JoinedPieces(ps: seq<JsString>, before: bool, after: bool)
    requires ps != []
    requires before <==> ps[0] == [] && ps[1..] != []
    requires after <==> ps[1..] != [] && Words(ps) != [] && ps[1..][|ps[1..]| - 1] == []
    ensures ps[0] + Followed(ps[1..])
            == (if before then [95] else []) + Join(Words(ps), 95) + (if after then [95] else [])
  {
    hide Join, Words;
    NothingJoined();
    FirstWord(ps);
    var more, ws := ps[1..], Words(ps[1..]);
    if ws == [] && more != [] { WordsOfBlank(more); }
    NoMoreWords();
    if ps[0] == [] {
      Nil(Followed(more));
      Nil(Join(ws, 95));
    } else {
      JoinFirst(ps[0], ws);
      WordThenFollowed(ps[0], more);
    }
  }

  lemma Nil(s: JsString)
    ensures [] + s == s && s + [] == s
  {
  }

  lemma NoMoreWords()
    ensures Words([]) == []
  {
  }

  lemma FirstWord(ps: seq<JsString>)
    requires ps != []
    ensures Words(ps) == if ps[0] == [] then Words(ps[1..]) else [ps[0]] + Words(ps[1..])
  {
  }

  lemma WordThenFollowed(w: JsString, more: seq<JsString>)
    requires Words(more) == [] && more != [] ==> more[|more| - 1] == []
    ensures var ws := Words(more);
            w + Followed(more)
            == [] + (if ws == [] then w else w + [95] + Join(ws, 95))
               + (if more != [] && more[|more| - 1] == [] then [95] else [])
  {
    hide Join, Words;
    NoMoreWords();
    var ws := Words(more);
    var last: JsString := if more != [] && more[|more| - 1] == [] then [95] else [];
    if ws == [] {
      assert Followed(more) == last;
      Nil(w);
    } else {
      var tail := Join(ws, 95);
      assert Followed(more) == [95] + tail + last;
      Nil(w + [95] + tail);
      Regroup(w, [95] + tail, last);
      Regroup(w, [95], tail);
    }
  }

  lemma JoinFirst(w: JsString, ws: seq<JsString>)
    ensures Join([w] + ws, 95) == if ws == [] then w else w + [95] + Join(ws, 95)
  {
    assert ([w] + ws)[1..] == ws;
  }

  // ----- names

  function Squeezed(s: JsString): JsString {
    if s == [] then [] else (if s[0] in {32, 45, 95} then [] else [s[0]]) + Squeezed(s[1..])
  }

  lemma {:induction false} SpacedCapitals(s: JsString)
    ensures Squeezed(SpaceCapitals(s)) == Squeezed(s)
    ensures s != [] ==> SpaceCapitals(s) != [] && SpaceCapitals(s)[0] == s[0]
    decreases |s|
  {
    if |s| > 1 {
      var rest := SpaceCapitals(s[1..]);
      SpacedCapitals(s[1..]);
      assert ([s[0]] + rest)[1..] == rest;
      if IsWordUnit(s[0]) && IsUpper(s[1]) {
        assert ([s[0], 32] + rest)[1..] == [32] + rest && ([32] + rest)[1..] == rest;
      }
    }
  }

  lemma {:induction false} SpacedDashes(s: JsString)
    ensures Squeezed(SpaceDashes(s)) == Squeezed(s)
    ensures forall i | 0 <= i < |SpaceDashes(s)| :: SpaceDashes(s)[i] !in {45, 95}
    decreases |s|
  {
    if s != [] {
      var rest := SpaceDashes(s[1..]);
      SpacedDashes(s[1..]);
      assert ([s[0]] + rest)[1..] == rest && ([32] + rest)[1..] == rest;
    }
  }

  lemma {:induction false} LowerSqueezed(s: JsString)
    ensures Squeezed(Lower(s)) == Lower(Squeezed(s))
    decreases |s|
  {
    if s != [] {
      assert Lower(s)[1..] == Lower(s[1..]);
      LowerSqueezed(s[1..]);
      var first := if s[0] in {32, 45, 95} then [] else [s[0]];
      assert Lower(first + Squeezed(s[1..])) == Lower(first) + Lower(Squeezed(s[1..]));
    }
  }

  /** A spaced name has the letters of the name, small, in order, and neither capitals nor dashes: it differs from the
      lowered name only in spaces. */
  lemma SplitNameKeepsLetters(name: JsString)
    ensures Squeezed(SplitName(name)) == Lower(Squeezed(name))
    ensures forall i | 0 <= i < |SplitName(name)| ::
              SplitName(name)[i] !in {45, 95} && !(65 <= SplitName(name)[i] <= 90)
  {
    var spaced := SpaceCapitals(name);
    SpacedCapitals(name);
    SpacedDashes(spaced);
    LowerSqueezed(SpaceDashes(spaced));
  }

  /** And the spaces stand before capitals that follow a small letter or digit, and for dashes, one for each run. */
  lemma NamesSpaced(a: CodeUnit, b: CodeUnit, c: CodeUnit)
    requires Plain(a) && 65 <= b <= 90 && Plain(c)
    ensures SplitName([a, b, c]) == [a, 32, b + 32, c]
    ensures SplitName([a, 45, 95, c]) == [a, 32, c] && SplitName([b, b, c]) == [b + 32, b + 32, c]
  {
    assert [a, b, c][1..] == [b, c] && [b, c][1..] == [c];
    assert SpaceCapitals([b, c]) == [b, c] && SpaceCapitals([a, b, c]) == [a, 32, b, c];
    assert [b, b, c][1..] == [b, c] && SpaceCapitals([b, b, c]) == [b, b, c];
    assert [a, 45, 95, c][1..] == [45, 95, c] && [45, 95, c][1..] == [95, c] && [95, c][1..] == [c];
    assert SpaceCapitals([95, c]) == [95, c] && SpaceCapitals([45, 95, c]) == [45, 95, c];
    assert SpaceCapitals([a, 45, 95, c]) == [a, 45, 95, c];
    DashesOf(a, b, c);
  }

  lemma DashesOf(a: CodeUnit, b: CodeUnit, c: CodeUnit)
    requires Plain(a) && 65 <= b <= 90 && Plain(c)
    ensures SpaceDashes([a, 32, b, c]) == [a, 32, b, c] && SpaceDashes([b, b, c]) == [b, b, c]
    ensures SpaceDashes([a, 45, 95, c]) == [a, 32, c]
  {
    assert [c][1..] == [] && SpaceDashes([c]) == [c];
    assert [b, c][1..] == [c] && SpaceDashes([b, c]) == [b, c] && [b, b, c][1..] == [b, c];
    assert [32, b, c][1..] == [b, c] && SpaceDashes([32, b, c]) == [32, b, c];
    assert [a, 32, b, c][1..] == [32, b, c];
    assert [95, c][1..] == [c] && SpaceDashes([95, c]) == [32, c];
    assert [45, 95, c][1..] == [95, c] && [a, 45, 95, c][1..] == [45, 95, c];
  }

  /** A tool named like a line of the table has the aliases of that line, and any other tool none. */
  lemma ExplicitAliasesSpelled(name: string, a: JsString)
    requires forall i | 0 <= i < |name| :: 0 < name[i] as int < 128
    ensures a in ExplicitAliases(Units(name))
            <==> name in EXPLICIT_ALIASES
                 && exists i | 0 <= i < |EXPLICIT_ALIASES[name]| :: a == Units(EXPLICIT_ALIASES[name][i])
  {
    assert AsString(Units(name)) == name;
    var xs := ExplicitAliases(Units(name));
    if name in EXPLICIT_ALIASES {
      assert forall i | 0 <= i < |EXPLICIT_ALIASES[name]| :: xs[i] == Units(EXPLICIT_ALIASES[name][i]);
    }
  }
}
