/** Batch posts: printing numbered posts and parsing them back, and parsing one text after another. */
module BatchPostTheorems {
  import opened Prelude
  import opened JsText
  import opened BatchPosts

  function TextsOf(input: JsString): seq<JsString> { Texts(Split(Normalise(input))) }

  // ----- normalising and splitting pieces

  predicate NoCrLf(s: JsString) { forall i | 0 <= i < |s| - 1 :: !(s[i] == CR && s[i + 1] == LF) }

  lemma {:induction false} NormaliseParts(a: JsString, b: JsString)
    requires a == [] || b == [] || a[|a| - 1] != CR || b[0] != LF
    ensures Normalise(a + b) == Normalise(a) + Normalise(b)
    decreases |a|
  {
    if a == [] {
      assert a + b == b;
    } else if |a| >= 2 && a[0] == CR && a[1] == LF {
      assert (a + b)[2..] == a[2..] + b;
      NormaliseParts(a[2..], b);
      Regroup([LF], Normalise(a[2..]), Normalise(b));
    } else {
      assert (a + b)[1..] == a[1..] + b;
      NormaliseParts(a[1..], b);
      Regroup([a[0]], Normalise(a[1..]), Normalise(b));
    }
  }

  lemma {:induction false} NormaliseKeeps(s: JsString)
    ensures |Normalise(s)| <= |s|
    ensures |Normalise(s)| == |s| <==> NoCrLf(s)
    ensures NoCrLf(s) ==> Normalise(s) == s
    decreases |s|
  {
    if s == [] {
    } else if |s| >= 2 && s[0] == CR && s[1] == LF {
      NormaliseKeeps(s[2..]);
    } else {
      hide NoCrLf;
      NormaliseKeeps(s[1..]);
      SplitAt(s, 1);
      NoCrLfOnwards(s);
    }
  }

  lemma NoCrLfOnwards(s: JsString)
    requires s != [] && !(|s| >= 2 && s[0] == CR && s[1] == LF)
    ensures NoCrLf(s) <==> NoCrLf(s[1..])
  {
    if NoCrLf(s[1..]) {
      forall i | 0 <= i < |s| - 1 ensures !(s[i] == CR && s[i + 1] == LF) {
        if i > 0 { assert s[1..][i - 1] == s[i] && s[1..][i] == s[i + 1]; }
      }
    } else {
      var i :| 0 <= i < |s[1..]| - 1 && s[1..][i] == CR && s[1..][i + 1] == LF;
      assert s[i + 1] == CR && s[i + 1 + 1] == LF;
    }
  }

  lemma {:induction false} SplitMeets(x: JsString, y: JsString)
    ensures Split(x + [LF] + y) == Split(x) + Split(y)
    decreases |x|
  {
    if x == [] {
      assert x + [LF] + y == [LF] + y;
    } else {
      assert (x + [LF] + y)[1..] == x[1..] + [LF] + y;
      SplitMeets(x[1..], y);
      PutFirst(x[0], Split(x[1..]), Split(y));
    }
  }

  lemma PutFirst(c: CodeUnit, first: seq<JsString>, second: seq<JsString>)
    requires first != []
    ensures [[c] + (first + second)[0]] + (first + second)[1..] == ([[c] + first[0]] + first[1..]) + second
    ensures [[]] + (first + second) == ([[]] + first) + second
  {
  }

  /** A piece without line feeds only lengthens the first line. */
  lemma {:induction false} SplitAfter(pre: JsString, s: JsString)
    requires LF !in pre
    ensures Split(pre + s) == [pre + Split(s)[0]] + Split(s)[1..]
    decreases |pre|
  {
    if pre == [] {
      assert pre + s == s && pre + Split(s)[0] == Split(s)[0];
    } else {
      assert (pre + s)[1..] == pre[1..] + s;
      SplitAfter(pre[1..], s);
      assert [pre[0]] + (pre[1..] + Split(s)[0]) == pre + Split(s)[0];
    }
  }

  lemma {:induction false} JoinSplit(s: JsString)
    ensures Join(Split(s), LF) == s
    decreases |s|
  {
    if s != [] {
      JoinSplit(s[1..]);
      var rest := Split(s[1..]);
      if s[0] == LF {
        assert Split(s)[1..] == rest;
      } else if |rest| > 1 {
        assert Split(s)[1..] == rest[1..];
        Regroup([s[0]], rest[0] + [LF], Join(rest[1..], LF));
      }
      SplitAt(s, 1);
    }
  }

  // ----- parsing one text after another

  lemma {:induction false} UnmarkedMeets(a: seq<JsString>, b: seq<JsString>)
    requires b != [] && Marker(b[0]).Some?
    ensures Unmarked(a + b) == Unmarked(a)
    decreases |a|
  {
    hide Marker;
    if a == [] {
      assert a + b == b;
    } else {
      assert (a + b)[1..] == a[1..] + b;
      UnmarkedMeets(a[1..], b);
    }
  }

  lemma {:induction false} TextsMeet(a: seq<JsString>, b: seq<JsString>)
    requires b != [] && Marker(b[0]).Some?
    ensures Texts(a + b) == Texts(a) + Texts(b)
    decreases |a|
  {
    hide Marker, Join, Trim;
    if a == [] {
      assert a + b == b;
    } else {
      assert (a + b)[1..] == a[1..] + b;
      TextsMeet(a[1..], b);
      UnmarkedMeets(a[1..], b);
      if Marker(a[0]).Some? { Regroup([Texts(a)[0]], Texts(a[1..]), Texts(b)); }
    }
  }

  predicate EndsInCr(a: JsString) { a != [] && a[|a| - 1] == CR }

  function DropCr(a: JsString): JsString { if EndsInCr(a) then a[..|a| - 1] else a }

  lemma LinesMeet(a: JsString, b: JsString)
    ensures Split(Normalise(a + [LF] + b)) == Split(Normalise(DropCr(a))) + Split(Normalise(b))
  {
    var c := DropCr(a);
    if EndsInCr(a) {
      assert a + [LF] + b == c + ([CR, LF] + b);
      NormaliseParts(c, [CR, LF] + b);
      assert ([CR, LF] + b)[2..] == b;
    } else {
      assert a + [LF] + b == c + ([LF] + b);
      NormaliseParts(c, [LF] + b);
      assert ([LF] + b)[1..] == b;
    }
    Regroup(Normalise(c), [LF], Normalise(b));
    SplitMeets(Normalise(c), Normalise(b));
  }

  function Renumbered(posts: seq<Post>, k: nat): seq<Post> {
    seq(|posts|, i requires 0 <= i < |posts| => posts[i].(index := posts[i].index + k))
  }

  lemma NumberedMeets(s: seq<JsString>, t: seq<JsString>)
    ensures Numbered(s + t) == Numbered(s) + Renumbered(Numbered(t), |Numbered(s)|)
  {
  }

  predicate StartsWithMarker(b: JsString) { Marker(Split(Normalise(b))[0]).Some? }

  lemma TextsOfMeet(a: JsString, b: JsString)
    requires StartsWithMarker(b)
    ensures TextsOf(a + [LF] + b) == TextsOf(DropCr(a)) + TextsOf(b)
  {
    LinesMeet(a, b);
    TextsMeet(Split(Normalise(DropCr(a))), Split(Normalise(b)));
  }

  /** Parsing one text after another parses both, a carriage return at the joint being part of the break. */
  lemma ParsingOneAfterAnother(a: JsString, b: JsString)
    requires StartsWithMarker(b)
    ensures Parse(a + [LF] + b) == Parse(DropCr(a)) + Renumbered(Parse(b), |Parse(DropCr(a))|)
  {
    TextsOfMeet(a, b);
    NumberedMeets(TextsOf(DropCr(a)), TextsOf(b));
  }

  // ----- when that carriage return matters

  lemma {:induction false} TrimStartThenCr(s: JsString)
    ensures TrimStart(s + [CR]) == if TrimStart(s) == [] then [] else TrimStart(s) + [CR]
    decreases |s|
  {
    if s == [] {
      assert s + [CR] == [CR] && [CR][1..] == [];
    } else {
      assert (s + [CR])[1..] == s[1..] + [CR];
      if IsSpace(s[0]) { TrimStartThenCr(s[1..]); }
    }
  }

  lemma TrimDropsCr(s: JsString)
    ensures Trim(s + [CR]) == Trim(s)
  {
    TrimStartThenCr(s);
    var t := TrimStart(s);
    assert (t + [CR])[..|t|] == t;
  }

  lemma {:induction false} SkipDigitsThenCr(s: JsString)
    ensures SkipDigits(s + [CR]) == SkipDigits(s) + [CR]
    ensures |SkipDigits(s)| <= |s|
    decreases |s|
  {
    if s == [] {
      assert s + [CR] == [CR];
    } else {
      assert (s + [CR])[1..] == s[1..] + [CR];
      if IsDigit(s[0]) { SkipDigitsThenCr(s[1..]); }
    }
  }

  /** With a carriage return at its end a marker line is one only if nothing else follows its point. */
  lemma MarkerThenCr(x: JsString)
    requires Marker(x + [CR]).Some?
    ensures Marker(x + [CR]) == Some([]) && Marker(x) == Some([])
  {
    TrimStartThenCr(x);
    var number := TrimStart(x);
    SkipDigitsThenCr(number);
    var point := SkipDigits(number);
    assert point != [];
    var rest := point[1..];
    assert (point + [CR])[1..] == rest + [CR];
    if rest != [] { CrIsCaptured(rest); }
  }

  lemma CrIsCaptured(rest: JsString)
    requires rest != []
    ensures var r := rest + [CR]; !OneLine(if IsSpace(r[0]) then r[1..] else r)
  {
    var r := rest + [CR];
    assert r[|rest|] == CR && r[1..][|rest| - 1] == CR;
  }

  lemma {:induction false} SplitThenCr(x: JsString)
    ensures var lines := Split(x);
            Split(x + [CR]) == lines[..|lines| - 1] + [lines[|lines| - 1] + [CR]]
    decreases |x|
  {
    if x == [] {
      assert x + [CR] == [CR] && [CR][1..] == [];
      var nil: JsString := [];
      assert [nil][1..] == [] && [CR] + nil == [CR] && nil + [CR] == [CR] && [nil][..0] == [];
      assert Split([CR]) == [[CR]];
      assert Split(x) == [nil];
    } else {
      assert (x + [CR])[1..] == x[1..] + [CR];
      SplitThenCr(x[1..]);
      var rest := Split(x[1..]);
      if x[0] == LF {
        assert ([[]] + rest)[..|rest|] == [[]] + rest[..|rest| - 1];
      } else if |rest| == 1 {
        assert rest[1..] == [];
        assert Split(x) == [[x[0]] + rest[0]];
        Regroup([x[0]], rest[0], [CR]);
      } else {
        assert ([[x[0]] + rest[0]] + rest[1..])[..|rest| - 1] == [[x[0]] + rest[0]] + rest[1..][..|rest| - 2];
      }
    }
  }

  lemma {:induction false} JoinThenCr(lines: seq<JsString>, x: JsString)
    ensures Join(lines + [x + [CR]], LF) == Join(lines + [x], LF) + [CR]
    decreases |lines|
  {
    if lines != [] {
      JoinThenCr(lines[1..], x);
      assert (lines + [x + [CR]])[1..] == lines[1..] + [x + [CR]];
      assert (lines + [x])[1..] == lines[1..] + [x];
      Regroup(lines[0] + [LF], Join(lines[1..] + [x], LF), [CR]);
    } else {
      assert lines + [x + [CR]] == [x + [CR]] && lines + [x] == [x];
    }
  }

  lemma {:induction false} UnmarkedThenCr(lines: seq<JsString>, x: JsString)
    requires Marker(x).Some? <==> Marker(x + [CR]).Some?
    ensures var u, v := Unmarked(lines + [x]), Unmarked(lines + [x + [CR]]);
            u == v || (u != [] && u[|u| - 1] == x && v == u[..|u| - 1] + [x + [CR]])
    decreases |lines|
  {
    hide Marker;
    if lines == [] {
      assert lines + [x] == [x] && lines + [x + [CR]] == [x + [CR]];
      assert [x][1..] == [] && [x + [CR]][1..] == [];
    } else {
      UnmarkedThenCr(lines[1..], x);
      assert (lines + [x])[1..] == lines[1..] + [x];
      assert (lines + [x + [CR]])[1..] == lines[1..] + [x + [CR]];
      var u := Unmarked(lines[1..] + [x]);
      if u != [] { assert ([lines[0]] + u)[..|u|] == [lines[0]] + u[..|u| - 1]; }
    }
  }

  lemma {:induction false} TextsThenCr(lines: seq<JsString>, x: JsString)
    requires Marker(x).Some? <==> Marker(x + [CR]).Some?
    ensures Texts(lines + [x]) == Texts(lines + [x + [CR]])
    decreases |lines|
  {
    hide Marker, Trim, Join;
    if lines == [] {
      assert lines + [x] == [x] && lines + [x + [CR]] == [x + [CR]];
      assert [x][1..] == [] && [x + [CR]][1..] == [];
      if Marker(x).Some? { MarkerThenCr(x); }
    } else {
      assert (lines + [x])[1..] == lines[1..] + [x];
      assert (lines + [x + [CR]])[1..] == lines[1..] + [x + [CR]];
      TextsThenCr(lines[1..], x);
      if Marker(lines[0]).Some? { PostThenCr(Marker(lines[0]).value, lines[1..], x); }
    }
  }

  lemma PostThenCr(body: JsString, lines: seq<JsString>, x: JsString)
    requires Marker(x).Some? <==> Marker(x + [CR]).Some?
    ensures Trim(Join([body] + Unmarked(lines + [x]), LF)) == Trim(Join([body] + Unmarked(lines + [x + [CR]]), LF))
  {
    hide Marker, Unmarked, Join, Trim;
    UnmarkedThenCr(lines, x);
    var u, v := Unmarked(lines + [x]), Unmarked(lines + [x + [CR]]);
    if u != v {
      var before := [body] + u[..|u| - 1];
      assert [body] + u == before + [x] && [body] + v == before + [x + [CR]];
      JoinThenCr(before, x);
      TrimDropsCr(Join(before + [x], LF));
    }
  }

  lemma {:induction false} OneTextFewer(lines: seq<JsString>, x: JsString)
    requires Marker(x).Some? && Marker(x + [CR]).None?
    ensures |Texts(lines + [x])| == |Texts(lines + [x + [CR]])| + 1
    decreases |lines|
  {
    hide Marker, Trim, Join, Unmarked;
    if lines == [] {
      assert lines + [x] == [x] && lines + [x + [CR]] == [x + [CR]];
      assert [x][1..] == [] && [x + [CR]][1..] == [];
    } else {
      assert (lines + [x])[1..] == lines[1..] + [x];
      assert (lines + [x + [CR]])[1..] == lines[1..] + [x + [CR]];
      OneTextFewer(lines[1..], x);
    }
  }

  function LastLine(s: JsString): JsString { var lines := Split(Normalise(s)); lines[|lines| - 1] }

  /** The last line is a marker only without the carriage return at its end. */
  predicate CutMarker(a: JsString) {
    EndsInCr(a) && Marker(LastLine(DropCr(a))).Some? && Marker(LastLine(a)).None?
  }

  lemma WithoutCr(a: JsString)
    ensures |TextsOf(DropCr(a))| == |TextsOf(a)| + if CutMarker(a) then 1 else 0
    ensures !CutMarker(a) ==> TextsOf(DropCr(a)) == TextsOf(a)
  {
    if EndsInCr(a) {
      hide Marker, Texts, Split, Normalise;
      var c := DropCr(a);
      assert a == c + [CR];
      NormaliseParts(c, [CR]);
      NormaliseOfCr();
      SplitThenCr(Normalise(c));
      var lines := Split(Normalise(c));
      var before, x := lines[..|lines| - 1], lines[|lines| - 1];
      assert lines == before + [x];
      if CutMarker(a) {
        OneTextFewer(before, x);
      } else {
        if Marker(x + [CR]).Some? { MarkerThenCr(x); }
        TextsThenCr(before, x);
      }
    }
  }

  lemma NormaliseOfCr()
    ensures Normalise([CR]) == [CR]
  {
    assert [CR][1..] == [];
  }

  /** Parsing one text after another is parsing each exactly when no carriage return spoils a marker
      at the joint. */
  lemma PlainConcatenationExactly(a: JsString, b: JsString)
    requires StartsWithMarker(b)
    ensures Parse(a + [LF] + b) == Parse(a) + Renumbered(Parse(b), |Parse(a)|) <==> !CutMarker(a)
  {
    hide TextsOf, CutMarker, Numbered, Renumbered;
    TextsOfMeet(a, b);
    WithoutCr(a);
    ParseIsTexts(a);
    ParseIsTexts(b);
    ParseIsTexts(a + [LF] + b);
    NumberedMeets(TextsOf(a), TextsOf(b));
    NumberedLength(TextsOf(a) + TextsOf(b));
    NumberedLength(TextsOf(DropCr(a)) + TextsOf(b));
  }

  lemma ParseIsTexts(s: JsString)
    ensures Parse(s) == Numbered(TextsOf(s))
  {
  }

  lemma NumberedLength(t: seq<JsString>)
    ensures |Numbered(t)| == |t|
  {
  }
}
