/** Printing texts as numbered posts, and exactly which texts parsing gives back. */
module BatchPostPrinting {
  import opened Prelude
  import opened JsText
  import opened BatchPosts
  import opened BatchPostTheorems

  function Heading(k: nat): JsString { Decimal(k) + [POINT, SPACE] }

  /** "1. ...", "2. ..." and so on, a line break between any two. */
  function Print(texts: seq<JsString>): JsString {
    if texts == [] then []
    else
      var n := |texts|;
      var item := Heading(n) + texts[n - 1];
      if n == 1 then item else Print(texts[..n - 1]) + [LF] + item
  }

  /** No later line begins like a post, and the first line is a line. */
  predicate Printable(t: JsString) {
    && Trimmed(t) && NoCrLf(t) && OneLine(Split(t)[0])
    && forall i | 1 <= i < |Split(t)| :: Marker(Split(t)[i]).None?
  }

  // ----- the lines of a print

  function ItemLines(k: nat, t: JsString): seq<JsString> {
    var lines := Split(Normalise(t));
    [Heading(k) + lines[0]] + lines[1..]
  }

  function PrintLines(texts: seq<JsString>): seq<JsString> {
    if texts == [] then []
    else PrintLines(texts[..|texts| - 1]) + ItemLines(|texts|, texts[|texts| - 1])
  }

  lemma HeadingShape(k: nat)
    ensures |Heading(k)| > 0 && LF !in Heading(k) && NoCrLf(Heading(k)) && Heading(k)[|Heading(k)| - 1] == SPACE
  {
    DecimalShape(k);
  }

  lemma ItemSplit(k: nat, t: JsString)
    ensures Split(Normalise(Heading(k) + t)) == ItemLines(k, t)
  {
    hide Heading, Split, Normalise, NoCrLf;
    HeadingShape(k);
    NormaliseParts(Heading(k), t);
    NormaliseKeeps(Heading(k));
    SplitAfter(Heading(k), Normalise(t));
  }

  predicate AllTrimmed(texts: seq<JsString>) { forall i | 0 <= i < |texts| :: Trimmed(texts[i]) }

  lemma {:induction false} PrintEnd(texts: seq<JsString>)
    requires texts != [] && Trimmed(texts[|texts| - 1])
    ensures !EndsInCr(Print(texts))
  {
    hide Heading, NoCrLf, IsSpace;
    var n := |texts|;
    var t := texts[n - 1];
    HeadingShape(n);
    if t == [] { assert Heading(n) + t == Heading(n); } else { SpacesSpelled(); LastOf(Heading(n), t); }
    assert |Heading(n) + t| >= |Heading(n)| > 0;
    if n > 1 { LastOf(Print(texts[..n - 1]) + [LF], Heading(n) + t); }
  }

  lemma SpacesSpelled()
    ensures IsSpace(CR)
  {
  }

  lemma LastOf(a: JsString, b: JsString)
    requires b != []
    ensures (a + b)[|a + b| - 1] == b[|b| - 1]
  {
  }

  lemma {:induction false} PrintSplit(texts: seq<JsString>)
    requires texts != [] && AllTrimmed(texts)
    ensures Split(Normalise(Print(texts))) == PrintLines(texts)
    decreases |texts|
  {
    hide Heading, Split, Normalise, Trimmed, ItemLines;
    var n := |texts|;
    var front, t := texts[..n - 1], texts[n - 1];
    ItemSplit(n, t);
    if n == 1 {
      assert PrintLines(front) == [];
    } else {
      PrintSplit(front);
      PrintEnd(front);
      LinesMeet(Print(front), Heading(n) + t);
    }
  }

  lemma PrintTexts(texts: seq<JsString>)
    requires AllTrimmed(texts)
    ensures TextsOf(Print(texts)) == Texts(PrintLines(texts))
  {
    if texts == [] {
      var nil: JsString := [];
      assert Split(Normalise(nil)) == [nil] && [nil][1..] == [];
      assert Marker(nil).None?;
    } else {
      PrintSplit(texts);
    }
  }

  // ----- ink: what is not white space is never lost

  function Ink(s: JsString): nat {
    if s == [] then 0 else Ink(s[..|s| - 1]) + if IsSpace(s[|s| - 1]) then 0 else 1
  }

  lemma {:induction false} InkAdds(a: JsString, b: JsString)
    ensures Ink(a + b) == Ink(a) + Ink(b)
    decreases |b|
  {
    if b == [] {
      assert a + b == a;
    } else {
      assert (a + b)[..|a + b| - 1] == a + b[..|b| - 1];
      InkAdds(a, b[..|b| - 1]);
    }
  }

  lemma InkOfOne(c: CodeUnit)
    ensures Ink([c]) == if IsSpace(c) then 0 else 1
  {
    assert [c][..0] == [];
  }

  lemma InkOfFirst(s: JsString)
    requires s != []
    ensures Ink(s) == (if IsSpace(s[0]) then 0 else 1) + Ink(s[1..])
  {
    SplitAt(s, 1);
    assert s[..1] == [s[0]];
    InkAdds([s[0]], s[1..]);
    InkOfOne(s[0]);
  }

  lemma {:induction false} InkOfTrimStart(s: JsString)
    ensures Ink(TrimStart(s)) == Ink(s)
    decreases |s|
  {
    if s != [] && IsSpace(s[0]) {
      InkOfTrimStart(s[1..]);
      InkOfFirst(s);
    }
  }

  lemma {:induction false} InkOfTrimEnd(s: JsString)
    ensures Ink(TrimEnd(s)) == Ink(s)
    decreases |s|
  {
    if s != [] && IsSpace(s[|s| - 1]) { InkOfTrimEnd(s[..|s| - 1]); }
  }

  lemma InkOfTrim(s: JsString)
    ensures Ink(Trim(s)) == Ink(s)
  {
    InkOfTrimStart(s);
    InkOfTrimEnd(TrimStart(s));
  }

  lemma {:induction false} InkOfNormalise(s: JsString)
    ensures Ink(Normalise(s)) == Ink(s)
    decreases |s|
  {
    if s != [] {
      InkOfFirst(s);
      if |s| >= 2 && s[0] == CR && s[1] == LF {
        InkOfFirst(s[1..]);
        assert s[1..][1..] == s[2..];
        InkOfNormalise(s[2..]);
        InkAdds([LF], Normalise(s[2..]));
        InkOfOne(LF);
      } else {
        InkOfNormalise(s[1..]);
        InkAdds([s[0]], Normalise(s[1..]));
        InkOfOne(s[0]);
      }
    }
  }

  function InkOf(lines: seq<JsString>): nat { if lines == [] then 0 else Ink(lines[0]) + InkOf(lines[1..]) }

  lemma {:induction false} InkOfAdds(a: seq<JsString>, b: seq<JsString>)
    ensures InkOf(a + b) == InkOf(a) + InkOf(b)
    decreases |a|
  {
    hide Ink;
    if a == [] {
      assert a + b == b;
    } else {
      assert (a + b)[1..] == a[1..] + b;
      InkOfAdds(a[1..], b);
    }
  }

  lemma {:induction false} InkOfJoin(lines: seq<JsString>)
    requires lines != []
    ensures Ink(Join(lines, LF)) == InkOf(lines)
    decreases |lines|
  {
    hide Ink;
    if |lines| == 1 {
      assert lines[1..] == [];
    } else {
      InkOfJoin(lines[1..]);
      InkAdds(lines[0], [LF]);
      InkOfOne(LF);
      InkAdds(lines[0] + [LF], Join(lines[1..], LF));
    }
  }

  lemma InkOfSplit(s: JsString)
    ensures InkOf(Split(s)) == Ink(s)
  {
    hide Ink, InkOf, Split, Join;
    JoinSplit(s);
    InkOfJoin(Split(s));
  }

  lemma {:induction false} InkOfSkipDigits(s: JsString)
    ensures |SkipDigits(s)| <= |s|
    ensures Ink(s) >= Ink(SkipDigits(s)) + if |SkipDigits(s)| < |s| then 1 else 0
    decreases |s|
  {
    if s != [] && IsDigit(s[0]) {
      InkOfSkipDigits(s[1..]);
      InkOfFirst(s);
    }
  }

  /** A marker is at least a digit and a point. */
  lemma InkOfMarker(line: JsString)
    requires Marker(line).Some?
    ensures Ink(Marker(line).value) + 2 <= Ink(line)
  {
    hide Ink;
    InkOfTrimStart(line);
    InkOfSkipDigits(TrimStart(line));
    var point := SkipDigits(TrimStart(line));
    InkOfFirst(point);
    if point[1..] != [] { InkOfFirst(point[1..]); }
  }

  lemma InkOfHeading(k: nat)
    ensures Ink(Heading(k)) >= 2
  {
    DecimalShape(k);
    var d := Decimal(k);
    assert Heading(k)[0] == d[0] && Heading(k)[1..] == d[1..] + [POINT, SPACE];
    InkOfFirst(Heading(k));
    InkAdds(d[1..], [POINT, SPACE]);
    InkOfFirst([POINT, SPACE]);
  }

  lemma InkOfItem(k: nat, t: JsString)
    ensures InkOf(ItemLines(k, t)) == Ink(Heading(k)) + Ink(t)
    ensures InkOf(Split(Normalise(t))[1..]) <= Ink(t)
  {
    hide Ink, Heading, Split, Normalise;
    InkOfNormalise(t);
    InkOfSplit(Normalise(t));
    var lines := Split(Normalise(t));
    InkAdds(Heading(k), lines[0]);
    assert ItemLines(k, t)[1..] == lines[1..];
  }

  // ----- the last post

  predicate Unnumbered(lines: seq<JsString>) { forall i | 0 <= i < |lines| :: Marker(lines[i]).None? }

  lemma {:induction false} UnnumberedGivesNothing(lines: seq<JsString>)
    ensures Texts(lines) == [] <==> Unnumbered(lines)
    ensures Unnumbered(lines) ==> Unmarked(lines) == lines
    decreases |lines|
  {
    hide Marker, Trim, Join;
    if lines != [] {
      UnnumberedGivesNothing(lines[1..]);
      SplitAt(lines, 1);
      if Unnumbered(lines) {
        assert forall i | 0 <= i < |lines[1..]| :: lines[1..][i] == lines[i + 1];
      } else if Marker(lines[0]).None? {
        var i :| 0 <= i < |lines| && Marker(lines[i]).Some?;
        assert lines[1..][i - 1] == lines[i];
      }
    }
  }

  lemma {:induction false} UnmarkedInk(lines: seq<JsString>)
    ensures InkOf(Unmarked(lines)) <= InkOf(lines)
    decreases |lines|
  {
    hide Marker, Ink;
    if lines != [] {
      UnmarkedInk(lines[1..]);
      if Marker(lines[0]).None? {
        assert Unmarked(lines)[1..] == Unmarked(lines[1..]);
      }
    }
  }

  lemma PostInk(body: JsString, rest: seq<JsString>)
    ensures Ink(Trim(Join([body] + rest, LF))) == Ink(body) + InkOf(rest)
  {
    hide Ink, Trim, Join;
    InkOfTrim(Join([body] + rest, LF));
    InkOfJoin([body] + rest);
    assert ([body] + rest)[1..] == rest;
  }

  /** The last post has less ink than the lines it came from. */
  lemma {:induction false} LastPostInk(lines: seq<JsString>)
    requires Texts(lines) != []
    ensures var texts := Texts(lines); Ink(texts[|texts| - 1]) + 2 <= InkOf(lines)
    decreases |lines|
  {
    hide Marker, Ink, Trim, Join;
    if Texts(lines[1..]) != [] {
      LastPostInk(lines[1..]);
    } else {
      PostInk(Marker(lines[0]).value, Unmarked(lines[1..]));
      UnmarkedInk(lines[1..]);
      InkOfMarker(lines[0]);
    }
  }

  lemma {:induction false} LastPostIsLast(a: seq<JsString>, b: seq<JsString>)
    requires Texts(b) != []
    ensures var all := Texts(a + b);
            all != [] && all[|all| - 1] == Texts(b)[|Texts(b)| - 1]
    decreases |a|
  {
    hide Marker, Trim, Join, Unmarked;
    if a == [] {
      assert a + b == b;
    } else {
      assert (a + b)[1..] == a[1..] + b;
      LastPostIsLast(a[1..], b);
    }
  }

  /** Lines without any marker all go to the post before them. */
  lemma {:induction false} LastPostTakesAll(a: seq<JsString>, b: seq<JsString>)
    requires Unnumbered(b) && Texts(a + b) != []
    ensures var all := Texts(a + b); Ink(all[|all| - 1]) >= InkOf(b)
    decreases |a|
  {
    hide Marker, Ink, Trim, Join;
    if a == [] {
      assert a + b == b;
      UnnumberedGivesNothing(b);
    } else {
      var tail := a[1..] + b;
      assert (a + b)[1..] == tail;
      if Texts(tail) != [] {
        LastPostTakesAll(a[1..], b);
      } else {
        UnnumberedGivesNothing(tail);
        PostInk(Marker(a[0]).value, tail);
        InkOfAdds(a[1..], b);
      }
    }
  }

  // ----- the round trip

  lemma {:induction false} DigitsSkipped(d: JsString, s: JsString)
    requires forall i | 0 <= i < |d| :: IsDigit(d[i])
    requires s != [] && !IsDigit(s[0])
    ensures SkipDigits(d + s) == s
    decreases |d|
  {
    if d == [] {
      assert d + s == s;
    } else {
      assert (d + s)[1..] == d[1..] + s;
      DigitsSkipped(d[1..], s);
    }
  }

  lemma HeadingMarks(k: nat, line: JsString)
    ensures Marker(Heading(k) + line) == if OneLine(line) then Some(line) else None
  {
    DecimalShape(k);
    var d, s := Decimal(k), [POINT, SPACE] + line;
    Regroup(d, [POINT, SPACE], line);
    DigitsSkipped(d, s);
    assert (d + s)[0] == d[0];
    assert s[1..] == [SPACE] + line && ([SPACE] + line)[1..] == line;
  }

  /** A numbered item with no later marker is one post, whose text is the item's exactly if it was
      trimmed and had no carriage return before a line feed. */
  lemma ItemPost(k: nat, t: JsString)
    requires Trimmed(t)
    requires OneLine(Split(Normalise(t))[0]) && Unnumbered(Split(Normalise(t))[1..])
    ensures Texts(ItemLines(k, t)) == [Trim(Normalise(t))]
    ensures Trim(Normalise(t)) == t <==> Printable(t)
  {
    hide Marker, Heading, Trim, Split, Normalise, Join, OneLine, Trimmed;
    var lines := Split(Normalise(t));
    HeadingMarks(k, lines[0]);
    UnnumberedGivesNothing(lines[1..]);
    assert ItemLines(k, t)[1..] == lines[1..];
    assert [lines[0]] + lines[1..] == lines;
    JoinSplit(Normalise(t));
    NormaliseKeeps(t);
    TrimShortens(Normalise(t));
    if NoCrLf(t) {
      TrimFixesTrimmed(t);
      forall i | 1 <= i < |lines| ensures Marker(lines[i]).None? {
        assert lines[1..][i - 1] == lines[i];
      }
    }
  }

  lemma TrimShortens(s: JsString)
    ensures |Trim(s)| <= |s|
  {
    TrimStartShape(s);
    TrimEndShape(TrimStart(s));
  }

  lemma PrintableItem(t: JsString)
    requires Printable(t)
    ensures OneLine(Split(Normalise(t))[0]) && Unnumbered(Split(Normalise(t))[1..])
  {
    hide Marker, Split, OneLine, Trimmed, Normalise;
    NormaliseKeeps(t);
  }

  /** An item that is not one post leaves a last post with another amount of ink. */
  lemma SpoiltItem(before: seq<JsString>, k: nat, t: JsString)
    requires !(OneLine(Split(Normalise(t))[0]) && Unnumbered(Split(Normalise(t))[1..]))
    ensures var all := Texts(before + ItemLines(k, t)); all == [] || all[|all| - 1] != t
  {
    hide Marker, Heading, Split, Normalise, OneLine, Ink, InkOf, Texts;
    var lines, item := Split(Normalise(t)), ItemLines(k, t);
    assert item[1..] == lines[1..] && [item[0]] + item[1..] == item;
    HeadingMarks(k, lines[0]);
    UnnumberedGivesNothing(lines[1..]);
    UnnumberedGivesNothing(item);
    InkOfItem(k, t);
    InkOfHeading(k);
    if Texts(lines[1..]) != [] {
      assert before + item == (before + [item[0]]) + lines[1..];
      LastPostIsLast(before + [item[0]], lines[1..]);
      LastPostInk(lines[1..]);
    } else {
      assert forall i | 1 <= i < |item| :: item[i] == lines[1..][i - 1];
      assert Unnumbered(item);
      if Texts(before + item) != [] { LastPostTakesAll(before, item); }
    }
  }

  predicate AllPrintable(texts: seq<JsString>) { forall i | 0 <= i < |texts| :: Printable(texts[i]) }

  lemma OneMorePrintable(front: seq<JsString>, t: JsString)
    ensures AllPrintable(front + [t]) <==> AllPrintable(front) && Printable(t)
  {
    hide Printable;
    var texts := front + [t];
    assert texts[|front|] == t && forall i | 0 <= i < |front| :: texts[i] == front[i];
  }

  lemma {:induction false} LinesBackExactly(texts: seq<JsString>)
    requires AllTrimmed(texts)
    ensures Texts(PrintLines(texts)) == texts <==> AllPrintable(texts)
    decreases |texts|
  {
    if texts != [] {
      hide Printable, Trimmed, ItemLines, Texts, OneLine, Split, Normalise, Unnumbered, Trim, Marker;
      var n := |texts|;
      var front, t := texts[..n - 1], texts[n - 1];
      var before := PrintLines(front);
      LinesBackExactly(front);
      assert texts == front + [t];
      if OneLine(Split(Normalise(t))[0]) && Unnumbered(Split(Normalise(t))[1..]) {
        ItemPost(n, t);
        ItemStarts(n, t);
        TextsMeet(before, ItemLines(n, t));
        OneMorePrintable(front, t);
      } else {
        SpoiltItem(before, n, t);
        if Printable(t) { PrintableItem(t); }
      }
    }
  }

  lemma ItemStarts(k: nat, t: JsString)
    requires OneLine(Split(Normalise(t))[0])
    ensures Marker(ItemLines(k, t)[0]).Some?
  {
    hide Marker, Heading, OneLine, Split, Normalise;
    HeadingMarks(k, Split(Normalise(t))[0]);
  }

  lemma {:induction false} TextsAreTrimmed(lines: seq<JsString>)
    ensures AllTrimmed(Texts(lines))
    decreases |lines|
  {
    hide Marker, Join, Unmarked, Trim, Trimmed;
    if lines != [] {
      TextsAreTrimmed(lines[1..]);
      if Marker(lines[0]).Some? {
        TrimFixesTrimmed(Join([Marker(lines[0]).value] + Unmarked(lines[1..]), LF));
      }
    }
  }

  /** Printing any texts and parsing the result gives the same texts, numbered from 1 and flagged when
      empty, exactly when each text is trimmed, has no carriage return before a line feed, has a first
      line free of other line terminators, and has no later line that looks like a marker. */
  lemma PrintedPostsComeBackExactly(texts: seq<JsString>)
    ensures Parse(Print(texts)) == Numbered(texts) <==> AllPrintable(texts)
  {
    hide Print, Printable, Texts, Split, Normalise;
    if Parse(Print(texts)) == Numbered(texts) {
      NumberedDetermines(TextsOf(Print(texts)), texts);
      TextsAreTrimmed(Split(Normalise(Print(texts))));
      PrintTexts(texts);
      LinesBackExactly(texts);
    }
    if AllPrintable(texts) {
      forall i | 0 <= i < |texts| ensures Trimmed(texts[i]) { PrintableIsTrimmed(texts[i]); }
      PrintTexts(texts);
      LinesBackExactly(texts);
    }
  }

  lemma PrintableIsTrimmed(t: JsString)
    requires Printable(t)
    ensures Trimmed(t)
  {
  }

  lemma NumberedDetermines(s: seq<JsString>, t: seq<JsString>)
    requires Numbered(s) == Numbered(t)
    ensures s == t
  {
    assert |s| == |Numbered(s)| && |t| == |Numbered(t)|;
    forall i | 0 <= i < |s| ensures s[i] == t[i] { assert Numbered(s)[i].text == Numbered(t)[i].text; }
  }

  // ----- the marker pattern as a pattern

  predicate AllSpace(s: JsString) { forall i | 0 <= i < |s| :: s[i] as int in BLANKS }

  predicate AllDigits(s: JsString) { forall i | 0 <= i < |s| :: s[i] in {48, 49, 50, 51, 52, 53, 54, 55, 56, 57} }

  /** White space, at least one digit, a point or bracket, at most one white space taken if there is any,
      and the rest of the line. */
  predicate Fits(line: JsString, space: JsString, digits: JsString, mark: CodeUnit, gap: JsString, text: JsString) {
    && line == space + digits + [mark] + gap + text
    && AllSpace(space) && digits != [] && AllDigits(digits) && (mark == 46 || mark == 41)
    && |gap| <= 1 && AllSpace(gap) && (gap == [] && text != [] ==> text[0] as int !in BLANKS)
    && forall i | 0 <= i < |text| :: text[i] !in {10, 13, 0x2028, 0x2029}
  }

  lemma {:induction false} TrimStartSplits(s: JsString) returns (space: JsString)
    ensures AllSpace(space) && s == space + TrimStart(s)
    decreases |s|
  {
    if s != [] && IsSpace(s[0]) {
      BlankSpelled(s[0]);
      var rest := TrimStartSplits(s[1..]);
      space := [s[0]] + rest;
      SplitAt(s, 1);
      Regroup([s[0]], rest, TrimStart(s[1..]));
    } else {
      space := [];
    }
  }

  lemma {:induction false} SkipDigitsSplits(s: JsString) returns (digits: JsString)
    ensures AllDigits(digits) && s == digits + SkipDigits(s)
    decreases |s|
  {
    if s != [] && IsDigit(s[0]) {
      var rest := SkipDigitsSplits(s[1..]);
      digits := [s[0]] + rest;
      SplitAt(s, 1);
      Regroup([s[0]], rest, SkipDigits(s[1..]));
    } else {
      digits := [];
    }
  }

  lemma {:induction false} SpaceSkipped(space: JsString, s: JsString)
    requires AllSpace(space) && s != [] && !IsSpace(s[0])
    ensures TrimStart(space + s) == s
    decreases |space|
  {
    if space == [] {
      assert space + s == s;
    } else {
      BlankSpelled(space[0]);
      assert (space + s)[1..] == space[1..] + s;
      SpaceSkipped(space[1..], s);
    }
  }

  lemma MarkedLineFits(line: JsString)
    requires Marker(line).Some?
    ensures exists space, digits, mark, gap :: Fits(line, space, digits, mark, gap, Marker(line).value)
  {
    hide TrimStart, SkipDigits;
    var space := TrimStartSplits(line);
    var digits := SkipDigitsSplits(TrimStart(line));
    var point, text := SkipDigits(TrimStart(line)), Marker(line).value;
    var gap := if point[1..] != [] && IsSpace(point[1]) then [point[1]] else [];
    if point[1..] != [] { BlankSpelled(point[1]); }
    assert point == [point[0]] + gap + text;
    assert line == space + digits + [point[0]] + gap + text;
    assert Fits(line, space, digits, point[0], gap, text);
  }

  /** The parser captures a text exactly where the pattern does. */
  lemma MarkerIsThePattern(line: JsString, text: JsString)
    ensures Marker(line) == Some(text)
            <==> exists space, digits, mark, gap :: Fits(line, space, digits, mark, gap, text)
  {
    hide Marker, Fits;
    if Marker(line).Some? { MarkedLineFits(line); }
    forall space, digits, mark, gap | Fits(line, space, digits, mark, gap, text) ensures Marker(line) == Some(text) {
      FittingLineMarks(line, space, digits, mark, gap, text);
    }
  }

  lemma FittingLineMarks(line: JsString, space: JsString, digits: JsString, mark: CodeUnit, gap: JsString,
                         text: JsString)
    requires Fits(line, space, digits, mark, gap, text)
    ensures Marker(line) == Some(text)
  {
    var point := [mark] + gap + text;
    if gap != [] { BlankSpelled(gap[0]); } else if text != [] { BlankSpelled(text[0]); }
    assert line == space + (digits + point);
    assert (digits + point)[0] == digits[0];
    SpaceSkipped(space, digits + point);
    DigitsSkipped(digits, point);
    assert point[1..] == gap + text;
    if gap == [] { assert gap + text == text; } else { assert (gap + text)[0] == gap[0] && (gap + text)[1..] == text; }
  }
}
