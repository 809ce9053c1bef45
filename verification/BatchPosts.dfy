/** Numbered batch posts: lines that start with a number and a point or bracket begin a new post. */
module BatchPosts {
  import opened Prelude
  import opened JsText

  const LF: CodeUnit := 10
  const CR: CodeUnit := 13
  const SPACE: CodeUnit := 32
  const BRACKET: CodeUnit := 41
  const POINT: CodeUnit := 46

  /** Counted from 1. */
  datatype Post = Post(index: nat, text: JsString, isEmpty: bool)

  // ----- lines

  function Normalise(s: JsString): JsString {
    if s == [] then []
    else if |s| >= 2 && s[0] == CR && s[1] == LF then [LF] + Normalise(s[2..])
    else [s[0]] + Normalise(s[1..])
  }

  function Split(s: JsString): (lines: seq<JsString>)
    ensures |lines| >= 1
  {
    if s == [] then [[]]
    else
      var rest := Split(s[1..]);
      if s[0] == LF then [[]] + rest else [[s[0]] + rest[0]] + rest[1..]
  }

  // ----- the marker pattern

  predicate EndsLine(c: CodeUnit) { c == LF || c == CR || c == 0x2028 || c == 0x2029 }

  function SkipDigits(s: JsString): JsString { if s != [] && IsDigit(s[0]) then SkipDigits(s[1..]) else s }

  predicate OneLine(s: JsString) { forall i | 0 <= i < |s| :: !EndsLine(s[i]) }

  /** What the pattern captures: white space, digits, a point or bracket and at most one white space
      are dropped, and no line terminator may follow. */
  function Marker(line: JsString): Option<JsString> {
    var number := TrimStart(line);
    var point := SkipDigits(number);
    if |point| == |number| || point == [] || (point[0] != POINT && point[0] != BRACKET) then None
    else
      var rest := point[1..];
      var text := if rest != [] && IsSpace(rest[0]) then rest[1..] else rest;
      if OneLine(text) then Some(text) else None
  }

  // ----- posts

  /** The lines up to the next marker. */
  function Unmarked(lines: seq<JsString>): seq<JsString> {
    if lines == [] || Marker(lines[0]).Some? then [] else [lines[0]] + Unmarked(lines[1..])
  }

  /** One text for each marker line: what follows its marker, with the unmarked lines after it. */
  function Texts(lines: seq<JsString>): seq<JsString> {
    if lines == [] then []
    else
      var first := Marker(lines[0]);
      if first.None? then Texts(lines[1..])
      else [Trim(Join([first.value] + Unmarked(lines[1..]), LF))] + Texts(lines[1..])
  }

  function Numbered(texts: seq<JsString>): seq<Post> {
    seq(|texts|, i requires 0 <= i < |texts| => Post(i + 1, texts[i], texts[i] == []))
  }

  function Parse(input: JsString): seq<Post> { Numbered(Texts(Split(Normalise(input)))) }

  // ----- the loop

  function Open(current: Option<seq<JsString>>, lines: seq<JsString>): seq<JsString>
    requires current.Some? ==> current.value != []
  {
    if current.None? then [] else [Trim(Join(current.value + Unmarked(lines), LF))]
  }

  method PushCurrent(posts: seq<Post>, current: Option<seq<JsString>>, ghost texts: seq<JsString>)
    returns (pushed: seq<Post>)
    requires current.Some? ==> current.value != []
    requires posts == Numbered(texts)
    ensures pushed == Numbered(texts + Open(current, []))
  {
    if current.None? {
      assert texts + [] == texts;
      return posts;
    }
    assert current.value + [] == current.value;
    var text := Trim(Join(current.value, LF));
    pushed := posts + [Post(|posts| + 1, text, |text| == 0)];
  }

  /** A marker line closes the post before it. */
  lemma MarkerCloses(current: Option<seq<JsString>>, lines: seq<JsString>)
    requires lines != [] && Marker(lines[0]).Some?
    requires current.Some? ==> current.value != []
    ensures Open(current, lines) + Texts(lines)
            == Open(current, []) + Open(Some([Marker(lines[0]).value]), lines[1..]) + Texts(lines[1..])
  {
    hide Marker, Trim, Join;
    Regroup(Open(current, []), Open(Some([Marker(lines[0]).value]), lines[1..]), Texts(lines[1..]));
  }

  /** Any other line joins it. */
  lemma OtherLineJoins(current: Option<seq<JsString>>, lines: seq<JsString>)
    requires lines != [] && Marker(lines[0]).None?
    requires current.Some? ==> current.value != []
    ensures Open(current, lines) + Texts(lines)
            == Open(if current.Some? then Some(current.value + [lines[0]]) else None, lines[1..]) + Texts(lines[1..])
  {
    hide Marker, Trim, Join;
    if current.Some? { Regroup(current.value, [lines[0]], Unmarked(lines[1..])); }
  }

  method ParseNumberedBatchPosts(input: JsString) returns (posts: seq<Post>)
    ensures posts == Parse(input)
  {
    hide Marker, Unmarked, Texts, Numbered, Split, Normalise, Open;
    var lines := Split(Normalise(input));
    ghost var done: seq<JsString> := [];
    var current: Option<seq<JsString>> := None;
    posts := [];
    assert lines[0..] == lines;
    StartOfPosts(lines);
    var i := 0;
    while i < |lines|
      invariant 0 <= i <= |lines|
      invariant current.Some? ==> current.value != []
      invariant posts == Numbered(done)
      invariant Texts(lines) == done + (Open(current, lines[i..]) + Texts(lines[i..]))
    {
      var line := lines[i];
      assert lines[i..][1..] == lines[i + 1..];
      var marker := Marker(line);
      if marker.Some? {
        MarkerCloses(current, lines[i..]);
        posts := PushCurrent(posts, current, done);
        Regroup(Open(current, []), Open(Some([marker.value]), lines[i + 1..]), Texts(lines[i + 1..]));
        Regroup(done, Open(current, []), Open(Some([marker.value]), lines[i + 1..]) + Texts(lines[i + 1..]));
        done := done + Open(current, []);
        current := Some([marker.value]);
      } else {
        OtherLineJoins(current, lines[i..]);
        if current.Some? { current := Some(current.value + [line]); }
      }
      i := i + 1;
    }
    assert lines[i..] == [];
    EndOfPosts(current);
    posts := PushCurrent(posts, current, done);
  }

  lemma StartOfPosts(lines: seq<JsString>)
    ensures Numbered([]) == []
    ensures Texts(lines) == [] + (Open(None, lines) + Texts(lines))
  {
  }

  lemma EndOfPosts(current: Option<seq<JsString>>)
    requires current.Some? ==> current.value != []
    ensures Open(current, []) + Texts([]) == Open(current, [])
  {
  }

  /** The posts are numbered from 1 in the order of their texts, and flagged exactly if they have no text. */
  lemma PostsNumbered(input: JsString, i: nat)
    requires i < |Parse(input)|
    ensures |Parse(input)| == |Texts(Split(Normalise(input)))|
    ensures Parse(input)[i].index == i + 1 && Parse(input)[i].text == Texts(Split(Normalise(input)))[i]
    ensures Parse(input)[i].isEmpty <==> Parse(input)[i].text == []
  {
  }
}
