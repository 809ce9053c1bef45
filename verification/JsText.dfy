/** JavaScript strings: sequences of UTF-16 code units, surrogates included. */
module JsText {

  newtype CodeUnit = x: int | 0 <= x < 0x1_0000

  type JsString = seq<CodeUnit>

  /** The characters `trim` removes and `\s` matches: white space and line terminators. */
  predicate IsSpace(c: CodeUnit) {
    || 9 <= c <= 13 || c == 32 || c == 0xA0 || c == 0x1680 || 0x2000 <= c <= 0x200A
    || c == 0x2028 || c == 0x2029 || c == 0x202F || c == 0x205F || c == 0x3000 || c == 0xFEFF
  }

  function TrimStart(s: JsString): JsString {
    if s != [] && IsSpace(s[0]) then TrimStart(s[1..]) else s
  }

  function TrimEnd(s: JsString): JsString {
    if s != [] && IsSpace(s[|s| - 1]) then TrimEnd(s[..|s| - 1]) else s
  }

  function Trim(s: JsString): JsString { TrimEnd(TrimStart(s)) }

  predicate Trimmed(s: JsString) {
    s == [] || (!IsSpace(s[0]) && !IsSpace(s[|s| - 1]))
  }

  lemma {:induction false} TrimEndShape(s: JsString)
    ensures TrimEnd(s) <= s
    ensures TrimEnd(s) != [] ==> !IsSpace(TrimEnd(s)[|TrimEnd(s)| - 1])
    decreases |s|
  {
    if s != [] && IsSpace(s[|s| - 1]) { TrimEndShape(s[..|s| - 1]); }
  }

  lemma {:induction false} TrimStartShape(s: JsString)
    ensures TrimStart(s) != [] ==> !IsSpace(TrimStart(s)[0])
    ensures |TrimStart(s)| <= |s|
    decreases |s|
  {
    if s != [] && IsSpace(s[0]) { TrimStartShape(s[1..]); }
  }

  /** Trimming always leaves a trimmed string, and leaves exactly the trimmed strings alone. */
  lemma TrimFixesTrimmed(s: JsString)
    ensures Trimmed(Trim(s))
    ensures Trim(s) == s <==> Trimmed(s)
  {
    TrimStartShape(s);
    TrimEndShape(TrimStart(s));
    var t := Trim(s);
    if t != [] { assert t[0] == TrimStart(s)[0]; }
  }

  // ----- literals, digits and lists

  /** The units of a literal. */
  function Units(s: string): JsString {
    seq(|s|, i requires 0 <= i < |s| => (s[i] as int % 0x1_0000) as CodeUnit)
  }

  predicate IsDigit(c: CodeUnit) { 48 <= c <= 57 }

  function Decimal(n: nat): JsString {
    if n < 10 then [(48 + n) as CodeUnit] else Decimal(n / 10) + [(48 + n % 10) as CodeUnit]
  }

  lemma {:induction false} DecimalShape(n: nat)
    ensures |Decimal(n)| >= 1
    ensures forall i | 0 <= i < |Decimal(n)| :: IsDigit(Decimal(n)[i])
  {
    if n >= 10 { DecimalShape(n / 10); }
  }

  function Join(parts: seq<JsString>, separator: CodeUnit): JsString {
    if parts == [] then []
    else if |parts| == 1 then parts[0]
    else parts[0] + [separator] + Join(parts[1..], separator)
  }

  /** The values of a list in the order of their first appearance, as a JavaScript `Set` keeps them. */
  function Distinct(s: seq<JsString>): (r: seq<JsString>)
    ensures forall x :: x in r <==> x in s
    ensures forall i, j | 0 <= i < j < |r| :: r[i] != r[j]
  {
    if s == [] then []
    else
      var front, last := Distinct(s[..|s| - 1]), s[|s| - 1];
      assert s == s[..|s| - 1] + [last];
      if last in front then front else front + [last]
  }

  // ----- regrouping strings

  lemma Regroup<T>(a: seq<T>, b: seq<T>, c: seq<T>)
    ensures (a + b) + c == a + (b + c)
  {
  }

  lemma SplitAt<T>(s: seq<T>, k: nat)
    requires k <= |s|
    ensures s == s[..k] + s[k..]
  {
  }

  // ----- trimming, spelled out

  /** Tabs and line ends, spaces of every width, the line and paragraph separators, and the byte order mark. */
  const BLANKS: set<int> := {
    9, 10, 11, 12, 13, 32, 160, 5760, 8192, 8193, 8194, 8195, 8196, 8197, 8198, 8199, 8200, 8201, 8202,
    8232, 8233, 8239, 8287, 12288, 65279}

  lemma {:induction false} TrimStartCuts(s: JsString) returns (cut: JsString)
    ensures s == cut + TrimStart(s) && forall i | 0 <= i < |cut| :: IsSpace(cut[i])
    decreases |s|
  {
    if s != [] && IsSpace(s[0]) {
      var rest := TrimStartCuts(s[1..]);
      cut := [s[0]] + rest;
      SplitAt(s, 1);
      Regroup([s[0]], rest, TrimStart(s[1..]));
    } else {
      cut := [];
    }
  }

  lemma {:induction false} TrimEndCuts(s: JsString) returns (cut: JsString)
    ensures s == TrimEnd(s) + cut && forall i | 0 <= i < |cut| :: IsSpace(cut[i])
    decreases |s|
  {
    var n := |s| - 1;
    if s != [] && IsSpace(s[n]) {
      var rest := TrimEndCuts(s[..n]);
      cut := rest + [s[n]];
      SplitAt(s, n);
      assert s[n..] == [s[n]];
      Regroup(TrimEnd(s[..n]), rest, [s[n]]);
    } else {
      cut := [];
    }
  }

  /** Trimming cuts blanks off both ends, and leaves none there. */
  lemma TrimCutsBlanks(s: JsString) returns (before: JsString, after: JsString)
    ensures s == before + Trim(s) + after
    ensures forall i | 0 <= i < |before| :: before[i] as int in BLANKS
    ensures forall i | 0 <= i < |after| :: after[i] as int in BLANKS
    ensures var t := Trim(s); t != [] ==> t[0] as int !in BLANKS && t[|t| - 1] as int !in BLANKS
  {
    before := TrimStartCuts(s);
    after := TrimEndCuts(TrimStart(s));
    Regroup(before, Trim(s), after);
    TrimFixesTrimmed(s);
    forall c: CodeUnit ensures IsSpace(c) <==> c as int in BLANKS { BlankSpelled(c); }
  }

  lemma BlankSpelled(c: CodeUnit)
    ensures IsSpace(c) <==> c as int in BLANKS
  {
  }
}
