/** JSON values and the strings `JSON.stringify` makes of JSON strings. */
module Json {
  import opened JsText

  /** Object members in insertion order. */
  datatype Member<V> = Member(key: JsString, value: V)

  /** A number stands for its own printed form: finite numbers, with zero unsigned. */
  datatype Json =
    | Null
    | Bool(b: bool)
    | Num(printed: JsString)
    | Str(s: JsString)
    | Arr(items: seq<Json>)
    | Obj(members: seq<Member<Json>>)

  /** The characters of printed numbers: digits, signs, point and exponent mark. */
  predicate NumberUnit(c: CodeUnit) {
    48 <= c <= 57 || c == 43 || c == 45 || c == 46 || c == 101
  }

  predicate NumberText(s: JsString) {
    s != [] && (48 <= s[0] <= 57 || s[0] == 45) && forall i | 0 <= i < |s| :: NumberUnit(s[i])
  }

  predicate DistinctKeys<V>(ms: seq<Member<V>>) {
    forall i, j | 0 <= i < j < |ms| :: ms[i].key != ms[j].key
  }

  predicate WellFormed(v: Json) {
    match v
    case Num(t) => NumberText(t)
    case Arr(items) => forall i | 0 <= i < |items| :: WellFormed(items[i])
    case Obj(ms) => DistinctKeys(ms) && forall i | 0 <= i < |ms| :: WellFormed(ms[i].value)
    case _ => true
  }

  // ----- strings

  predicate IsHigh(c: CodeUnit) { 0xD800 <= c < 0xDC00 }

  predicate IsLow(c: CodeUnit) { 0xDC00 <= c < 0xE000 }

  predicate StartsWithPair(s: JsString) {
    |s| > 1 && IsHigh(s[0]) && IsLow(s[1])
  }

  function HexDigit(n: int): CodeUnit
    requires 0 <= n < 16
  {
    if n < 10 then (48 + n) as CodeUnit else (87 + n) as CodeUnit
  }

  function Hex4(c: CodeUnit): JsString {
    var n := c as int;
    [HexDigit(n / 4096), HexDigit(n / 256 % 16), HexDigit(n / 16 % 16), HexDigit(n % 16)]
  }

  /** How many units the first printed piece of `s` stands for. */
  function Width(s: JsString): nat
    requires s != []
  {
    if StartsWithPair(s) then 2 else 1
  }

  function ShortEscape(c: CodeUnit): CodeUnit {
    if c == 8 then 98 else if c == 9 then 116 else if c == 10 then 110
    else if c == 12 then 102 else if c == 13 then 114 else c
  }

  /** The first piece as printed: surrogate pairs and plain units as they are, the rest escaped. */
  function Piece(s: JsString): JsString
    requires s != []
  {
    var c := s[0];
    if StartsWithPair(s) then s[..2]
    else if c == 34 || c == 92 || c in {8, 9, 10, 12, 13} then [92, ShortEscape(c)]
    else if c < 32 || IsHigh(c) || IsLow(c) then [92, 117] + Hex4(c)
    else [c]
  }

  function QuoteBody(s: JsString): JsString
    decreases |s|
  {
    if s == [] then [] else Piece(s) + QuoteBody(s[Width(s)..])
  }

  function Quote(s: JsString): JsString { [34] + QuoteBody(s) + [34] }

  lemma HexDigitsOf(n: int)
    requires 0 <= n < 0x1_0000
    ensures n == n / 4096 * 4096 + n / 256 % 16 * 256 + n / 16 % 16 * 16 + n % 16
  {
    assert n / 256 == n / 4096 * 16 + n / 256 % 16;
    assert n / 16 == n / 256 * 16 + n / 16 % 16;
  }

  lemma Hex4Injective(c: CodeUnit, d: CodeUnit)
    requires Hex4(c) == Hex4(d)
    ensures c == d
  {
    var m, n := c as int, d as int;
    assert HexDigit(m / 4096) == HexDigit(n / 4096) by { assert Hex4(c)[0] == Hex4(d)[0]; }
    assert HexDigit(m / 256 % 16) == HexDigit(n / 256 % 16) by { assert Hex4(c)[1] == Hex4(d)[1]; }
    assert HexDigit(m / 16 % 16) == HexDigit(n / 16 % 16) by { assert Hex4(c)[2] == Hex4(d)[2]; }
    assert HexDigit(m % 16) == HexDigit(n % 16) by { assert Hex4(c)[3] == Hex4(d)[3]; }
    HexDigitsOf(m);
    HexDigitsOf(n);
  }

  /** A printed piece tells what it stands for and where it ends. */
  lemma PieceReadable(s: JsString, p: JsString, t: JsString, q: JsString)
    requires s != [] && t != [] && Piece(s) + p == Piece(t) + q
    ensures Width(s) == Width(t) && s[..Width(s)] == t[..Width(t)] && p == q
  {
    var whole := Piece(s) + p;
    assert whole[0] == Piece(s)[0] == Piece(t)[0];
    if whole[0] == 92 {
      assert whole[1] == Piece(s)[1] == Piece(t)[1];
      if whole[1] == 117 {
        assert whole[2..6] == Hex4(s[0]) == Hex4(t[0]);
        Hex4Injective(s[0], t[0]);
      }
    } else if |Piece(s)| == 2 {
      assert whole[1] == s[1] == t[1];
    }
    assert |Piece(s)| == |Piece(t)|;
    assert p == whole[|Piece(s)|..] == q;
  }

  lemma PieceIsNoQuote(s: JsString, p: JsString)
    requires s != []
    ensures (Piece(s) + p)[0] != 34
  {
  }

  /** The body of a quoted string, its closing quote and what follows. */
  function QuoteInto(s: JsString, tail: JsString): JsString
    decreases |s|
  {
    if s == [] then [34] + tail else Piece(s) + QuoteInto(s[Width(s)..], tail)
  }

  lemma {:induction false} QuoteIntoIsBody(s: JsString, tail: JsString)
    ensures QuoteInto(s, tail) == QuoteBody(s) + ([34] + tail)
    decreases |s|
  {
    if s != [] {
      QuoteIntoIsBody(s[Width(s)..], tail);
      Regroup(Piece(s), QuoteBody(s[Width(s)..]), [34] + tail);
    }
  }

  lemma QuoteIntoIsQuote(s: JsString, tail: JsString)
    ensures [34] + QuoteInto(s, tail) == Quote(s) + tail
  {
    QuoteIntoIsBody(s, tail);
    Regroup(QuoteBody(s), [34], tail);
    Regroup([34], QuoteBody(s) + [34], tail);
    Regroup([34], QuoteBody(s), [34]);
  }

  lemma {:induction false} QuoteIntoReadable(s: JsString, x: JsString, t: JsString, y: JsString)
    requires QuoteInto(s, x) == QuoteInto(t, y)
    ensures s == t && x == y
    decreases |s|
  {
    if s != [] { PieceIsNoQuote(s, QuoteInto(s[Width(s)..], x)); }
    if t != [] { PieceIsNoQuote(t, QuoteInto(t[Width(t)..], y)); }
    if s != [] && t != [] {
      var restS, restT := s[Width(s)..], t[Width(t)..];
      PieceReadable(s, QuoteInto(restS, x), t, QuoteInto(restT, y));
      QuoteIntoReadable(restS, x, restT, y);
      SplitAt(s, Width(s));
      SplitAt(t, Width(t));
    } else {
      assert ([34] + x)[1..] == x && ([34] + y)[1..] == y;
    }
  }

  /** A quoted string at the front of a text is read in one way only. */
  lemma QuoteReadable(s: JsString, x: JsString, t: JsString, y: JsString)
    requires Quote(s) + x == Quote(t) + y
    ensures s == t && x == y
  {
    QuoteIntoIsQuote(s, x);
    QuoteIntoIsQuote(t, y);
    assert ([34] + QuoteInto(s, x))[1..] == QuoteInto(s, x) && ([34] + QuoteInto(t, y))[1..] == QuoteInto(t, y);
    QuoteIntoReadable(s, x, t, y);
  }

  // ----- quoting, spelled out

  /** A string of one unit: quote and backslash are escaped with a backslash, five control characters by a letter, the
      other ones and lone surrogates by four small hexadecimal digits, and every other unit is printed as it is. */
  lemma OneUnitQuoted(c: CodeUnit)
    ensures var text := Quote([c]);
            && (c in {34, 92} ==> text == [34, 92, c, 34])
            && (c == 8 ==> text == [34, 92, 98, 34]) && (c == 9 ==> text == [34, 92, 116, 34])
            && (c == 10 ==> text == [34, 92, 110, 34]) && (c == 12 ==> text == [34, 92, 102, 34])
            && (c == 13 ==> text == [34, 92, 114, 34])
            && ((c < 32 && c !in {8, 9, 10, 12, 13}) || 0xD800 <= c < 0xE000 ==> EscapedBy(text, c))
            && (32 <= c && c !in {34, 92} && !(0xD800 <= c < 0xE000) ==> text == [34, c, 34])
  {
    hide Hex4;
    assert [c][1..] == [] && QuoteBody([c]) == Piece([c]) + [];
    assert Piece([c]) + [] == Piece([c]);
    assert Quote([c]) == [34] + Piece([c]) + [34];
    if (c < 32 && c !in {8, 9, 10, 12, 13}) || 0xD800 <= c < 0xE000 { EscapedUnit(c); }
  }

  /** A quoted escape of four small digits, read in base sixteen. */
  predicate EscapedBy(text: JsString, c: CodeUnit) {
    && |text| == 8 && text[0] == 34 && text[1] == 92 && text[2] == 117 && text[7] == 34
    && (forall i | 3 <= i < 7 :: 48 <= text[i] <= 57 || 97 <= text[i] <= 102)
    && var value := (d: CodeUnit) => if d <= 57 then d as int - 48 else d as int - 87;
       value(text[3]) * 4096 + value(text[4]) * 256 + value(text[5]) * 16 + value(text[6]) == c as int
  }

  lemma EscapedUnit(c: CodeUnit)
    ensures EscapedBy([34] + ([92, 117] + Hex4(c)) + [34], c)
  {
    HexDigitsOf(c as int);
    var n := c as int;
    var text := [34] + ([92, 117] + Hex4(c)) + [34];
    assert text[3] == HexDigit(n / 4096) && text[4] == HexDigit(n / 256 % 16);
    assert text[5] == HexDigit(n / 16 % 16) && text[6] == HexDigit(n % 16);
  }

  /** A surrogate pair is printed as it is. */
  lemma PairQuoted(h: CodeUnit, l: CodeUnit)
    requires 0xD800 <= h < 0xDC00 && 0xDC00 <= l < 0xE000
    ensures Quote([h, l]) == [34, h, l, 34]
  {
    assert [h, l][2..] == [] && [h, l][..2] == [h, l];
    assert QuoteBody([h, l]) == [h, l] + [];
  }
}
