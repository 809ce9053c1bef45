/** The history cursor: a JSON object of two strings, percent-encoded. */
module Cursor {
  import opened Prelude
  import opened JsText
  import opened Json
  import opened Utf8

  datatype HistoryCursor = HistoryCursor(at: JsString, id: JsString)

  // ----- percent encoding

  /** The units `encodeURIComponent` leaves alone: letters, digits and - _ . ! ~ * ' ( ) */
  predicate Unreserved(c: CodeUnit) {
    || 65 <= c <= 90 || 97 <= c <= 122 || 48 <= c <= 57
    || c in {45, 95, 46, 33, 126, 42, 39, 40, 41}
  }

  function UpperHex(n: int): (c: CodeUnit)
    requires 0 <= n < 16
    ensures HexOf(c) == Some(n) && !IsSpace(c)
  {
    if n < 10 then (48 + n) as CodeUnit else (55 + n) as CodeUnit
  }

  function HexOf(c: CodeUnit): (r: Option<int>)
    ensures r.Some? ==> 0 <= r.value < 16
  {
    if 48 <= c <= 57 then Some(c as int - 48)
    else if 65 <= c <= 70 then Some(c as int - 55)
    else if 97 <= c <= 102 then Some(c as int - 87)
    else None
  }

  function EscapeBytes(b: seq<Byte>): JsString {
    if b == [] then []
    else [37, UpperHex(b[0] as int / 16), UpperHex(b[0] as int % 16)] + EscapeBytes(b[1..])
  }

  function EncodePiece(s: JsString): JsString
    requires s != []
  {
    if Unreserved(s[0]) then [s[0]] else EscapeBytes(ScalarBytes(FirstScalar(s)))
  }

  /** `encodeURIComponent`, which throws on a lone surrogate. */
  function PercentEncode(s: JsString): Option<JsString>
    decreases |s|
  {
    if s == [] then Some([])
    else if !StartsWithPair(s) && (IsHigh(s[0]) || IsLow(s[0])) then None
    else match PercentEncode(s[Width(s)..])
      case None => None
      case Some(rest) => Some(EncodePiece(s) + rest)
  }

  function PercentByte(s: JsString): Option<Byte> {
    if |s| < 3 || s[0] != 37 || HexOf(s[1]).None? || HexOf(s[2]).None? then None
    else Some((HexOf(s[1]).value * 16 + HexOf(s[2]).value) as Byte)
  }

  function PercentBytes(s: JsString, n: nat): (r: Option<seq<Byte>>)
    ensures r.Some? ==> |r.value| == n && 3 * n <= |s|
    decreases n
  {
    if n == 0 then Some([])
    else match PercentByte(s)
      case None => None
      case Some(b) =>
        match PercentBytes(s[3..], n - 1)
        case None => None
        case Some(rest) => Some([b] + rest)
  }

  /** How many bytes a lead byte announces. */
  function Announced(b: Byte): nat {
    if b < 0x80 then 1 else if b < 0xC0 then 0
    else if b < 0xE0 then 2 else if b < 0xF0 then 3 else if b < 0xF8 then 4 else 0
  }

  /** `decodeURIComponent`, which throws on a malformed escape. */
  function PercentDecode(s: JsString): Option<JsString>
    decreases |s|
  {
    if s == [] then Some([])
    else if s[0] != 37 then
      (match PercentDecode(s[1..])
       case None => None
       case Some(rest) => Some([s[0]] + rest))
    else match PercentByte(s)
      case None => None
      case Some(lead) =>
        var n := Announced(lead);
        (match PercentBytes(s, n)
         case None => None
         case Some(bytes) =>
           (match FirstEncoded(bytes)
            case None => None
            case Some((scalar, k)) =>
              if k != n || n == 0 || !Scalar(scalar) then None
              else (match PercentDecode(s[3 * n..])
                    case None => None
                    case Some(rest) => Some(ScalarUnits(scalar) + rest))))
  }

  lemma {:induction false} EscapedBytesRead(b: seq<Byte>, rest: JsString)
    ensures |EscapeBytes(b)| == 3 * |b|
    ensures PercentBytes(EscapeBytes(b) + rest, |b|) == Some(b)
    decreases |b|
  {
    if b != [] {
      var s := EscapeBytes(b) + rest;
      assert s[3..] == EscapeBytes(b[1..]) + rest;
      EscapedBytesRead(b[1..], rest);
      assert PercentByte(s) == Some(b[0]);
      assert b == [b[0]] + b[1..];
    }
  }

  lemma AnnouncedLength(n: int)
    requires Scalar(n)
    ensures Announced(ScalarBytes(n)[0]) == |ScalarBytes(n)|
  {
  }

  lemma EscapedScalarDecodes(n: int, rest: JsString)
    requires Scalar(n) && PercentDecode(rest).Some?
    ensures PercentDecode(EscapeBytes(ScalarBytes(n)) + rest) == Some(ScalarUnits(n) + PercentDecode(rest).value)
  {
    var b := ScalarBytes(n);
    var s := EscapeBytes(b) + rest;
    EscapedBytesRead(b, rest);
    AnnouncedLength(n);
    ScalarRoundTrip(n, []);
    assert b + [] == b;
    LeadByteRead(b, rest);
    assert s[3 * |b|..] == rest;
  }

  lemma LeadByteRead(b: seq<Byte>, rest: JsString)
    requires b != []
    ensures var s := EscapeBytes(b) + rest; s != [] && s[0] == 37 && PercentByte(s) == Some(b[0])
  {
  }

  /** Decoding undoes encoding for every text without lone surrogates. */
  lemma {:induction false} PercentRoundTrip(s: JsString)
    requires WellFormedText(s)
    ensures PercentEncode(s).Some? && PercentDecode(PercentEncode(s).value) == Some(s)
    decreases |s|
  {
    if s != [] {
      PercentRoundTrip(s[Width(s)..]);
      var rest := PercentEncode(s[Width(s)..]).value;
      if Unreserved(s[0]) {
        assert ([s[0]] + rest)[1..] == rest && s[..1] == [s[0]];
      } else {
        UnitsRoundTrip(s);
        EscapedScalarDecodes(FirstScalar(s), rest);
      }
      SplitAt(s, Width(s));
    }
  }

  /** Encoded text has no white space. */
  lemma {:induction false} EncodedHasNoSpaces(s: JsString)
    requires PercentEncode(s).Some?
    ensures forall i | 0 <= i < |PercentEncode(s).value| :: !IsSpace(PercentEncode(s).value[i])
    decreases |s|
  {
    if s != [] {
      EncodedHasNoSpaces(s[Width(s)..]);
      if !Unreserved(s[0]) { EscapedHasNoSpaces(ScalarBytes(FirstScalar(s))); }
    }
  }

  lemma {:induction false} EscapedHasNoSpaces(b: seq<Byte>)
    ensures forall i | 0 <= i < |EscapeBytes(b)| :: !IsSpace(EscapeBytes(b)[i])
    decreases |b|
  {
    if b != [] { EscapedHasNoSpaces(b[1..]); }
  }

  // ----- reading JSON strings

  function LongEscape(c: CodeUnit): Option<CodeUnit> {
    if c == 34 || c == 92 || c == 47 then Some(c)
    else if c == 98 then Some(8) else if c == 102 then Some(12) else if c == 110 then Some(10)
    else if c == 114 then Some(13) else if c == 116 then Some(9) else None
  }

  function HexUnit(s: JsString): Option<CodeUnit> {
    if |s| < 4 || HexOf(s[0]).None? || HexOf(s[1]).None? || HexOf(s[2]).None? || HexOf(s[3]).None? then None
    else
      var high, low := HexOf(s[0]).value * 16 + HexOf(s[1]).value, HexOf(s[2]).value * 16 + HexOf(s[3]).value;
      Some((high * 256 + low) as CodeUnit)
  }

  /** The string whose opening quote has been read, and the text after its closing quote. */
  function ParseString(t: JsString): Option<(JsString, JsString)>
    decreases |t|
  {
    if t == [] || t[0] < 32 then None
    else if t[0] == 34 then Some(([], t[1..]))
    else if t[0] != 92 then Push(t[0], ParseString(t[1..]))
    else if |t| == 1 then None
    else if t[1] == 117 then
      (match HexUnit(t[2..])
       case None => None
       case Some(c) => Push(c, ParseString(t[6..])))
    else
      (match LongEscape(t[1])
       case None => None
       case Some(c) => Push(c, ParseString(t[2..])))
  }

  function Push(c: CodeUnit, r: Option<(JsString, JsString)>): Option<(JsString, JsString)> {
    match r
    case None => None
    case Some((s, rest)) => Some(([c] + s, rest))
  }

  lemma HexDigitReads(n: int)
    requires 0 <= n < 16
    ensures HexOf(HexDigit(n)) == Some(n)
  {
  }

  lemma Hex4Reads(c: CodeUnit, rest: JsString)
    ensures HexUnit(Hex4(c) + rest) == Some(c)
  {
    var n, s := c as int, Hex4(c) + rest;
    HexDigitReads(n / 4096);
    HexDigitReads(n / 256 % 16);
    HexDigitReads(n / 16 % 16);
    HexDigitReads(n % 16);
    assert s[0] == Hex4(c)[0] && s[1] == Hex4(c)[1] && s[2] == Hex4(c)[2] && s[3] == Hex4(c)[3];
    HexDigitsOf(n);
  }

  lemma PieceParses(s: JsString, t: JsString, rest: JsString, tail: JsString)
    requires s != [] && ParseString(t) == Some((rest, tail))
    ensures ParseString(Piece(s) + t) == Some((s[..Width(s)] + rest, tail))
  {
    hide HexUnit;
    var c, whole := s[0], Piece(s) + t;
    if StartsWithPair(s) {
      assert whole[1..] == [s[1]] + t && ([s[1]] + t)[1..] == t;
      assert [s[0]] + ([s[1]] + rest) == s[..2] + rest;
    } else {
      assert s[..1] == [c];
      if |Piece(s)| == 6 {
        Hex4Reads(c, t);
        assert whole[2..] == Hex4(c) + t && whole[6..] == t;
      } else if |Piece(s)| == 2 {
        assert whole[2..] == t;
      } else {
        assert whole[1..] == t;
      }
    }
  }

  /** Parsing undoes quoting. */
  lemma {:induction false} ParseUndoesQuote(s: JsString, tail: JsString)
    ensures ParseString(QuoteInto(s, tail)) == Some((s, tail))
    decreases |s|
  {
    if s == [] {
      assert ([34] + tail)[1..] == tail;
    } else {
      ParseUndoesQuote(s[Width(s)..], tail);
      PieceParses(s, QuoteInto(s[Width(s)..], tail), s[Width(s)..], tail);
      SplitAt(s, Width(s));
    }
  }

  // ----- the cursor

  const OPEN_AT: JsString := [123, 34, 97, 116, 34, 58]
  const OPEN_ID: JsString := [44, 34, 105, 100, 34, 58]
  const MAX_CURSOR := 1000
  const MAX_AT := 80
  const MAX_ID := 160

  /** `JSON.stringify({ at, id })` */
  function CursorJson(c: HistoryCursor): JsString { OPEN_AT + Quote(c.at) + OPEN_ID + Quote(c.id) + [125] }

  /** `None` would be a thrown error; it never is one (`EncodeCursorNeverThrows`). */
  function EncodeCursor(c: HistoryCursor): Option<JsString> { PercentEncode(CursorJson(c)) }

  /** `JSON.parse` of the texts `CursorJson` makes, in any spelling of their strings. */
  function ParseCursorJson(t: JsString): Option<HistoryCursor> {
    if !(OPEN_AT + [34] <= t) then None
    else match ParseString(t[7..])
      case None => None
      case Some((at, more)) =>
        if !(OPEN_ID + [34] <= more) then None
        else (match ParseString(more[7..])
              case None => None
              case Some((id, end)) => if end == [125] then Some(HistoryCursor(at, id)) else None)
  }

  function DecodeCursor(value: Option<JsString>): Option<HistoryCursor> {
    if value.None? then None
    else
      var normalized := Trim(value.value);
      if normalized == [] || |normalized| > MAX_CURSOR then None
      else match PercentDecode(normalized)
        case None => None
        case Some(json) =>
          (match ParseCursorJson(json)
           case None => None
           case Some(c) =>
             var at, id := Trim(c.at), Trim(c.id);
             if at == [] || id == [] || |at| > MAX_AT || |id| > MAX_ID then None else Some(HistoryCursor(at, id)))
  }

  lemma CursorJsonInto(c: HistoryCursor)
    ensures CursorJson(c) == OPEN_AT + [34] + QuoteInto(c.at, OPEN_ID + [34] + QuoteInto(c.id, [125]))
  {
    QuoteIntoIsQuote(c.id, [125]);
    QuoteIntoIsQuote(c.at, OPEN_ID + (Quote(c.id) + [125]));
    Regroup(OPEN_AT, Quote(c.at), OPEN_ID);
    Regroup(OPEN_AT, Quote(c.at) + OPEN_ID, Quote(c.id));
    Regroup(OPEN_AT, Quote(c.at) + OPEN_ID + Quote(c.id), [125]);
    Regroup(Quote(c.at) + OPEN_ID, Quote(c.id), [125]);
    Regroup(Quote(c.at), OPEN_ID, Quote(c.id) + [125]);
    Regroup(OPEN_ID, [34], QuoteInto(c.id, [125]));
    Regroup(OPEN_AT, [34], QuoteInto(c.at, OPEN_ID + (Quote(c.id) + [125])));
  }

  lemma ParseUndoesCursorJson(c: HistoryCursor)
    ensures ParseCursorJson(CursorJson(c)) == Some(c)
  {
    CursorJsonInto(c);
    var more := OPEN_ID + [34] + QuoteInto(c.id, [125]);
    ParseUndoesQuote(c.at, more);
    ParseUndoesQuote(c.id, [125]);
    assert CursorJson(c)[7..] == QuoteInto(c.at, more);
    assert more[7..] == QuoteInto(c.id, [125]);
  }

  lemma {:induction false} PlainPrefixWellFormed(a: JsString, b: JsString)
    requires WellFormedText(b) && forall i | 0 <= i < |a| :: !IsHigh(a[i]) && !IsLow(a[i])
    ensures WellFormedText(a + b)
    decreases |a|
  {
    if a == [] {
      assert a + b == b;
    } else {
      PlainPrefixWellFormed(a[1..], b);
      assert (a + b)[1..] == a[1..] + b;
    }
  }

  lemma {:induction false} QuoteIntoWellFormed(s: JsString, tail: JsString)
    requires WellFormedText(tail)
    ensures WellFormedText(QuoteInto(s, tail))
    decreases |s|
  {
    if s == [] {
      PlainPrefixWellFormed([34], tail);
    } else {
      var rest := QuoteInto(s[Width(s)..], tail);
      QuoteIntoWellFormed(s[Width(s)..], tail);
      if StartsWithPair(s) {
        assert (s[..2] + rest)[2..] == rest;
      } else {
        PlainPrefixWellFormed(Piece(s), rest);
      }
    }
  }

  lemma OpeningsArePlain()
    ensures WellFormedText([125])
    ensures forall i | 0 <= i < |OPEN_ID + [34]| :: !IsHigh((OPEN_ID + [34])[i]) && !IsLow((OPEN_ID + [34])[i])
    ensures forall i | 0 <= i < |OPEN_AT + [34]| :: !IsHigh((OPEN_AT + [34])[i]) && !IsLow((OPEN_AT + [34])[i])
  {
    PlainPrefixWellFormed([], []);
  }

  /** JSON text escapes lone surrogates, so encoding a cursor never throws. */
  lemma EncodeCursorNeverThrows(c: HistoryCursor)
    ensures WellFormedText(CursorJson(c)) && EncodeCursor(c).Some?
  {
    hide WellFormedText, QuoteInto, Quote, CursorJson, IsHigh, IsLow, PercentEncode;
    CursorJsonInto(c);
    OpeningsArePlain();
    QuoteIntoWellFormed(c.id, [125]);
    PlainPrefixWellFormed(OPEN_ID + [34], QuoteInto(c.id, [125]));
    QuoteIntoWellFormed(c.at, OPEN_ID + [34] + QuoteInto(c.id, [125]));
    PlainPrefixWellFormed(OPEN_AT + [34], QuoteInto(c.at, OPEN_ID + [34] + QuoteInto(c.id, [125])));
    PercentRoundTrip(CursorJson(c));
  }

  /** Both strings are trimmed, not blank and within the decoder's bounds, and so is the whole. */
  predicate Cursorable(c: HistoryCursor) {
    && Trimmed(c.at) && 0 < |c.at| <= 80
    && Trimmed(c.id) && 0 < |c.id| <= 160
    && EncodeCursor(c).Some? && |EncodeCursor(c).value| <= 1000
  }

  lemma DecodedCursor(c: HistoryCursor)
    ensures EncodeCursor(c).Some?
    ensures var at, id := Trim(c.at), Trim(c.id);
            DecodeCursor(EncodeCursor(c))
            == if |EncodeCursor(c).value| > MAX_CURSOR || at == [] || id == [] || |at| > MAX_AT || |id| > MAX_ID
               then None
               else Some(HistoryCursor(at, id))
  {
    EncodeCursorNeverThrows(c);
    var json, encoded := CursorJson(c), EncodeCursor(c).value;
    PercentRoundTrip(json);
    ParseUndoesCursorJson(c);
    EncodedHasNoSpaces(json);
    TrimFixesTrimmed(encoded);
    assert encoded != [] by { assert PercentDecode(encoded) == Some(json) && json != []; }
  }

  /** A cursor comes back from its own encoding exactly when its strings are trimmed, not blank and
      within the decoder's bounds. */
  lemma CursorRoundTripExactly(c: HistoryCursor)
    ensures DecodeCursor(EncodeCursor(c)) == Some(c) <==> Cursorable(c)
  {
    DecodedCursor(c);
    TrimFixesTrimmed(c.at);
    TrimFixesTrimmed(c.id);
  }

  // ----- percent encoding, spelled out

  /** An ASCII unit is left alone if it is a letter, a digit or one of nine marks, and is else a percent sign and two
      hexadecimal digits, large ones. */
  lemma OneUnitEncoded(c: CodeUnit)
    requires c < 128
    ensures var plain := 65 <= c <= 90 || 97 <= c <= 122 || 48 <= c <= 57 || c in {33, 39, 40, 41, 42, 45, 46, 95, 126};
            var digit := (n: int) => if 0 <= n < 10 then 48 + n else 55 + n;
            && PercentEncode([c]).Some?
            && var text := PercentEncode([c]).value;
               if plain then text == [c]
               else |text| == 3 && text[0] == 37 && text[1] as int == digit(c as int / 16)
                    && text[2] as int == digit(c as int % 16)
  {
    assert [c][1..] == [] && PercentEncode([]) == Some([]);
    var b := ScalarBytes(c as int);
    assert b == [c as Byte] && b[1..] == [] && EscapeBytes(b[1..]) == [];
    assert EscapeBytes(b) == [37, UpperHex(c as int / 16), UpperHex(c as int % 16)];
    assert PercentEncode([c]) == Some(EncodePiece([c]) + []);
    assert EncodePiece([c]) + [] == EncodePiece([c]);
  }

  /** The text before percent encoding is an object of two strings. */
  lemma CursorSpelled(c: HistoryCursor)
    ensures CursorJson(c) == Units("{\"at\":") + Quote(c.at) + Units(",\"id\":") + Quote(c.id) + Units("}")
  {
    assert Units("{\"at\":") == OPEN_AT && Units(",\"id\":") == OPEN_ID && Units("}") == [125];
  }

  /** Percent encoding throws exactly on lone surrogates. */
  lemma {:induction false} EncodableExactly(s: JsString)
    ensures PercentEncode(s).Some? <==> WellFormedText(s)
    decreases |s|
  {
    hide EncodePiece;
    if s != [] { EncodableExactly(s[Width(s)..]); }
  }
}
