/** UTF-8 bytes of JavaScript strings. */
module Utf8 {
  import opened Prelude
  import opened JsText
  import opened Json

  newtype Byte = x: int | 0 <= x < 256

  /** A Unicode scalar value: a code point that is no surrogate. */
  predicate Scalar(n: int) { 0 <= n < 0xD800 || 0xE000 <= n < 0x11_0000 }

  /** No surrogate stands alone. */
  predicate WellFormedText(s: JsString)
    decreases |s|
  {
    s == [] || ((StartsWithPair(s) || !(IsHigh(s[0]) || IsLow(s[0]))) && WellFormedText(s[Width(s)..]))
  }

  /** The first scalar of a text; a lone surrogate counts as the replacement character. */
  function FirstScalar(s: JsString): (n: int)
    requires s != []
    ensures Scalar(n)
  {
    if StartsWithPair(s) then 0x1_0000 + (s[0] as int - 0xD800) * 0x400 + (s[1] as int - 0xDC00)
    else if IsHigh(s[0]) || IsLow(s[0]) then 0xFFFD
    else s[0] as int
  }

  function ScalarUnits(n: int): JsString
    requires Scalar(n)
  {
    if n < 0x1_0000 then [n as CodeUnit]
    else [(0xD800 + (n - 0x1_0000) / 0x400) as CodeUnit, (0xDC00 + (n - 0x1_0000) % 0x400) as CodeUnit]
  }

  function Tail(n: int): Byte
    requires 0 <= n
  {
    (0x80 + n % 64) as Byte
  }

  function ScalarBytes(n: int): seq<Byte>
    requires Scalar(n)
  {
    if n < 0x80 then [n as Byte]
    else if n < 0x800 then [(0xC0 + n / 64) as Byte, Tail(n)]
    else if n < 0x1_0000 then [(0xE0 + n / 4096) as Byte, Tail(n / 64), Tail(n)]
    else [(0xF0 + n / 0x4_0000) as Byte, Tail(n / 4096), Tail(n / 64), Tail(n)]
  }

  function Encode(s: JsString): seq<Byte>
    decreases |s|
  {
    if s == [] then [] else ScalarBytes(FirstScalar(s)) + Encode(s[Width(s)..])
  }

  predicate IsTail(b: Byte) { 0x80 <= b < 0xC0 }

  function Low6(b: Byte): int { b as int % 64 }

  /** The scalar a byte sequence starts with, and its length in bytes; overlong forms, surrogates and
      values beyond the last code point are malformed. */
  function FirstEncoded(b: seq<Byte>): Option<(int, nat)> {
    if b == [] then None
    else
      var lead := b[0] as int;
      if lead < 0x80 then Some((lead, 1))
      else if 0xC2 <= lead < 0xE0 && |b| >= 2 && IsTail(b[1]) then Some(((lead - 0xC0) * 64 + Low6(b[1]), 2))
      else if 0xE0 <= lead < 0xF0 && |b| >= 3 && IsTail(b[1]) && IsTail(b[2]) then
        var n := (lead - 0xE0) * 4096 + Low6(b[1]) * 64 + Low6(b[2]);
        if n >= 0x800 && Scalar(n) then Some((n, 3)) else None
      else if 0xF0 <= lead < 0xF5 && |b| >= 4 && IsTail(b[1]) && IsTail(b[2]) && IsTail(b[3]) then
        var n := (lead - 0xF0) * 0x4_0000 + Low6(b[1]) * 4096 + Low6(b[2]) * 64 + Low6(b[3]);
        if n >= 0x1_0000 && Scalar(n) then Some((n, 4)) else None
      else None
  }

  /** Strict decoding: `None` on any malformed sequence. */
  function Decode(b: seq<Byte>): Option<JsString>
    decreases |b|
  {
    if b == [] then Some([])
    else match FirstEncoded(b)
      case None => None
      case Some((n, k)) =>
        if k == 0 || k > |b| || !Scalar(n) then None
        else match Decode(b[k..])
          case None => None
          case Some(rest) => Some(ScalarUnits(n) + rest)
  }

  lemma SixBits(n: int)
    requires 0 <= n
    ensures n == n / 64 * 64 + n % 64
    ensures n / 64 == n / 4096 * 64 + n / 64 % 64
    ensures n / 4096 == n / 0x4_0000 * 64 + n / 4096 % 64
  {
  }

  lemma TailReads(n: int)
    requires 0 <= n
    ensures IsTail(Tail(n)) && Low6(Tail(n)) == n % 64
  {
  }

  lemma FourBytes(n: int, rest: seq<Byte>)
    requires Scalar(n) && n >= 0x1_0000
    ensures FirstEncoded(ScalarBytes(n) + rest) == Some((n, 4))
  {
    hide Tail, IsTail, Low6;
    SixBits(n);
    TailReads(n);
    TailReads(n / 64);
    TailReads(n / 4096);
    var b := ScalarBytes(n) + rest;
    assert b[0] as int == 0xF0 + n / 0x4_0000 < 0xF5;
    assert b[1] == Tail(n / 4096) && b[2] == Tail(n / 64) && b[3] == Tail(n);
  }

  lemma ThreeBytes(n: int, rest: seq<Byte>)
    requires Scalar(n) && 0x800 <= n < 0x1_0000
    ensures FirstEncoded(ScalarBytes(n) + rest) == Some((n, 3))
  {
    SixBits(n);
    var b := ScalarBytes(n) + rest;
    assert b[1] == Tail(n / 64) && b[2] == Tail(n);
  }

  lemma ScalarRoundTrip(n: int, rest: seq<Byte>)
    requires Scalar(n)
    ensures FirstEncoded(ScalarBytes(n) + rest) == Some((n, |ScalarBytes(n)|))
  {
    if n >= 0x1_0000 { FourBytes(n, rest); }
    else if n >= 0x800 { ThreeBytes(n, rest); }
    else { SixBits(n); }
  }

  lemma UnitsRoundTrip(s: JsString)
    requires s != [] && (StartsWithPair(s) || !(IsHigh(s[0]) || IsLow(s[0])))
    ensures ScalarUnits(FirstScalar(s)) == s[..Width(s)]
  {
    if StartsWithPair(s) {
      var h, l := s[0] as int - 0xD800, s[1] as int - 0xDC00;
      var n := FirstScalar(s);
      assert n - 0x1_0000 == h * 0x400 + l;
      assert (n - 0x1_0000) / 0x400 == h && (n - 0x1_0000) % 0x400 == l;
    }
  }

  /** What encoding keeps: every text decodes to itself with lone surrogates replaced. */
  function Replaced(s: JsString): JsString
    decreases |s|
  {
    if s == [] then [] else ScalarUnits(FirstScalar(s)) + Replaced(s[Width(s)..])
  }

  lemma {:induction false} DecodeEncode(s: JsString)
    ensures Decode(Encode(s)) == Some(Replaced(s))
    decreases |s|
  {
    if s != [] {
      var rest := s[Width(s)..];
      var n := FirstScalar(s);
      ScalarRoundTrip(n, Encode(rest));
      DecodeEncode(rest);
      assert Encode(s)[|ScalarBytes(n)|..] == Encode(rest);
    }
  }

  lemma {:induction false} ReplacedSame(s: JsString)
    ensures |Replaced(s)| == |s|
    ensures Replaced(s) == s <==> WellFormedText(s)
    decreases |s|
  {
    if s != [] {
      var rest, first := s[Width(s)..], ScalarUnits(FirstScalar(s));
      ReplacedSame(rest);
      assert |first| == Width(s);
      assert Replaced(s)[Width(s)..] == Replaced(rest) && Replaced(s)[..Width(s)] == first;
      SplitAt(s, Width(s));
      if StartsWithPair(s) || !(IsHigh(s[0]) || IsLow(s[0])) {
        UnitsRoundTrip(s);
      } else {
        assert Replaced(s)[0] == 0xFFFD;
      }
    }
  }

  lemma {:induction false} ReplacedWellFormed(s: JsString)
    ensures WellFormedText(Replaced(s))
    decreases |s|
  {
    if s != [] {
      var n, rest := FirstScalar(s), Replaced(s[Width(s)..]);
      ReplacedWellFormed(s[Width(s)..]);
      ScalarFirst(n, rest);
    }
  }

  lemma ScalarFirst(n: int, rest: JsString)
    requires Scalar(n) && WellFormedText(rest)
    ensures WellFormedText(ScalarUnits(n) + rest)
  {
    var s := ScalarUnits(n) + rest;
    if n >= 0x1_0000 {
      assert 0 <= (n - 0x1_0000) / 0x400 < 0x400;
      assert StartsWithPair(s) && s[2..] == rest;
    } else {
      assert s[0] == n as CodeUnit && s[1..] == rest;
    }
  }

  /** A text survives encoding and decoding exactly when no surrogate stands alone. */
  lemma {:induction false} RoundTripExactly(s: JsString)
    ensures Decode(Encode(s)) == Some(s) <==> WellFormedText(s)
  {
    DecodeEncode(s);
    ReplacedSame(s);
  }

  /** `TextDecoder` drops a leading byte order mark. */
  function StripBom(text: JsString): JsString {
    if text != [] && text[0] == 0xFEFF then text[1..] else text
  }

  // ----- the bytes, spelled out

  /** One byte below 0x80, and lead bytes with tails of six bits above: a letter, e with an acute accent, the euro
      sign, and a grinning face. */
  lemma KnownBytes()
    ensures Encode([0x41]) == [0x41]
    ensures Encode([0xE9]) == [0xC3, 0xA9]
    ensures Encode([0x20AC]) == [0xE2, 0x82, 0xAC]
    ensures Encode([0xD83D, 0xDE00]) == [0xF0, 0x9F, 0x98, 0x80]
    ensures Encode([0xD83D]) == [0xEF, 0xBF, 0xBD]
  {
    OneScalar([0x41]);
    OneScalar([0xE9]);
    OneScalar([0x20AC]);
    OneScalar([0xD83D, 0xDE00]);
    OneScalar([0xD83D]);
  }

  lemma OneScalar(s: JsString)
    requires s != [] && Width(s) == |s|
    ensures Encode(s) == ScalarBytes(FirstScalar(s))
  {
    assert s[Width(s)..] == [] && Encode([]) == [];
  }
}
