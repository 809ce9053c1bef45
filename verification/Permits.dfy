/** Which recovery permits can be signed: their JSON goes through an encoder for byte strings. */
module Permits {
  import opened Prelude
  import opened JsText
  import opened Json
  import opened Base64

  /** Every unit is a byte, or a surrogate that stands alone, which JSON escapes. */
  predicate Signable(intent: JsString)
    decreases |intent|
  {
    intent == []
    || ((intent[0] < 256 || (!StartsWithPair(intent) && (IsHigh(intent[0]) || IsLow(intent[0]))))
        && Signable(intent[Width(intent)..]))
  }

  lemma BinaryParts(a: JsString, b: JsString)
    ensures IsBinary(a + b) <==> IsBinary(a) && IsBinary(b)
  {
    if IsBinary(a + b) {
      forall i | 0 <= i < |a| ensures a[i] < 256 { assert (a + b)[i] < 256; }
      forall i | 0 <= i < |b| ensures b[i] < 256 { assert (a + b)[|a| + i] < 256; }
    }
  }

  lemma PieceBinary(s: JsString)
    requires s != []
    ensures IsBinary(Piece(s)) <==> s[0] < 256 || (!StartsWithPair(s) && (IsHigh(s[0]) || IsLow(s[0])))
  {
    if StartsWithPair(s) { assert s[..2][0] == s[0]; }
  }

  lemma {:induction false} QuotedBinaryExactly(s: JsString)
    ensures IsBinary(QuoteBody(s)) <==> Signable(s)
    decreases |s|
  {
    hide IsBinary, Piece;
    if s == [] {
      NothingIsBinary();
    } else {
      PieceBinary(s);
      BinaryParts(Piece(s), QuoteBody(s[Width(s)..]));
      QuotedBinaryExactly(s[Width(s)..]);
    }
  }

  lemma NothingIsBinary()
    ensures IsBinary([]) && IsBinary([34])
  {
  }

  /** The rest of the payload being bytes, a permit can be encoded exactly if its intent is signable, and is then
      read back whole. */
  lemma PermitEncodableExactly(before: JsString, intent: JsString, after: JsString)
    requires IsBinary(before) && IsBinary(after)
    ensures var json := before + Quote(intent) + after;
            && (Base64Url(json).Some? <==> Signable(intent))
            && (Base64Url(json).Some? ==> FromBase64Url(Base64Url(json).value) == Some(json))
  {
    hide IsBinary, QuoteBody, Base64Url, FromBase64Url, Signable;
    NothingIsBinary();
    QuotedBinaryExactly(intent);
    BinaryParts([34], QuoteBody(intent));
    BinaryParts([34] + QuoteBody(intent), [34]);
    BinaryParts(before, Quote(intent));
    BinaryParts(before + Quote(intent), after);
    UrlRoundTrip(before + Quote(intent) + after);
  }
}
