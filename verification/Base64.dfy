/** Base64 as the worker uses it for file contents and tokens. */
module Base64 {
  import opened Prelude
  import opened JsText
  import opened Utf8

  // ----- the alphabet

  /** The value of a digit, or -1. */
  function Value(c: CodeUnit): (n: int)
    ensures -1 <= n < 64
  {
    if 65 <= c <= 90 then c as int - 65
    else if 97 <= c <= 122 then c as int - 71
    else if 48 <= c <= 57 then c as int + 4
    else if c == 43 then 62 else if c == 47 then 63 else -1
  }

  function Digit(n: int): (c: CodeUnit)
    requires 0 <= n < 64
    ensures Value(c) == n && !IsSpace(c) && c !in {45, 61, 95}
  {
    if n < 26 then (65 + n) as CodeUnit
    else if n < 52 then (71 + n) as CodeUnit
    else if n < 62 then (n - 4) as CodeUnit
    else if n == 62 then 43 else 47
  }

  // ----- btoa and atob

  /** The four digits of three bytes. */
  function Quad(x: Byte, y: Byte, z: Byte): (s: JsString)
    ensures |s| == 4
  {
    var a, b, c := x as int, y as int, z as int;
    [Digit(a / 4), Digit(a % 4 * 16 + b / 16), Digit(b % 16 * 4 + c / 64), Digit(c % 64)]
  }

  /** The three bytes of four digit values. */
  function Triple(a: int, b: int, c: int, d: int): (t: seq<Byte>)
    requires 0 <= a < 64 && 0 <= b < 64 && 0 <= c < 64 && 0 <= d < 64
    ensures |t| == 3
  {
    [(a * 4 + b / 16) as Byte, (b % 16 * 16 + c / 4) as Byte, (c % 4 * 64 + d) as Byte]
  }

  function Pack(b: seq<Byte>): JsString
    decreases |b|
  {
    if |b| == 0 then []
    else if |b| == 1 then Quad(b[0], 0, 0)[..2] + [61, 61]
    else if |b| == 2 then Quad(b[0], b[1], 0)[..3] + [61]
    else Quad(b[0], b[1], b[2]) + Pack(b[3..])
  }

  /** Unpadded digits to bytes; two or three digits left over give one or two bytes. */
  function Unpack(s: JsString): Option<seq<Byte>>
    decreases |s|
  {
    if |s| == 0 then Some([])
    else if |s| == 1 || Value(s[0]) < 0 || Value(s[1]) < 0 then None
    else if |s| == 2 then Some(Triple(Value(s[0]), Value(s[1]), 0, 0)[..1])
    else if Value(s[2]) < 0 then None
    else if |s| == 3 then Some(Triple(Value(s[0]), Value(s[1]), Value(s[2]), 0)[..2])
    else if Value(s[3]) < 0 then None
    else match Unpack(s[4..])
      case None => None
      case Some(rest) => Some(Triple(Value(s[0]), Value(s[1]), Value(s[2]), Value(s[3])) + rest)
  }

  function DropPadding(s: JsString): JsString {
    if |s| % 4 == 0 && |s| > 0 && s[|s| - 1] == 61
    then if s[|s| - 2] == 61 then s[..|s| - 2] else s[..|s| - 1]
    else s
  }

  function StripSpaces(s: JsString): JsString {
    if s == [] then [] else (if IsSpace(s[0]) then [] else [s[0]]) + StripSpaces(s[1..])
  }

  function Atob(s: JsString): Option<seq<Byte>> { Unpack(DropPadding(s)) }

  predicate IsBinary(s: JsString) {
    forall i | 0 <= i < |s| :: s[i] < 256
  }

  function Bytes(s: JsString): (b: seq<Byte>)
    requires IsBinary(s)
    ensures |b| == |s| && forall i | 0 <= i < |s| :: b[i] as int == s[i] as int
  {
    seq(|s|, i requires 0 <= i < |s| => s[i] as Byte)
  }

  /** `btoa` takes a string of bytes and fails on any other unit. */
  function Btoa(binary: JsString): Option<JsString> {
    if IsBinary(binary) then Some(Pack(Bytes(binary))) else None
  }

  function Binary(bytes: seq<Byte>): (s: JsString)
    ensures |s| == |bytes| && forall i | 0 <= i < |s| :: s[i] as int == bytes[i] as int
  {
    seq(|bytes|, i requires 0 <= i < |bytes| => bytes[i] as CodeUnit)
  }

  // ----- round trips

  lemma BitsRegroup(a: int, b: int, c: int)
    requires 0 <= a < 256 && 0 <= b < 256 && 0 <= c < 256
    ensures a / 4 * 4 + (a % 4 * 16 + b / 16) / 16 == a
    ensures (a % 4 * 16 + b / 16) % 16 * 16 + (b % 16 * 4 + c / 64) / 4 == b
    ensures (b % 16 * 4 + c / 64) % 4 * 64 + c % 64 == c
  {
  }

  lemma QuadReads(x: Byte, y: Byte, z: Byte)
    ensures var q := Quad(x, y, z);
            && (forall i | 0 <= i < 4 :: Value(q[i]) >= 0)
            && Triple(Value(q[0]), Value(q[1]), Value(q[2]), Value(q[3])) == [x, y, z]
  {
    BitsRegroup(x as int, y as int, z as int);
  }

  lemma ZeroDigits(x: Byte, y: Byte)
    ensures Value(Quad(x, y, 0)[3]) == 0 && Value(Quad(x, 0, 0)[2]) == 0
  {
  }

  lemma UnpackQuad(x: Byte, y: Byte, z: Byte, rest: JsString)
    requires Unpack(rest).Some?
    ensures Unpack(Quad(x, y, z) + rest) == Some([x, y, z] + Unpack(rest).value)
  {
    QuadReads(x, y, z);
    assert (Quad(x, y, z) + rest)[4..] == rest;
  }

  lemma UnpackOne(x: Byte)
    ensures Unpack(DropPadding(Pack([x]))) == Some([x])
  {
    var q := Quad(x, 0, 0);
    QuadReads(x, 0, 0);
    ZeroDigits(x, 0);
    var s := q[..2];
    assert Pack([x]) == [q[0], q[1], 61, 61] && DropPadding(Pack([x])) == s;
    assert Triple(Value(q[0]), Value(q[1]), 0, 0)[..1] == [x];
  }

  lemma UnpackTwo(x: Byte, y: Byte)
    ensures Unpack(DropPadding(Pack([x, y]))) == Some([x, y])
  {
    var q := Quad(x, y, 0);
    QuadReads(x, y, 0);
    ZeroDigits(x, y);
    var s := q[..3];
    assert Pack([x, y]) == [q[0], q[1], q[2], 61] && DropPadding(Pack([x, y])) == s;
    assert Triple(Value(q[0]), Value(q[1]), Value(q[2]), 0)[..2] == [x, y];
  }

  lemma PaddingInRest(group: JsString, rest: JsString)
    requires |group| == 4 && |rest| % 4 == 0 && (|rest| == 0 ==> group[3] != 61)
    ensures DropPadding(group + rest) == group + DropPadding(rest)
  {
    if |rest| == 0 { assert group + rest == group; }
  }

  lemma {:induction false} PackLength(b: seq<Byte>)
    ensures |Pack(b)| % 4 == 0
    decreases |b|
  {
    hide Quad;
    if |b| >= 3 { PackLength(b[3..]); }
  }

  lemma {:induction false} UnpackPack(b: seq<Byte>)
    ensures Unpack(DropPadding(Pack(b))) == Some(b)
    decreases |b|
  {
    if |b| == 1 {
      assert b == [b[0]];
      UnpackOne(b[0]);
    } else if |b| == 2 {
      assert b == [b[0], b[1]];
      UnpackTwo(b[0], b[1]);
    } else if |b| > 2 {
      var rest := Pack(b[3..]);
      UnpackPack(b[3..]);
      PackLength(b[3..]);
      PaddingInRest(Quad(b[0], b[1], b[2]), rest);
      UnpackQuad(b[0], b[1], b[2], DropPadding(rest));
      SplitAt(b, 3);
      assert b[..3] == [b[0], b[1], b[2]];
    }
  }

  /** Nothing in the encoder's output is white space. */
  lemma {:induction false} PackHasNoSpaces(b: seq<Byte>)
    ensures StripSpaces(Pack(b)) == Pack(b)
    decreases |b|
  {
    if |b| >= 3 {
      PackHasNoSpaces(b[3..]);
      NoSpaces(Quad(b[0], b[1], b[2]), Pack(b[3..]));
    } else if |b| > 0 {
      NoSpaces(Pack(b), []);
      assert Pack(b) + [] == Pack(b);
    }
  }

  lemma {:induction false} NoSpaces(s: JsString, rest: JsString)
    requires forall i | 0 <= i < |s| :: !IsSpace(s[i])
    ensures StripSpaces(s + rest) == s + StripSpaces(rest)
    decreases |s|
  {
    if s == [] {
      assert s + rest == rest;
    } else {
      NoSpaces(s[1..], rest);
      assert (s + rest)[1..] == s[1..] + rest;
    }
  }

  /** A text with white space put in anywhere. */
  ghost predicate Spaced(t: JsString, s: JsString)
    decreases |t|
  {
    if t == [] then s == []
    else (IsSpace(t[0]) && Spaced(t[1..], s)) || (s != [] && t[0] == s[0] && Spaced(t[1..], s[1..]))
  }

  lemma {:induction false} SpacedStrips(t: JsString, s: JsString)
    requires Spaced(t, s)
    ensures StripSpaces(t) == StripSpaces(s)
    decreases |t|
  {
    if t != [] {
      if IsSpace(t[0]) && Spaced(t[1..], s) { SpacedStrips(t[1..], s); }
      else { SpacedStrips(t[1..], s[1..]); }
    }
  }

  /** Decoding undoes the encoder for every byte sequence, wherever white space is inserted. */
  lemma DecodingUndoesEncoding(b: seq<Byte>, t: JsString)
    requires Spaced(t, Pack(b))
    ensures Atob(StripSpaces(t)) == Some(b)
  {
    SpacedStrips(t, Pack(b));
    PackHasNoSpaces(b);
    UnpackPack(b);
  }

  lemma BtoaOfBinary(b: seq<Byte>)
    ensures Btoa(Binary(b)) == Some(Pack(b))
  {
    assert Bytes(Binary(b)) == b;
  }

  // ----- texts

  const CHUNK := 0x8000

  /** `textToBase64`: the binary string is built chunk by chunk. */
  method TextToBase64(value: JsString) returns (encoded: JsString)
    ensures encoded == Pack(Encode(value))
  {
    var bytes := Encode(value);
    var binary: JsString := [];
    var offset := 0;
    while offset < |bytes|
      invariant binary == Binary(bytes[..if offset < |bytes| then offset else |bytes|])
    {
      var end := if offset + CHUNK < |bytes| then offset + CHUNK else |bytes|;
      binary := binary + Binary(bytes[offset..end]);
      assert bytes[..end] == bytes[..offset] + bytes[offset..end];
      offset := offset + CHUNK;
    }
    assert bytes[..|bytes|] == bytes;
    BtoaOfBinary(bytes);
    encoded := Btoa(binary).value;
  }

  /** `base64ToText`, with malformed base64 or UTF-8 read as `None`. */
  function Base64ToText(value: JsString): Option<JsString> {
    match Atob(StripSpaces(value))
    case None => None
    case Some(bytes) =>
      (match Decode(bytes)
       case None => None
       case Some(text) => Some(StripBom(text)))
  }

  /** A text comes back from base64 exactly when no surrogate stands alone in it and it does not
      begin with a byte order mark. */
  lemma TextRoundTripExactly(value: JsString, t: JsString)
    requires Spaced(t, Pack(Encode(value)))
    ensures Base64ToText(t) == Some(value) <==> WellFormedText(value) && !(value != [] && value[0] == 0xFEFF)
  {
    DecodingUndoesEncoding(Encode(value), t);
    DecodeEncode(value);
    ReplacedSame(value);
    var back := Replaced(value);
    if StripBom(back) == value { assert |StripBom(back)| == |back|; }
    if WellFormedText(value) && value != [] && value[0] == 0xFEFF { assert |StripBom(value)| < |value|; }
  }

  // ----- the URL alphabet

  function ToUrl(s: JsString): JsString {
    seq(|s|, i requires 0 <= i < |s| => if s[i] == 43 then 45 else if s[i] == 47 then 95 else s[i])
  }

  function FromUrl(s: JsString): JsString {
    seq(|s|, i requires 0 <= i < |s| => if s[i] == 45 then 43 else if s[i] == 95 then 47 else s[i])
  }

  function DropAllPadding(s: JsString): JsString {
    if s != [] && s[|s| - 1] == 61 then DropAllPadding(s[..|s| - 1]) else s
  }

  function Base64Url(value: JsString): Option<JsString> {
    match Btoa(value)
    case None => None
    case Some(s) => Some(DropAllPadding(ToUrl(s)))
  }

  function Pads(n: nat): JsString { seq((4 - n % 4) % 4, i => 61) }

  /** The inverse used when a token is verified: alphabet back, padding back, `atob`. */
  function FromBase64Url(payload: JsString): Option<JsString> {
    match Atob(FromUrl(payload) + Pads(|payload|))
    case None => None
    case Some(bytes) => Some(Binary(bytes))
  }

  function Padding(n: nat): nat { (3 - n % 3) % 3 }

  lemma PaddingPeriod(n: nat)
    ensures Padding(n + 3) == Padding(n) && (n + 3 + 2) / 3 == (n + 2) / 3 + 1
  {
  }

  lemma QuadIsDigits(x: Byte, y: Byte, z: Byte)
    ensures forall i | 0 <= i < 4 :: Quad(x, y, z)[i] !in {45, 61, 95}
  {
  }

  /** The encoder's output: digits of the alphabet, then the padding. */
  lemma {:induction false} PackShape(b: seq<Byte>)
    ensures |Pack(b)| == (|b| + 2) / 3 * 4
    ensures forall i | 0 <= i < |Pack(b)| :: Pack(b)[i] != 45 && Pack(b)[i] != 95
    ensures forall i | 0 <= i < |Pack(b)| :: Pack(b)[i] == 61 <==> i >= |Pack(b)| - Padding(|b|)
    decreases |b|
  {
    hide Quad;
    if |b| == 1 {
      QuadIsDigits(b[0], 0, 0);
    } else if |b| == 2 {
      QuadIsDigits(b[0], b[1], 0);
    } else if |b| >= 3 {
      PackShape(b[3..]);
      PaddingPeriod(|b[3..]|);
      QuadIsDigits(b[0], b[1], b[2]);
      var q, rest := Quad(b[0], b[1], b[2]), Pack(b[3..]);
      assert Pack(b) == q + rest;
      assert |rest| >= Padding(|b|);
      forall i | 0 <= i < |Pack(b)| ensures Pack(b)[i] == 61 <==> i >= |Pack(b)| - Padding(|b|) {
        if i >= 4 { assert Pack(b)[i] == rest[i - 4]; }
      }
    }
  }

  lemma {:induction false} DropAllPaddingCuts(s: JsString, k: nat)
    requires k <= |s| && forall i | 0 <= i < |s| :: s[i] == 61 <==> i >= k
    ensures DropAllPadding(s) == s[..k]
    decreases |s|
  {
    if |s| > k {
      DropAllPaddingCuts(s[..|s| - 1], k);
    } else {
      assert s[..k] == s;
    }
  }

  lemma UrlIsRestored(packed: JsString, k: nat)
    requires k <= |packed| && (4 - k % 4) % 4 == |packed| - k
    requires forall i | 0 <= i < |packed| :: packed[i] != 45 && packed[i] != 95
    requires forall i | 0 <= i < |packed| :: packed[i] == 61 <==> i >= k
    ensures var url := DropAllPadding(ToUrl(packed)); FromUrl(url) + Pads(|url|) == packed
  {
    DropAllPaddingCuts(ToUrl(packed), k);
  }

  /** A byte string comes back from the URL alphabet whole; any other string is refused at encoding. */
  lemma UrlRoundTrip(value: JsString)
    ensures Base64Url(value).Some? <==> IsBinary(value)
    ensures Base64Url(value).Some? ==> FromBase64Url(Base64Url(value).value) == Some(value)
  {
    if IsBinary(value) {
      var b := Bytes(value);
      PackShape(b);
      PadsRestored(|b|);
      UrlIsRestored(Pack(b), |Pack(b)| - Padding(|b|));
      UnpackPack(b);
      assert Binary(b) == value;
    }
  }

  lemma PadsRestored(n: nat)
    ensures (4 - ((n + 2) / 3 * 4 - Padding(n)) % 4) % 4 == Padding(n)
  {
  }

  // ----- the alphabet, spelled out

  /** The examples of section 10 of RFC 4648, one with its last digits, and their URL forms. */
  lemma KnownEncodings()
    ensures Btoa(Units("")) == Some(Units("")) && Btoa(Units("f")) == Some(Units("Zg=="))
    ensures Btoa(Units("fo")) == Some(Units("Zm8=")) && Btoa(Units("foo")) == Some(Units("Zm9v"))
    ensures Btoa(Units("foobar")) == Some(Units("Zm9vYmFy")) && Btoa([251, 255, 191]) == Some(Units("+/+/"))
    ensures Base64Url(Units("f")) == Some(Units("Zg")) && Base64Url([251, 255, 191]) == Some(Units("-_-_"))
  {
    hide Btoa, Base64Url;
    ShortGroups();
    LongGroups();
    UrlGroups();
    assert Units("") == [] && Units("f") == [102] && Units("fo") == [102, 111] && Units("foo") == [102, 111, 111];
    assert Units("foobar") == [102, 111, 111, 98, 97, 114];
    assert Units("Zg==") == [90, 103, 61, 61] && Units("Zm8=") == [90, 109, 56, 61];
    assert Units("Zm9v") == [90, 109, 57, 118] && Units("Zm9vYmFy") == [90, 109, 57, 118, 89, 109, 70, 121];
    assert Units("+/+/") == [43, 47, 43, 47] && Units("-_-_") == [45, 95, 45, 95] && Units("Zg") == [90, 103];
  }

  lemma ShortGroups()
    ensures Btoa([]) == Some([]) && Btoa([102]) == Some([90, 103, 61, 61])
    ensures Btoa([102, 111]) == Some([90, 109, 56, 61])
  {
    var one: seq<Byte>, two: seq<Byte> := [102], [102, 111];
    assert Bytes([]) == [] && Bytes([102]) == one && Bytes([102, 111]) == two;
    assert Quad(102, 0, 0)[..2] == [90, 103] && Quad(102, 111, 0)[..3] == [90, 109, 56];
    assert Pack(one) == [90, 103] + [61, 61] == [90, 103, 61, 61];
    assert Pack(two) == [90, 109, 56] + [61] == [90, 109, 56, 61];
    assert IsBinary([102]) && IsBinary([102, 111]);
  }

  lemma KnownQuads()
    ensures Quad(102, 111, 111) == [90, 109, 57, 118] && Quad(98, 97, 114) == [89, 109, 70, 121]
    ensures Quad(251, 255, 191) == [43, 47, 43, 47]
  {
  }

  lemma LongGroups()
    ensures Btoa([102, 111, 111]) == Some([90, 109, 57, 118]) && Btoa([251, 255, 191]) == Some([43, 47, 43, 47])
    ensures Btoa([102, 111, 111, 98, 97, 114]) == Some([90, 109, 57, 118, 89, 109, 70, 121])
  {
    hide Quad, Pack, Btoa;
    KnownQuads();
    OneGroup(102, 111, 111);
    OneGroup(98, 97, 114);
    OneGroup(251, 255, 191);
    var six: seq<Byte> := [102, 111, 111, 98, 97, 114];
    TwoGroups(six);
    assert Binary(six) == [102, 111, 111, 98, 97, 114];
    assert Quad(six[0], six[1], six[2]) + Quad(six[3], six[4], six[5]) == [90, 109, 57, 118, 89, 109, 70, 121];
  }

  lemma TwoGroups(b: seq<Byte>)
    requires |b| == 6
    ensures Btoa(Binary(b)) == Some(Quad(b[0], b[1], b[2]) + Quad(b[3], b[4], b[5]))
    ensures Binary(b) == [b[0] as CodeUnit, b[1] as CodeUnit, b[2] as CodeUnit,
                          b[3] as CodeUnit, b[4] as CodeUnit, b[5] as CodeUnit]
  {
    hide Quad;
    assert Bytes(Binary(b)) == b && b[3..] == [b[3], b[4], b[5]];
    OneGroup(b[3], b[4], b[5]);
  }

  lemma UrlGroups()
    ensures Base64Url([102]) == Some([90, 103]) && Base64Url([251, 255, 191]) == Some([45, 95, 45, 95])
  {
    hide Btoa;
    ShortGroups();
    LongGroups();
    assert ToUrl([43, 47, 43, 47]) == [45, 95, 45, 95] && ToUrl([90, 103, 61, 61]) == [90, 103, 61, 61];
    var padded: JsString := [90, 103, 61, 61];
    assert padded[..3] == [90, 103, 61] && padded[..3][..2] == [90, 103];
    assert DropAllPadding(padded) == DropAllPadding(padded[..3]) == DropAllPadding([90, 103]) == [90, 103];
  }

  lemma OneGroup(x: Byte, y: Byte, z: Byte)
    ensures Pack([x, y, z]) == Quad(x, y, z)
    ensures Btoa([x as CodeUnit, y as CodeUnit, z as CodeUnit]) == Some(Quad(x, y, z))
  {
    assert [x, y, z][3..] == [];
    assert Bytes([x as CodeUnit, y as CodeUnit, z as CodeUnit]) == [x, y, z];
  }
}
