/** FNV-1a over the 16-bit units of a string, printed as eight hexadecimal digits. Hashes are the
    unsigned reading of the source's 32-bit integers; its `^`, `Math.imul` and `>>> 0` agree with
    arithmetic modulo 2^32 on that reading. */
module Fingerprint {
  import opened JsText
  import opened Json

  const MODULUS := 0x1_0000_0000
  const OFFSET_BASIS := 0x811c9dc5
  const PRIME := 0x01000193
  /** The inverse of the prime modulo 2^32. */
  const PRIME_INVERSE := 0x359c449b

  /** Bitwise exclusive or. */
  function Xor(a: nat, b: nat): nat
    decreases a + b
  {
    if a == 0 && b == 0 then 0 else (a % 2 + b % 2) % 2 + 2 * Xor(a / 2, b / 2)
  }

  function Step(hash: nat, c: CodeUnit): nat { Xor(hash, c as nat) * PRIME % MODULUS }

  function Hash(hash: nat, s: JsString): nat
    decreases |s|
  {
    if s == [] then hash else Step(Hash(hash, s[..|s| - 1]), s[|s| - 1])
  }

  function ToHex(n: nat): JsString {
    if n < 16 then [HexDigit(n)] else ToHex(n / 16) + [HexDigit(n % 16)]
  }

  function PadStart(s: JsString, width: nat): JsString
    decreases width - |s|
  {
    if |s| < width then PadStart([48] + s, width) else s
  }

  function Fnv1a(s: JsString): JsString { PadStart(ToHex(Hash(OFFSET_BASIS, s)), 8) }

  method ComputeFnv1a(value: JsString) returns (digits: JsString)
    ensures digits == Fnv1a(value)
  {
    var hash := OFFSET_BASIS;
    for index := 0 to |value|
      invariant hash == Hash(OFFSET_BASIS, value[..index])
    {
      assert value[..index + 1][..index] == value[..index];
      hash := Xor(hash, value[index] as nat);
      hash := hash * PRIME % MODULUS;
    }
    assert value[..|value|] == value;
    digits := PadStart(ToHex(hash), 8);
  }

  // ----- the step is a bijection

  lemma XorBits(a: nat, b: nat)
    ensures Xor(a, b) / 2 == Xor(a / 2, b / 2) && Xor(a, b) % 2 == (a % 2 + b % 2) % 2
  {
  }

  lemma {:induction false} XorCommutes(a: nat, b: nat)
    ensures Xor(a, b) == Xor(b, a)
    decreases a + b
  {
    if a != 0 || b != 0 { XorCommutes(a / 2, b / 2); }
  }

  lemma FromBits(a: nat, b: nat)
    requires a / 2 == b / 2 && a % 2 == b % 2
    ensures a == b
  {
  }

  lemma UndoneBits(a: nat, b: nat, x: nat, y: nat)
    requires x % 2 == (a % 2 + b % 2) % 2 && y % 2 == (x % 2 + b % 2) % 2 && y / 2 == a / 2
    ensures y == a
  {
    BitTwice(a % 2, b % 2);
    FromBits(y, a);
  }

  lemma BitTwice(p: nat, q: nat)
    requires p < 2 && q < 2
    ensures ((p + q) % 2 + q) % 2 == p
  {
  }

  lemma {:induction false} XorUndoes(a: nat, b: nat)
    ensures Xor(Xor(a, b), b) == a
    decreases a + b
  {
    if a != 0 || b != 0 {
      XorUndoes(a / 2, b / 2);
      var x := Xor(a, b);
      XorBits(a, b);
      XorBits(x, b);
      UndoneBits(a, b, x, Xor(x, b));
    }
  }

  function Pow(base: nat, k: nat): nat {
    if k == 0 then 1 else base * Pow(base, k - 1)
  }

  lemma {:induction false} XorBound(a: nat, b: nat, k: nat)
    requires a < Pow(2, k) && b < Pow(2, k)
    ensures Xor(a, b) < Pow(2, k)
    decreases k
  {
    if k > 0 {
      XorBound(a / 2, b / 2, k - 1);
      XorBits(a, b);
    }
  }

  lemma XorStaysAWord(a: nat, b: nat)
    requires a < MODULUS && b < MODULUS
    ensures Xor(a, b) < MODULUS
  {
    assert Pow(2, 8) == 256;
    assert Pow(2, 16) == 256 * Pow(2, 8);
    assert Pow(2, 24) == 256 * Pow(2, 16);
    assert Pow(2, 32) == 256 * Pow(2, 24);
    XorBound(a, b, 32);
  }

  /** Multiplying by the prime is undone by multiplying by its inverse. */
  lemma MultiplyingByPrimeIsUndone(x: nat)
    requires x < MODULUS
    ensures x * PRIME % MODULUS * PRIME_INVERSE % MODULUS == x
  {
    var d, r := x * PRIME / MODULUS, x * PRIME % MODULUS;
    assert x * PRIME == MODULUS * d + r;
    assert PRIME * PRIME_INVERSE == 1 + 3513497 * MODULUS;
    var k := x * 3513497 - d * PRIME_INVERSE;
    assert r * PRIME_INVERSE == x + MODULUS * k;
    RemainderIs(r * PRIME_INVERSE, k, x);
  }

  lemma RemainderIs(n: int, k: int, x: int)
    requires n == x + MODULUS * k && 0 <= x < MODULUS
    ensures n % MODULUS == x
  {
  }

  /** The hash before a step is recovered from the hash after it and the unit. */
  lemma StepIsUndone(h: nat, c: CodeUnit)
    requires h < MODULUS
    ensures Step(h, c) < MODULUS
    ensures Xor(Step(h, c) * PRIME_INVERSE % MODULUS, c as nat) == h
  {
    XorStaysAWord(h, c as nat);
    MultiplyingByPrimeIsUndone(Xor(h, c as nat));
    XorUndoes(h, c as nat);
  }

  /** The unit is recovered from the hashes around it. */
  lemma UnitIsRecovered(h: nat, c: CodeUnit)
    requires h < MODULUS
    ensures Xor(Step(h, c) * PRIME_INVERSE % MODULUS, h) == c as nat
  {
    XorStaysAWord(h, c as nat);
    MultiplyingByPrimeIsUndone(Xor(h, c as nat));
    XorCommutes(h, c as nat);
    XorUndoes(c as nat, h);
  }

  lemma {:induction false} HashIsAWord(h: nat, s: JsString)
    requires h < MODULUS
    ensures Hash(h, s) < MODULUS
    decreases |s|
  {
    if s != [] { HashIsAWord(h, s[..|s| - 1]); }
  }

  ghost predicate DifferOnlyAt(s: JsString, t: JsString, i: nat) {
    && |s| == |t| && i < |s| && s[i] != t[i]
    && forall k | 0 <= k < |s| && k != i :: s[k] == t[k]
  }

  lemma {:induction false} OneUnitChangesTheHash(s: JsString, t: JsString, i: nat)
    requires DifferOnlyAt(s, t, i)
    ensures Hash(OFFSET_BASIS, s) != Hash(OFFSET_BASIS, t)
    decreases |s|
  {
    var n := |s| - 1;
    var g, h := Hash(OFFSET_BASIS, s[..n]), Hash(OFFSET_BASIS, t[..n]);
    HashIsAWord(OFFSET_BASIS, s[..n]);
    HashIsAWord(OFFSET_BASIS, t[..n]);
    if i == n {
      assert s[..n] == t[..n];
      UnitIsRecovered(g, s[n]);
      UnitIsRecovered(g, t[n]);
    } else {
      OneUnitChangesTheHash(s[..n], t[..n], i);
      StepIsUndone(g, s[n]);
      StepIsUndone(h, t[n]);
    }
  }

  // ----- the printed digits

  function DigitValue(c: CodeUnit): int { if c < 58 then c as int - 48 else c as int - 87 }

  function HexValue(s: JsString): int {
    if s == [] then 0 else HexValue(s[..|s| - 1]) * 16 + DigitValue(s[|s| - 1])
  }

  lemma {:induction false} ToHexReads(n: nat, k: nat)
    requires 0 < k && n < Pow(16, k)
    ensures HexValue(ToHex(n)) == n && |ToHex(n)| <= k
    decreases n
  {
    if n < 16 {
      assert [HexDigit(n)][..0] == [];
    } else {
      assert k > 1 by { assert Pow(16, 1) == 16 * Pow(16, 0); }
      ToHexReads(n / 16, k - 1);
      var s := ToHex(n);
      assert s[..|s| - 1] == ToHex(n / 16);
    }
  }

  lemma {:induction false} LeadingZero(s: JsString)
    ensures HexValue([48] + s) == HexValue(s)
    decreases |s|
  {
    if s == [] {
      assert ([48] + s)[..0] == [];
    } else {
      var n := |s| - 1;
      LeadingZero(s[..n]);
      assert ([48] + s)[..n + 1] == [48] + s[..n];
    }
  }

  lemma {:induction false} PadStartReads(s: JsString, width: nat)
    ensures HexValue(PadStart(s, width)) == HexValue(s)
    ensures |PadStart(s, width)| == if |s| < width then width else |s|
    decreases width - |s|
  {
    if |s| < width {
      LeadingZero(s);
      PadStartReads([48] + s, width);
    }
  }

  /** A fingerprint has eight digits and spells the hash. */
  lemma FingerprintSpellsHash(s: JsString)
    ensures |Fnv1a(s)| == 8 && HexValue(Fnv1a(s)) == Hash(OFFSET_BASIS, s)
  {
    HashIsAWord(OFFSET_BASIS, s);
    var n := Hash(OFFSET_BASIS, s);
    assert Pow(16, 4) == 65536 && Pow(16, 8) == 65536 * Pow(16, 4);
    ToHexReads(n, 8);
    PadStartReads(ToHex(n), 8);
  }

  /** Strings of equal length that differ in exactly one code unit have different fingerprints. */
  lemma OneUnitChangesTheFingerprint(s: JsString, t: JsString, i: nat)
    requires DifferOnlyAt(s, t, i)
    ensures Fnv1a(s) != Fnv1a(t)
  {
    OneUnitChangesTheHash(s, t, i);
    FingerprintSpellsHash(s);
    FingerprintSpellsHash(t);
  }

  // ----- the algorithm, spelled out

  /** Bit `k` of a number. */
  function Bit(n: nat, k: nat): nat { if k == 0 then n % 2 else Bit(n / 2, k - 1) }

  /** Exclusive or sets exactly the bits in which its arguments differ. */
  lemma {:induction false} XorBitwise(a: nat, b: nat, k: nat)
    ensures Bit(Xor(a, b), k) == if Bit(a, k) == Bit(b, k) then 0 else 1
    decreases k
  {
    XorBits(a, b);
    if k > 0 { XorBitwise(a / 2, b / 2, k - 1); }
  }

  /** The hash of no unit is 2166136261, and one unit more multiplies its exclusive or with the hash before it by
      16777619, modulo 2^32. */
  lemma FingerprintUnitByUnit(s: JsString, c: CodeUnit, before: nat)
    requires before == HexValue(Fnv1a(s))
    ensures HexValue(Fnv1a([])) == 2166136261
    ensures HexValue(Fnv1a(s + [c])) == Xor(before, c as nat) * 16777619 % 4294967296
  {
    hide Xor, Fnv1a, HexValue;
    FingerprintSpellsHash([]);
    FingerprintSpellsHash(s);
    FingerprintSpellsHash(s + [c]);
    OneUnitMore(s, c);
  }

  lemma OneUnitMore(s: JsString, c: CodeUnit)
    ensures Hash(OFFSET_BASIS, s + [c]) == Step(Hash(OFFSET_BASIS, s), c)
  {
    hide Step;
    assert (s + [c])[..|s|] == s;
  }
}
