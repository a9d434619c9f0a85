/**
 What the shipped fingerprint can tell apart for certain: lists of different lengths, and lists whose texts differ
 in a single character. The rest is up to chance.
 */
module FingerprintDetects {
  import opened Text
  import opened SoftwareDelta
  import opened F = Fingerprint

  // ----- the digits can be read back -----

  function DigitValue(c: char): int {
    if '0' <= c <= '9' then c as int - '0' as int else c as int - 'a' as int + 10
  }

  function ValueOf(s: string, base: nat): int {
    if s == "" then 0 else ValueOf(s[..|s| - 1], base) * base + DigitValue(s[|s| - 1])
  }

  lemma DigitIsRead(n: nat)
    requires n < 36
    ensures DigitValue(Digit(n)) == n
  {
  }

  lemma ValueOfOneMore(front: string, c: char, base: nat)
    ensures ValueOf(front + [c], base) == ValueOf(front, base) * base + DigitValue(c)
  {
    assert (front + [c])[..|front|] == front;
  }

  lemma Dividing(n: nat, base: nat, quotient: int)
    requires base > 0 && quotient == n / base
    ensures quotient * base + n % base == n
  {
  }

  lemma {:induction false} DigitsReadBack(n: nat, base: nat, width: nat)
    requires 2 <= base <= 36
    ensures ValueOf(Digits(n, base, width), base) == n
    decreases n, width, 1
  {
    if n > 0 || width > 0 {
      var front := FrontDigits(n, base, width);
      LastDigit(front, n, base);
    }
  }

  lemma FrontDigits(n: nat, base: nat, width: nat) returns (front: string)
    requires 2 <= base <= 36 && (n > 0 || width > 0)
    ensures Digits(n, base, width) == front + [Digit(n % base)]
    ensures ValueOf(front, base) == n / base
    decreases n, width, 0
  {
    var w := if width == 0 then 0 else width - 1;
    if n > 0 {
      DividingShrinks(n, base);
      DigitsReadBack(n / base, base, w);
      OneMoreDigit(n, base, width);
    } else {
      DigitsReadBack(0, base, w);
      OneMoreZero(base, width);
    }
    front := Digits(n / base, base, w);
  }

  lemma OneMoreDigit(n: nat, base: nat, width: nat)
    requires 2 <= base <= 36 && n > 0
    ensures Digits(n, base, width) == Digits(n / base, base, if width == 0 then 0 else width - 1) + [Digit(n % base)]
  {
    DividingShrinks(n, base);
  }

  lemma OneMoreZero(base: nat, width: nat)
    requires 2 <= base <= 36 && width > 0
    ensures 0 / base == 0 && 0 % base == 0
    ensures Digits(0, base, width) == Digits(0, base, width - 1) + [Digit(0)]
  {
  }

  lemma LastDigit(front: string, n: nat, base: nat)
    requires 2 <= base <= 36 && ValueOf(front, base) == n / base
    ensures ValueOf(front + [Digit(n % base)], base) == n
  {
    ValueOfOneMore(front, Digit(n % base), base);
    DigitIsRead(n % base);
    Dividing(n, base, ValueOf(front, base));
  }

  function Hex(h: bv32): (s: string)
    ensures |s| == 8
  {
    HexFits(h);
    Digits(h as nat, 16, 8)
  }

  lemma HexIsExact(h: bv32, g: bv32)
    requires Hex(h) == Hex(g)
    ensures h == g
  {
    DigitsReadBack(h as nat, 16, 8);
    DigitsReadBack(g as nat, 16, 8);
    SameNumber(h, g);
  }

  lemma SameNumber(h: bv32, g: bv32)
    requires h as nat == g as nat
    ensures h == g
  {
    assert (h as nat) as bv32 == h && (g as nat) as bv32 == g;
  }

  lemma PartsAgree(a: string, x: string, y: string, z: string, b: string, u: string, v: string, w: string)
    requires |x| == |y| == |z| == |u| == |v| == |w| == 8
    requires "1-" + a + "-" + x + y + z == "1-" + b + "-" + u + v + w
    ensures a == b && x == u && y == v && z == w
  {
    var s, t := "1-" + a + "-" + x + y + z, "1-" + b + "-" + u + v + w;
    assert |a| == |b|;
    assert a == s[2..2 + |a|] && b == t[2..2 + |b|];
    assert x == s[3 + |a|..11 + |a|] && u == t[3 + |b|..11 + |b|];
    assert y == s[11 + |a|..19 + |a|] && v == t[11 + |b|..19 + |b|];
    assert z == s[19 + |a|..] && w == t[19 + |b|..];
  }

  predicate SameHash(s: string, t: string, seed: bv32) {
    Hash32(s, seed) == Hash32(t, seed)
  }

  function Written(count: nat, h: bv32, g: bv32, k: bv32): string {
    "1-" + Digits(count, 36, 1) + "-" + Hex(h) + Hex(g) + Hex(k)
  }

  lemma WrittenIsExact(n: nat, h: bv32, g: bv32, k: bv32, m: nat, x: bv32, y: bv32, z: bv32)
    requires Written(n, h, g, k) == Written(m, x, y, z)
    ensures n == m && h == x && g == y && k == z
  {
    PartsAgree(Digits(n, 36, 1), Hex(h), Hex(g), Hex(k), Digits(m, 36, 1), Hex(x), Hex(y), Hex(z));
    DigitsReadBack(n, 36, 1);
    DigitsReadBack(m, 36, 1);
    HexIsExact(h, x);
    HexIsExact(g, y);
    HexIsExact(k, z);
  }

  /** Two lists share a fingerprint exactly when they are as long and their texts share all three hashes. */
  lemma SameFingerprintIff(l: Software, m: Software)
    ensures Fingerprint(l) == Fingerprint(m)
      <==> && |l| == |m|
           && SameHash(CanonicalText(l), CanonicalText(m), 0x811c9dc5)
           && SameHash(CanonicalText(l), CanonicalText(m), 0x01000193)
           && SameHash(CanonicalText(l), CanonicalText(m), 0x9e3779b9)
  {
    if Fingerprint(l) == Fingerprint(m) {
      var s, t := CanonicalText(l), CanonicalText(m);
      WrittenIsExact(|l|, Hash32(s, 0x811c9dc5), Hash32(s, 0x01000193), Hash32(s, 0x9e3779b9),
                     |m|, Hash32(t, 0x811c9dc5), Hash32(t, 0x01000193), Hash32(t, 0x9e3779b9));
    }
  }

  // ----- every step of a hash can be undone -----

  function Back13(h: bv32): bv32 {
    h ^ (h >> 13) ^ (h >> 26)
  }

  function BackFirst(h: bv32): bv32 {
    h * 2781581891
  }

  function BackSecond(h: bv32): bv32 {
    h * 2127672349
  }

  function BackMix(h: bv32): bv32 {
    h * 899433627
  }

  function Xor(h: bv32, k: bv32): bv32 {
    h ^ k
  }

  lemma Undo16(h: bv32)
    ensures XorShift16(h ^ (h >> 16)) == h
  {
  }

  lemma Undo13(h: bv32)
    ensures Back13(h ^ (h >> 13)) == h
  {
  }

  lemma UndoFirst(h: bv32)
    ensures BackFirst(h * 2246822507) == h
  {
  }

  lemma UndoSecond(h: bv32)
    ensures BackSecond(h * 3266489909) == h
  {
  }

  lemma UndoMix(h: bv32)
    ensures BackMix(h * 16777619) == h
  {
  }

  lemma UndoXor(h: bv32, k: bv32)
    ensures Xor(h ^ k, k) == h && Xor(h ^ k, h) == k
  {
  }

  lemma XorShift16Undone(h: bv32)
    ensures XorShift16(XorShift16(h)) == h
  {
    Undo16(h);
  }

  lemma XorShift13Undone(h: bv32)
    ensures Back13(XorShift13(h)) == h
  {
    Undo13(h);
  }

  lemma FirstFactorUndone(h: bv32)
    ensures BackFirst(FirstFactor(h)) == h
  {
    UndoFirst(h);
  }

  lemma SecondFactorUndone(h: bv32)
    ensures BackSecond(SecondFactor(h)) == h
  {
    UndoSecond(h);
  }

  lemma FinishUndone(h: bv32)
    ensures XorShift16(BackFirst(Back13(BackSecond(XorShift16(Finish(h)))))) == h
  {
    XorShift16Undone(SecondFactor(XorShift13(FirstFactor(XorShift16(h)))));
    SecondFactorUndone(XorShift13(FirstFactor(XorShift16(h))));
    XorShift13Undone(FirstFactor(XorShift16(h)));
    FirstFactorUndone(XorShift16(h));
    XorShift16Undone(h);
  }

  lemma FinishIsExact(h: bv32, g: bv32)
    requires Finish(h) == Finish(g)
    ensures h == g
  {
    FinishUndone(h);
    FinishUndone(g);
  }

  lemma UndoStep(h: bv32, k: bv32)
    ensures Xor(BackMix((h ^ k) * 16777619), k) == h && Xor(BackMix((h ^ k) * 16777619), h) == k
  {
    UndoMix(h ^ k);
    UndoXor(h, k);
  }

  lemma MixStepUndone(h: bv32, k: bv32)
    ensures Xor(BackMix(MixStep(h, k)), k) == h && Xor(BackMix(MixStep(h, k)), h) == k
  {
    UndoStep(h, k);
  }

  lemma SameStart(h: bv32, g: bv32, k: bv32)
    requires MixStep(h, k) == MixStep(g, k)
    ensures h == g
  {
    MixStepUndone(h, k);
    MixStepUndone(g, k);
  }

  lemma SameUnit(h: bv32, k: bv32, j: bv32)
    requires MixStep(h, k) == MixStep(h, j)
    ensures k == j
  {
    MixStepUndone(h, k);
    MixStepUndone(h, j);
  }

  // ----- a text is mixed in character by character -----

  lemma {:induction false} MixConcat(front: string, back: string, h: bv32)
    ensures Mix(front + back, h) == Mix(back, Mix(front, h))
  {
    if front == [] {
      assert front + back == back;
    } else {
      TailOfConcat(front, back);
      MixConcat(front[1..], back, MixStep(h, CodeUnit(front[0])));
    }
  }

  lemma MixOne(c: char, back: string, h: bv32)
    ensures Mix([c] + back, h) == Mix(back, MixStep(h, CodeUnit(c)))
  {
    assert ([c] + back)[1..] == back;
  }

  lemma {:induction false} MixIsExact(text: string, h: bv32, g: bv32)
    requires Mix(text, h) == Mix(text, g)
    ensures h == g
  {
    if text != [] {
      var k := CodeUnit(text[0]);
      MixIsExact(text[1..], MixStep(h, k), MixStep(g, k));
      SameStart(h, g, k);
    }
  }

  /** A single character that is changed, anywhere in the text, changes the hash, whatever the seed. */
  lemma OneCharacterChangesTheHash(front: string, c: char, d: char, back: string, seed: bv32)
    requires Hash32(front + ([c] + back), seed) == Hash32(front + ([d] + back), seed)
    ensures CodeUnit(c) == CodeUnit(d)
  {
    var h := Mix(front, seed);
    FinishIsExact(Mix(front + ([c] + back), seed), Mix(front + ([d] + back), seed));
    MixConcat(front, [c] + back, seed);
    MixConcat(front, [d] + back, seed);
    MixOne(c, back, h);
    MixOne(d, back, h);
    MixIsExact(back, MixStep(h, CodeUnit(c)), MixStep(h, CodeUnit(d)));
    SameUnit(h, CodeUnit(c), CodeUnit(d));
  }

  /**
   Where the change between two lists comes to one character of the text, as when one digit of one version goes up,
   the fingerprint changes for certain; so it does when there are more packages or fewer.
   */
  lemma SmallChangesAreNoticed(l: Software, m: Software)
    requires Fingerprint(l) == Fingerprint(m)
    ensures |l| == |m|
    ensures forall front, c, d, back ::
              CanonicalText(l) == front + ([c] + back) && CanonicalText(m) == front + ([d] + back)
              ==> CodeUnit(c) == CodeUnit(d)
  {
    SameFingerprintIff(l, m);
    forall front, c, d, back
      | CanonicalText(l) == front + ([c] + back) && CanonicalText(m) == front + ([d] + back)
      ensures CodeUnit(c) == CodeUnit(d)
    {
      OneCharacterChangesTheHash(front, c, d, back, 0x811c9dc5);
    }
  }
}
