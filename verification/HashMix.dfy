/**
 The 64-bit hash of (bizID, key): FNV-1a, here any function, followed by a salted mixing step.
 */
module HashMix {
  import opened GoInt
  import opened Words

  const PRIME1: Word := 11400714819323198485
  const PRIME2: Word := 14029467366897019727
  const PRIME3: Word := 1609587929392839161

  /** The inverses of the two odd multipliers modulo 2^64. */
  const INVERSE2: Word := 839798700976720815
  const INVERSE3: Word := 16855272203555305545

  function XorWord(x: Word, y: Word): Word {
    Pow2Values();
    XorFits(x, y, 64);
    Xor(x, y)
  }

  function Times(x: Word, c: Word): Word { (x * c) % TWO_64 }

  /** `bits.RotateLeft64` by the k with low == 2^(64-k) and high == 2^k. */
  function Rotate(x: Word, low: int, high: int): Word
    requires low > 0 && high > 0 && low * high == TWO_64
  {
    RotateFits(x, low, high);
    (x % low) * high + x / low
  }

  lemma RotateFits(x: Word, low: int, high: int)
    requires low > 0 && high > 0 && low * high == TWO_64
    ensures 0 <= x / low < high && 0 <= (x % low) * high + x / low < TWO_64
  {
    assert x == low * (x / low) + x % low;
    if x / low >= high { MulAtLeast(low, high, x / low); }
    if x / low < 0 { MulAtLeast(low, x / low, -1); }
    MulAtLeast(high, x % low + 1, low);
    MulAtLeast(high, 0, x % low);
    assert high * (x % low + 1) == (x % low) * high + high && high * low == low * high;
  }

  /** `mixHash` after the salt has been added in. */
  function Scramble(x: Word): Word {
    var y := Times(Rotate(x, 0x8_0000_0000_0000, 0x2000), PRIME2);
    var z := Times(Rotate(y, 0x8_0000_0000, 0x2000_0000), PRIME3);
    Rotate(z, 0x2_0000_0000, 0x8000_0000)
  }

  /** The steps of `Scramble` undone in reverse order. */
  function Unscramble(x: Word): Word {
    var z := Rotate(x, 0x8000_0000, 0x2_0000_0000);
    var y := Rotate(Times(z, INVERSE3), 0x2000_0000, 0x8_0000_0000);
    Rotate(Times(y, INVERSE2), 0x2000, 0x8_0000_0000_0000)
  }

  function Salted(salt: Word): Word { (salt + PRIME1) % TWO_64 }

  /** `mixHash`. */
  function Mix(h: Word, salt: Word): Word { Scramble(XorWord(h, Salted(salt))) }

  function Unmix(h: Word, salt: Word): Word { XorWord(Unscramble(h), Salted(salt)) }

  lemma RotateInverts(x: Word, low: int, high: int)
    requires low > 0 && high > 0 && low * high == TWO_64
    ensures high * low == TWO_64 && Rotate(Rotate(x, low, high), high, low) == x
  {
    var y := Rotate(x, low, high);
    RotateFits(x, low, high);
    assert y == high * (x % low) + x / low;
    DivModUnique(y, high, x % low, x / low);
    assert x == low * (x / low) + x % low;
  }

  lemma TimesInverts(x: Word, c: Word, d: Word, k: int)
    requires c * d == k * TWO_64 + 1
    ensures Times(Times(x, c), d) == x
  {
    var q, r := (x * c) / TWO_64, (x * c) % TWO_64;
    assert x * c == q * TWO_64 + r;
    calc {
      r * d;
      (x * c - q * TWO_64) * d;
      x * (c * d) - q * d * TWO_64;
      x * (k * TWO_64 + 1) - q * d * TWO_64;
      TWO_64 * (x * k - q * d) + x;
    }
    DivModUnique(r * d, TWO_64, x * k - q * d, x);
  }

  lemma Inverses()
    ensures PRIME2 * INVERSE2 == (PRIME2 * INVERSE2 / TWO_64) * TWO_64 + 1
    ensures PRIME3 * INVERSE3 == (PRIME3 * INVERSE3 / TWO_64) * TWO_64 + 1
    ensures INVERSE2 * PRIME2 == (PRIME2 * INVERSE2 / TWO_64) * TWO_64 + 1
    ensures INVERSE3 * PRIME3 == (PRIME3 * INVERSE3 / TWO_64) * TWO_64 + 1
  {
  }

  /** For every salt the mixing step loses nothing and reaches everything: it is a bijection on
      64-bit words, with `Unmix` as its inverse on both sides. */
  lemma MixIsBijective(h: Word, salt: Word)
    ensures Unmix(Mix(h, salt), salt) == h
    ensures Mix(Unmix(h, salt), salt) == h
  {
    MixThenUnmix(h, salt);
    UnmixThenMix(h, salt);
  }

  lemma MixThenUnmix(h: Word, salt: Word)
    ensures Unmix(Mix(h, salt), salt) == h
  {
    hide Scramble, Unscramble, XorWord;
    UnscrambleInverts(XorWord(h, Salted(salt)));
    SaltInverts(h, Salted(salt));
  }

  lemma UnmixThenMix(h: Word, salt: Word)
    ensures Mix(Unmix(h, salt), salt) == h
  {
    hide Scramble, Unscramble, XorWord;
    ScrambleInverts(h);
    SaltInverts(Unscramble(h), Salted(salt));
  }

  lemma UnscrambleInverts(x: Word)
    ensures Unscramble(Scramble(x)) == x
  {
    hide Rotate, Times;
    Inverses();
    var b := Rotate(x, 0x8_0000_0000_0000, 0x2000);
    var c := Rotate(Times(b, PRIME2), 0x8_0000_0000, 0x2000_0000);
    RotateInverts(Times(c, PRIME3), 0x2_0000_0000, 0x8000_0000);
    TimesInverts(c, PRIME3, INVERSE3, PRIME3 * INVERSE3 / TWO_64);
    RotateInverts(Times(b, PRIME2), 0x8_0000_0000, 0x2000_0000);
    TimesInverts(b, PRIME2, INVERSE2, PRIME2 * INVERSE2 / TWO_64);
    RotateInverts(x, 0x8_0000_0000_0000, 0x2000);
  }

  lemma ScrambleInverts(x: Word)
    ensures Scramble(Unscramble(x)) == x
  {
    hide Rotate, Times;
    Inverses();
    var a := Rotate(x, 0x8000_0000, 0x2_0000_0000);
    var b := Rotate(Times(a, INVERSE3), 0x2000_0000, 0x8_0000_0000);
    RotateInverts(Times(b, INVERSE2), 0x2000, 0x8_0000_0000_0000);
    TimesInverts(b, INVERSE2, PRIME2, PRIME2 * INVERSE2 / TWO_64);
    RotateInverts(Times(a, INVERSE3), 0x2000_0000, 0x8_0000_0000);
    TimesInverts(a, INVERSE3, PRIME3, PRIME3 * INVERSE3 / TWO_64);
    RotateInverts(x, 0x8000_0000, 0x2_0000_0000);
  }

  lemma SaltInverts(h: Word, s: Word)
    ensures XorWord(XorWord(h, s), s) == h
  {
    XorInverts(h, s);
  }

  /** Two words under two salts are mixed to the same word if and only if the words differ by exactly what
      the salts differ by once the first prime has been added. */
  lemma MixCollidesExactly(h: Word, a: Word, k: Word, b: Word)
    ensures Mix(h, a) == Mix(k, b) <==> Xor(h, k) == Xor((a + PRIME1) % TWO_64, (b + PRIME1) % TWO_64)
  {
    hide Scramble, Unscramble, Xor;
    var x, y := XorWord(h, Salted(a)), XorWord(k, Salted(b));
    UnscrambleInverts(x);
    UnscrambleInverts(y);
    XorMoves(h, Salted(a), k, Salted(b));
  }

  /** Two keys of one business are mixed to the same word only if FNV already made them equal. */
  lemma MixSeparates(h1: Word, h2: Word, salt: Word)
    ensures Mix(h1, salt) == Mix(h2, salt) <==> h1 == h2
  {
    hide *;
    MixThenUnmix(h1, salt);
    MixThenUnmix(h2, salt);
  }

  /** The same word of two businesses is always mixed to two words: the salt tells them apart. */
  lemma SaltSeparates(h: Word, a: Word, b: Word)
    ensures Mix(h, a) == Mix(h, b) <==> a == b
  {
    hide Scramble, Unscramble, Xor;
    MixCollidesExactly(h, a, h, b);
    XorSelf(h);
    XorZeroExactly(Salted(a), Salted(b));
  }

  /** Rotation and product from quotient and remainder. */
  lemma RotateValue(x: Word, low: int, high: int, q: int, r: int)
    requires low > 0 && high > 0 && low * high == TWO_64 && x == low * q + r && 0 <= r < low
    ensures Rotate(x, low, high) == r * high + q
  {
    DivModUnique(x, low, q, r);
  }

  lemma TimesValue(x: Word, c: Word, q: int, r: Word)
    requires x * c == TWO_64 * q + r
    ensures Times(x, c) == r
  {
    DivModUnique(x * c, TWO_64, q, r);
  }

  /** The mixed word of zeros, step by step: it fixes the order of the steps and their constants. */
  lemma MixOfZeros()
    ensures Mix(0, 0) == 1500638383987425216
  {
    hide Rotate, Times;
    assert XorWord(0, Salted(0)) == PRIME1;
    RotateValue(11400714819323198485, 2251799813685248, 8192, 5062, 2104162448473109);
    TimesValue(17237298777891713990, 14029467366897019727, 13109637111653970337, 9752299572437466138);
    RotateValue(9752299572437466138, 34359738368, 536870912, 283829273, 10977819674);
    TimesValue(5893672060435751961, 1609587929392839161, 514257875014229754, 12377580076817362257);
    RotateValue(12377580076817362257, 8589934592, 2147483648, 1440939968, 698789201);
  }

  function FormatInt(n: int): string {
    if n < 0 then "-" + Decimal(-n) else Decimal(n)
  }

  /** The text that FNV reads. */
  function CombinedKey(bizID: int64, key: string): string { FormatInt(bizID) + ":" + key }

  /** The text of an int64 is its digits behind its sign. */
  predicate ReadsAs(text: string, n: int) {
    if n < 0 then text != "" && text[0] == '-' && Digits(text[1..]) && Parse(text[1..]) == 0 - n
    else Digits(text) && Parse(text) == n
  }

  lemma FormatIntReads(n: int)
    ensures ReadsAs(FormatInt(n), n)
  {
    DecimalParses(if n < 0 then 0 - n else n);
    if n < 0 { assert FormatInt(n)[1..] == Decimal(0 - n); }
  }

  /** The text is the business in decimal, a ':' and the key. */
  lemma CombinedKeyReads(bizID: int64, key: string) returns (n: nat)
    ensures var text := CombinedKey(bizID, key);
            n < |text| && ReadsAs(text[..n], bizID) && text[n] == ':' && text[n + 1..] == key
  {
    hide ReadsAs;
    FormatIntReads(bizID);
    n := |FormatInt(bizID)|;
    assert CombinedKey(bizID, key)[..n] == FormatInt(bizID);
  }

  /** Two keys are combined to the same text only if business and key agree. */
  lemma CombinedKeysDiffer(a: int64, k: string, b: int64, l: string)
    ensures CombinedKey(a, k) == CombinedKey(b, l) <==> a == b && k == l
  {
    if CombinedKey(a, k) == CombinedKey(b, l) {
      SplitAtFirst(FormatInt(a), k, FormatInt(b), l, ':');
      FormatIntInjective(a, b);
    }
  }

  lemma FormatIntInjective(a: int, b: int)
    requires FormatInt(a) == FormatInt(b)
    ensures a == b
  {
    assert a < 0 <==> FormatInt(a)[0] == '-' by { if a >= 0 { assert Decimal(a)[0] in Decimal(a); } }
    assert b < 0 <==> FormatInt(b)[0] == '-' by { if b >= 0 { assert Decimal(b)[0] in Decimal(b); } }
    if a < 0 && b < 0 {
      assert FormatInt(a)[1..] == Decimal(-a) && FormatInt(b)[1..] == Decimal(-b);
      DecimalInjective(-a, -b);
    } else if a >= 0 && b >= 0 {
      DecimalInjective(a, b);
    }
  }

  /** `Hash`: the sign bit is masked off. */
  function Hash(fnv: string -> Word, bizID: int64, key: string): nat {
    And(Mix(fnv(CombinedKey(bizID, key)), ToWord(bizID)), Mask(63))
  }

  /** The hash is a non-negative int64, and drops exactly the top bit of the mixed word. */
  lemma HashIsNonNegative(fnv: string -> Word, bizID: int64, key: string)
    ensures Hash(fnv, bizID, key) <= MAX_INT64
    ensures Hash(fnv, bizID, key) == Mix(fnv(CombinedKey(bizID, key)), ToWord(bizID)) % TWO_63
  {
    hide Mix;
    AndMask(Mix(fnv(CombinedKey(bizID, key)), ToWord(bizID)), 63);
    Pow2Values();
  }
}
