/** Go's fixed-width integers: the mathematical value is computed first and then wrapped. */
module GoInt {
  const TWO_31: int := 0x8000_0000
  const TWO_32: int := 0x1_0000_0000
  const TWO_63: int := 0x8000_0000_0000_0000
  const TWO_64: int := 0x1_0000_0000_0000_0000
  const MIN_INT64: int := -0x8000_0000_0000_0000
  const MAX_INT64: int := 0x7FFF_FFFF_FFFF_FFFF

  type int64 = x: int | MIN_INT64 <= x <= MAX_INT64
  type int32 = x: int | -0x8000_0000 <= x < 0x8000_0000

  /** Two's-complement wrapping to 64 bits. */
  function Wrap64(x: int): (r: int64)
    ensures MIN_INT64 <= x <= MAX_INT64 ==> r == x
  {
    (x + TWO_63) % TWO_64 - TWO_63
  }

  lemma WrapCongruent(x: int)
    ensures (x - Wrap64(x)) % TWO_64 == 0
  {
  }

  /** Wrapping early does not change a wrapped sum. */
  lemma WrapAdds(a: int, b: int)
    ensures Wrap64(Wrap64(a) + b) == Wrap64(a + b)
  {
    WrapCongruent(a);
    var k := (a - Wrap64(a)) / TWO_64;
    assert Wrap64(a) + b == a + b - k * TWO_64;
  }

  lemma WrapSlides(s: int, a: int, b: int)
    ensures Wrap64(Wrap64(Wrap64(s) - a) + b) == Wrap64(s - a + b)
  {
    WrapAdds(s, -a);
    WrapAdds(s - a, b);
  }

  /** Two's-complement wrapping to 32 bits. */
  function Wrap32(x: int): (r: int32)
    ensures -TWO_31 <= x < TWO_31 ==> r == x
    ensures (x - r) % TWO_32 == 0
  {
    (x + TWO_31) % TWO_32 - TWO_31
  }

  /** Go's `/`: the quotient is truncated toward zero. */
  function TruncDiv(a: int, b: int): int
    requires b > 0
  {
    if a >= 0 then a / b else -(-a / b)
  }

  function Min(a: int, b: int): int { if a <= b then a else b }

  function Max(a: int, b: int): int { if a >= b then a else b }

  function Pow2(n: nat): (r: int)
    ensures r >= 1
  {
    if n == 0 then 1 else 2 * Pow2(n - 1)
  }

  lemma {:induction false} Pow2Monotone(a: nat, b: nat)
    requires a <= b
    ensures Pow2(a) <= Pow2(b)
    decreases b
  {
    if a < b { Pow2Monotone(a, b - 1); }
  }

  lemma {:induction false} Pow2Sum(a: nat, b: nat)
    ensures Pow2(a + b) == Pow2(a) * Pow2(b)
  {
    if a > 0 { Pow2Sum(a - 1, b); }
  }

  lemma Pow2Values()
    ensures Pow2(62) == 0x4000_0000_0000_0000
    ensures Pow2(63) == TWO_63
    ensures Pow2(64) == TWO_64
  {
    assert Pow2(8) == 0x100;
    Pow2Sum(8, 8);
    Pow2Sum(16, 16);
    Pow2Sum(32, 32);
    assert Pow2(64) == 2 * Pow2(63) == 4 * Pow2(62);
  }

  lemma MulAtLeast(a: int, b: int, c: int)
    requires a >= 0 && b <= c
    ensures a * b <= a * c
  {
    assert a * (c - b) >= 0;
  }

  /** Division by a variable: quotient and remainder are determined. */
  lemma {:induction false} DivModUnique(x: int, m: int, d: int, r: int)
    requires m > 0 && x == m * d + r && 0 <= r < m
    ensures x / m == d && x % m == r
  {
    var q := x / m;
    assert x == m * q + x % m;
    assert m * (d + 1) == m * d + m && m * (q + 1) == m * q + m;
    if q > d { MulAtLeast(m, d + 1, q); }
    if q < d { MulAtLeast(m, q + 1, d); }
  }

  lemma ModShift(x: int, m: int, k: int)
    requires m > 0
    ensures (x + m * k) % m == x % m
  {
    assert x == m * (x / m) + x % m;
    assert m * (x / m) + m * k == m * (x / m + k);
    DivModUnique(x + m * k, m, x / m + k, x % m);
  }

  /** A remainder may be taken modulo a multiple first. */
  lemma ModOfMod(x: int, n: int, c: int)
    requires n > 0 && c > 0
    ensures n * c > 0 && (x % (n * c)) % n == x % n
  {
    MulAtLeast(n, 1, c);
    var q := x / (n * c);
    assert x == (n * c) * q + x % (n * c);
    assert (n * c) * q == n * (c * q);
    ModShift(x % (n * c), n, c * q);
  }

  /** The decimal digits of a natural number, as `%d` prints them. */
  function Decimal(n: nat): (s: string)
    ensures |s| > 0
    ensures forall c | c in s :: '0' <= c <= '9'
  {
    var digit := [('0' as int + n % 10) as char];
    if n < 10 then digit else Decimal(n / 10) + digit
  }

  predicate Digits(s: string) { |s| > 0 && forall i | 0 <= i < |s| :: '0' <= s[i] <= '9' }

  /** The number that a text of digits stands for, read from the left. */
  function Parse(s: string): nat
    requires forall i | 0 <= i < |s| :: '0' <= s[i] <= '9'
  {
    if s == "" then 0 else 10 * Parse(s[..|s| - 1]) + (s[|s| - 1] as int - '0' as int)
  }

  /** Printing and reading back; and there is no leading zero. */
  lemma {:induction false} DecimalParses(n: nat)
    ensures Digits(Decimal(n)) && Parse(Decimal(n)) == n
    ensures n > 0 ==> Decimal(n)[0] != '0'
  {
    var s := Decimal(n);
    assert forall i | 0 <= i < |s| :: s[i] in s;
    DecimalParts(n);
    if n >= 10 {
      DecimalParses(n / 10);
      assert s == Decimal(n / 10) + [s[|s| - 1]];
    }
  }

  lemma {:induction false} DecimalInjective(a: nat, b: nat)
    requires Decimal(a) == Decimal(b)
    ensures a == b
    decreases a + b
  {
    DecimalParts(a);
    DecimalParts(b);
    if a >= 10 && b >= 10 { DecimalInjective(a / 10, b / 10); }
  }

  lemma DecimalParts(n: nat)
    ensures var s := Decimal(n); |s| > 0 && s[|s| - 1] as int == '0' as int + n % 10
                                 && s[..|s| - 1] == if n < 10 then "" else Decimal(n / 10)
  {
  }

  /** A text is split in one way at the first occurrence of a character. */
  lemma SplitAtFirst(x: string, p: string, y: string, q: string, c: char)
    requires c !in x && c !in y && (x + [c]) + p == (y + [c]) + q
    ensures x == y && p == q
  {
    var t, u := (x + [c]) + p, (y + [c]) + q;
    assert t[|x|] == c && u[|y|] == c;
    assert forall i | 0 <= i < |x| :: t[i] == x[i];
    assert forall i | 0 <= i < |y| :: u[i] == y[i];
    assert t[..|x|] == x && u[..|y|] == y && t[|x| + 1..] == p && u[|y| + 1..] == q;
  }

  /** A text is split in one way at the last occurrence of a character. */
  lemma SplitAtLast(p: string, x: string, q: string, y: string, c: char)
    requires c !in x && c !in y && (p + [c]) + x == (q + [c]) + y
    ensures p == q && x == y
  {
    var t, u := (p + [c]) + x, (q + [c]) + y;
    assert t[|p|] == c && u[|q|] == c;
    assert forall i | |p| < i < |t| :: t[i] == x[i - |p| - 1];
    assert forall i | |q| < i < |u| :: u[i] == y[i - |q| - 1];
    assert t[..|p|] == p && u[..|q|] == q && t[|p| + 1..] == x && u[|q| + 1..] == y;
  }

  lemma SubsetSize<T>(a: set<T>, b: set<T>)
    requires a <= b
    ensures |a| <= |b|
  {
    assert b == a + (b - a);
  }

  ghost predicate IsLeast(s: set<nat>, m: nat) {
    m in s && forall x | x in s :: m <= x
  }

  lemma {:induction false} LeastExists(s: set<nat>)
    requires s != {}
    ensures exists m :: IsLeast(s, m)
    decreases |s|
  {
    var x :| x in s;
    if s == {x} {
      assert IsLeast(s, x);
    } else {
      LeastExists(s - {x});
      var m :| IsLeast(s - {x}, m);
      var least := if m <= x then m else x;
      forall y | y in s ensures least <= y {
        if y != x { assert y in s - {x}; }
      }
      assert IsLeast(s, least);
    }
  }
}
