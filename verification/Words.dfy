/** 64-bit words as natural numbers, with the bitwise operations defined bit by bit. */
module Words {
  import opened GoInt

  type Word = x: nat | x < TWO_64

  /** The bit pattern of an int64. */
  function ToWord(x: int): Word { x % TWO_64 }

  function And(x: nat, y: nat): nat {
    if x == 0 then 0 else 2 * And(x / 2, y / 2) + if x % 2 == 1 && y % 2 == 1 then 1 else 0
  }

  function Or(x: nat, y: nat): nat
    decreases x + y
  {
    if x == 0 then y else if y == 0 then x
    else 2 * Or(x / 2, y / 2) + if x % 2 == 1 || y % 2 == 1 then 1 else 0
  }

  function Xor(x: nat, y: nat): nat
    decreases x + y
  {
    if x == 0 then y else if y == 0 then x
    else 2 * Xor(x / 2, y / 2) + if x % 2 != y % 2 then 1 else 0
  }

  /** The word of `bits` ones. */
  function Mask(bits: nat): nat { Pow2(bits) - 1 }

  lemma {:induction false} AndMask(x: nat, bits: nat)
    ensures And(x, Mask(bits)) == x % Pow2(bits)
  {
    if bits == 0 {
      AndZero(x);
      DivModUnique(x, 1, x, 0);
    } else if x == 0 {
      DivModUnique(0, Pow2(bits), 0, 0);
    } else {
      AndMask(x / 2, bits - 1);
      HalfRemainder(x, Pow2(bits - 1));
      MaskHalves(bits);
    }
  }

  lemma MaskHalves(bits: nat)
    requires bits > 0
    ensures Mask(bits) / 2 == Mask(bits - 1) && Mask(bits) % 2 == 1
  {
  }

  lemma {:induction false} AndZero(x: nat)
    ensures And(x, 0) == 0
  {
    if x > 0 { AndZero(x / 2); }
  }

  lemma HalfRemainder(x: nat, p: nat)
    requires p >= 1
    ensures x % (2 * p) == 2 * ((x / 2) % p) + x % 2
  {
    var h := x / 2;
    assert h == p * (h / p) + h % p;
    assert x == (2 * p) * (h / p) + (2 * (h % p) + x % 2);
    DivModUnique(x, 2 * p, h / p, 2 * (h % p) + x % 2);
  }

  /** A field shifted above another joins it by addition. */
  lemma {:induction false} OrShifted(a: nat, b: nat, bits: nat)
    requires b < Pow2(bits)
    ensures Or(a * Pow2(bits), b) == a * Pow2(bits) + b
  {
    if bits > 0 && a > 0 && b > 0 {
      var x := a * Pow2(bits);
      assert x == 2 * (a * Pow2(bits - 1));
      MulAtLeast(a, 1, Pow2(bits));
      OrShifted(a, b / 2, bits - 1);
    }
  }

  lemma {:induction false} XorInverts(x: nat, y: nat)
    ensures Xor(Xor(x, y), y) == x
    decreases x + y
  {
    if x == 0 {
      XorSelf(y);
    } else if y > 0 {
      XorInverts(x / 2, y / 2);
      XorHalves(x, y);
      XorHalves(Xor(x, y), y);
    }
  }

  lemma {:induction false} XorSelf(y: nat)
    ensures Xor(y, y) == 0
  {
    if y > 0 { XorSelf(y / 2); }
  }

  lemma {:induction false} XorZeroExactly(x: nat, y: nat)
    ensures Xor(x, y) == 0 <==> x == y
    decreases x + y
  {
    if x > 0 || y > 0 {
      XorHalves(x, y);
      XorZeroExactly(x / 2, y / 2);
    }
  }

  /** What two words differ from two others by can be moved across. */
  lemma {:induction false} XorMoves(h: nat, a: nat, k: nat, b: nat)
    ensures Xor(h, a) == Xor(k, b) <==> Xor(h, k) == Xor(a, b)
    decreases h + a + k + b
  {
    if h + a + k + b > 0 {
      XorMoves(h / 2, a / 2, k / 2, b / 2);
      XorHalves(h, a);
      XorHalves(k, b);
      XorHalves(h, k);
      XorHalves(a, b);
      hide Xor;
      SameByHalves(Xor(h, a), Xor(k, b));
      SameByHalves(Xor(h, k), Xor(a, b));
    }
  }

  lemma SameByHalves(x: nat, y: nat)
    ensures x == y <==> x / 2 == y / 2 && x % 2 == y % 2
  {
  }

  lemma XorHalves(x: nat, y: nat)
    ensures Xor(x, y) / 2 == Xor(x / 2, y / 2) && Xor(x, y) % 2 == if x % 2 != y % 2 then 1 else 0
  {
    if x == 0 || y == 0 { assert Xor(0, y / 2) == y / 2; }
  }

  lemma {:induction false} XorFits(x: nat, y: nat, bits: nat)
    requires x < Pow2(bits) && y < Pow2(bits)
    ensures Xor(x, y) < Pow2(bits)
  {
    if bits > 0 && x > 0 && y > 0 { XorFits(x / 2, y / 2, bits - 1); }
  }
}
