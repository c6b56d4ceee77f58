/**
 Bit operations of C on non-negative numbers, defined bit by bit, with the facts that turn
 masks and shifts into arithmetic.
 */
module Bits {

  /** `a << k` without an upper end; doubling keeps every fact about it linear. */
  function Shl(a: nat, k: nat): (r: nat)
    ensures a <= r
  {
    if k == 0 then a else 2 * Shl(a, k - 1)
  }

  function Pow2(k: nat): (r: nat)
    ensures r >= 1
  {
    Shl(1, k)
  }

  function Xor(a: nat, b: nat): nat
    decreases a + b
  {
    if a == 0 && b == 0 then 0 else 2 * Xor(a / 2, b / 2) + (a + b) % 2
  }

  /** The number of zero bits below the lowest one bit. */
  function TrailingZeros(v: nat): nat
    requires v > 0
  {
    if v % 2 == 1 then 0 else 1 + TrailingZeros(v / 2)
  }

  lemma {:induction false} XorUnfold(x: nat, y: nat, a: nat, b: nat)
    ensures Xor(x + 2 * a, y + 2 * b) == 2 * Xor(x / 2 + a, y / 2 + b) + (x + y) % 2
  {
    hide Xor;
    var u, v := x + 2 * a, y + 2 * b;
    Doubled(x, a);
    Doubled(y, b);
    Doubled(x + y, a + b);
    XorHalves(u, v);
    assert (u + v) % 2 == (x + y) % 2;
  }

  lemma Doubled(x: nat, a: nat)
    ensures (x + 2 * a) / 2 == x / 2 + a && (x + 2 * a) % 2 == x % 2
  {
  }

  lemma XorHalves(x: nat, y: nat)
    ensures Xor(x, y) == 2 * Xor(x / 2, y / 2) + (x + y) % 2
  {
  }

  lemma {:induction false} XorBound(k: nat, x: nat, y: nat)
    requires x < Pow2(k) && y < Pow2(k)
    ensures Xor(x, y) < Pow2(k)
    decreases k
  {
    if k > 0 { XorBound(k - 1, x / 2, y / 2); }
  }

  lemma HalvesBelow(k: nat, x: nat, y: nat)
    requires k > 0 && x < Pow2(k) && y < Pow2(k)
    ensures x / 2 < Pow2(k - 1) && y / 2 < Pow2(k - 1)
  {
  }

  lemma ShlTwice(a: nat, b: nat, c: nat, k: nat)
    requires k > 0
    ensures Shl(a, k) == 2 * Shl(a, k - 1) && Shl(b, k) == 2 * Shl(b, k - 1) && Shl(c, k) == 2 * Shl(c, k - 1)
  {
  }

  lemma BelowOne(x: nat, y: nat)
    requires x < Pow2(0) && y < Pow2(0)
    ensures x == y == 0 && Xor(0, 0) == 0 && Or(0, 0) == 0
  {
  }

  lemma ShlNone(a: nat)
    ensures Shl(a, 0) == a
  {
  }

  lemma XorStep(x: nat, y: nat, a: nat, b: nat, c: nat)
    requires Xor(x / 2 + a, y / 2 + b) == Xor(x / 2, y / 2) + c
    ensures Xor(x + 2 * a, y + 2 * b) == Xor(x, y) + 2 * c
  {
    hide Xor;
    XorUnfold(x, y, 0, 0);
    XorUnfold(x, y, a, b);
  }

  /** Exclusive or works on the low and the high bits separately. */
  lemma {:induction false} XorHigh(k: nat, x: nat, y: nat, a: nat, b: nat)
    requires x < Pow2(k) && y < Pow2(k)
    ensures Xor(x + Shl(a, k), y + Shl(b, k)) == Xor(x, y) + Shl(Xor(a, b), k)
    decreases k
  {
    hide Xor, Shl, Pow2;
    if k > 0 {
      HalvesBelow(k, x, y);
      XorHigh(k - 1, x / 2, y / 2, a, b);
      ShlTwice(a, b, Xor(a, b), k);
      XorStep(x, y, Shl(a, k - 1), Shl(b, k - 1), Shl(Xor(a, b), k - 1));
    } else {
      BelowOne(x, y);
      ShlNone(a);
      ShlNone(b);
      ShlNone(Xor(a, b));
    }
  }

  lemma {:induction false} XorZero(a: nat, b: nat)
    ensures Xor(a, b) == 0 <==> a == b
    decreases a + b
  {
    if a != 0 || b != 0 { XorZero(a / 2, b / 2); }
  }

  lemma {:induction false} TrailingZerosHigh(k: nat, x: nat, t: nat)
    requires x < Pow2(k) && x + Shl(t, k) > 0
    ensures x > 0 ==> TrailingZeros(x + Shl(t, k)) < k
    ensures x == 0 ==> t > 0 && TrailingZeros(x + Shl(t, k)) == k + TrailingZeros(t)
    decreases k
  {
    if k > 0 {
      assert (x + Shl(t, k)) / 2 == x / 2 + Shl(t, k - 1);
      if x % 2 == 0 { TrailingZerosHigh(k - 1, x / 2, t); }
    }
  }

  // ----- shifts -----

  function Shr(a: nat, k: nat): (r: nat)
    ensures r <= a
  {
    if k == 0 then a else Shr(a, k - 1) / 2
  }

  lemma {:induction false} ShlShl(a: nat, i: nat, j: nat)
    ensures Shl(Shl(a, i), j) == Shl(a, i + j)
    decreases j
  {
    if j > 0 { ShlShl(a, i, j - 1); }
  }

  lemma {:induction false} ShlPlus(a: nat, b: nat, k: nat)
    ensures Shl(a + b, k) == Shl(a, k) + Shl(b, k)
    decreases k
  {
    if k > 0 { ShlPlus(a, b, k - 1); }
  }

  lemma {:induction false} ShlOrder(a: nat, b: nat, k: nat)
    ensures a < b <==> Shl(a, k) < Shl(b, k)
    ensures a == b <==> Shl(a, k) == Shl(b, k)
    decreases k
  {
    if k > 0 { ShlOrder(a, b, k - 1); }
  }

  /** A shift to the right keeps the high bits and drops a remainder below `2^k`. */
  lemma {:induction false} ShrSplit(a: nat, k: nat) returns (low: nat)
    ensures a == Shl(Shr(a, k), k) + low && low < Pow2(k)
    decreases k
  {
    low := 0;
    if k > 0 {
      var l := ShrSplit(a, k - 1);
      var h := Shr(a, k - 1);
      ShlPlus(2 * (h / 2), h % 2, k - 1);
      ShlShl(h / 2, 1, k - 1);
      assert Shl(h / 2, 1) == 2 * (h / 2);
      assert Shl(h % 2, k - 1) <= Pow2(k - 1) by { ShlOrder(h % 2, 1, k - 1); }
      low := l + Shl(h % 2, k - 1);
    }
  }

  /** The split into high part and remainder is unique. */
  lemma ShrUnique(a: nat, k: nat, high: nat, low: nat)
    requires a == Shl(high, k) + low && low < Pow2(k)
    ensures Shr(a, k) == high
  {
    var l := ShrSplit(a, k);
    var h := Shr(a, k);
    if h < high {
      ShlPlus(h, high - h, k);
      ShlOrder(0, high - h, k);
      OneOrMore(high - h, k);
    } else if high < h {
      ShlPlus(high, h - high, k);
      OneOrMore(h - high, k);
    }
  }

  lemma {:induction false} OneOrMore(a: nat, k: nat)
    requires a >= 1
    ensures Pow2(k) <= Shl(a, k)
    decreases k
  {
    if k > 0 { OneOrMore(a, k - 1); }
  }

  lemma {:induction false} ShlIsProduct(a: nat, k: nat)
    ensures Shl(a, k) == a * Pow2(k)
    decreases k
  {
    if k > 0 {
      ShlIsProduct(a, k - 1);
      assert a * (2 * Pow2(k - 1)) == 2 * (a * Pow2(k - 1));
    }
  }

  lemma {:induction false} ShlZero(k: nat)
    ensures Shl(0, k) == 0
    decreases k
  {
    if k > 0 { ShlZero(k - 1); }
  }

  lemma PowSum(i: nat, j: nat)
    ensures Pow2(i + j) == Pow2(i) * Pow2(j)
  {
    ShlShl(1, i, j);
    ShlIsProduct(Pow2(i), j);
  }

  lemma SmallPowers()
    ensures Pow2(1) == 2 && Pow2(8) == 0x100 && Pow2(11) == 0x800 && Pow2(16) == 0x1_0000
  {
  }

  lemma Powers()
    ensures Pow2(1) == 2 && Pow2(8) == 0x100 && Pow2(11) == 0x800 && Pow2(16) == 0x1_0000
    ensures Pow2(20) == 0x10_0000 && Pow2(21) == 0x20_0000
    ensures Pow2(23) == 0x80_0000 && Pow2(24) == 0x100_0000 && Pow2(31) == 0x8000_0000
    ensures Pow2(32) == 0x1_0000_0000
    ensures Pow2(52) == 0x10_0000_0000_0000 && Pow2(53) == 0x20_0000_0000_0000
  {
    hide Shl, Pow2;
    SmallPowers();
    PowSum(8, 1);
    PowSum(11, 9);
    PowSum(20, 1);
    PowSum(8, 16);
    PowSum(23, 1);
    PowSum(31, 1);
    PowSum(23, 8);
    PowSum(21, 31);
    PowSum(52, 1);
  }

  // ----- inclusive or -----

  function Or(a: nat, b: nat): nat
    decreases a + b
  {
    if a == 0 && b == 0 then 0 else 2 * Or(a / 2, b / 2) + (if a % 2 == 1 || b % 2 == 1 then 1 else 0)
  }

  /** Or-ing in bits below a shifted value is adding them. */
  lemma {:induction false} OrLow(a: nat, k: nat, low: nat)
    requires low < Pow2(k)
    ensures Or(Shl(a, k), low) == Shl(a, k) + low && Or(low, Shl(a, k)) == Shl(a, k) + low
    decreases k
  {
    if k == 0 {
      OrZero(a);
    } else {
      OrLow(a, k - 1, low / 2);
    }
  }

  lemma {:induction false} OrZero(a: nat)
    ensures Or(a, 0) == a && Or(0, a) == a
    decreases a
  {
    if a > 0 { OrZero(a / 2); }
  }

  lemma {:induction false} OrUnfold(x: nat, y: nat, a: nat, b: nat)
    ensures Or(x + 2 * a, y + 2 * b) == 2 * Or(x / 2 + a, y / 2 + b) + (if x % 2 == 1 || y % 2 == 1 then 1 else 0)
  {
    var u, v := x + 2 * a, y + 2 * b;
    assert u / 2 == x / 2 + a && v / 2 == y / 2 + b && u % 2 == x % 2 && v % 2 == y % 2;
    assert Or(u, v) == 2 * Or(u / 2, v / 2) + (if u % 2 == 1 || v % 2 == 1 then 1 else 0);
  }

  lemma {:induction false} OrBound(k: nat, x: nat, y: nat)
    requires x < Pow2(k) && y < Pow2(k)
    ensures Or(x, y) < Pow2(k)
    decreases k
  {
    if k > 0 { OrBound(k - 1, x / 2, y / 2); }
  }

  lemma OrStep(x: nat, y: nat, a: nat, b: nat, c: nat)
    requires Or(x / 2 + a, y / 2 + b) == Or(x / 2, y / 2) + c
    ensures Or(x + 2 * a, y + 2 * b) == Or(x, y) + 2 * c
  {
    hide Or;
    OrUnfold(x, y, 0, 0);
    OrUnfold(x, y, a, b);
  }

  /** Inclusive or works on the low and the high bits separately. */
  lemma {:induction false} OrHigh(k: nat, x: nat, y: nat, a: nat, b: nat)
    requires x < Pow2(k) && y < Pow2(k)
    ensures Or(x + Shl(a, k), y + Shl(b, k)) == Or(x, y) + Shl(Or(a, b), k)
    decreases k
  {
    hide Or, Shl, Pow2;
    if k > 0 {
      HalvesBelow(k, x, y);
      OrHigh(k - 1, x / 2, y / 2, a, b);
      ShlTwice(a, b, Or(a, b), k);
      OrStep(x, y, Shl(a, k - 1), Shl(b, k - 1), Shl(Or(a, b), k - 1));
    } else {
      BelowOne(x, y);
      ShlNone(a);
      ShlNone(b);
      ShlNone(Or(a, b));
    }
  }

  // ----- remainders -----

  lemma {:induction false} MultipleAtLeast(b: nat, k: int)
    ensures k > 0 ==> b <= b * k
    ensures k < 0 ==> b * k + b <= 0
    decreases if k < 0 then -k else k
  {
    if k > 1 {
      MultipleAtLeast(b, k - 1);
    } else if k < -1 {
      MultipleAtLeast(b, k + 1);
    }
  }

  lemma ModIs(a: nat, b: nat, q: nat, r: nat)
    requires a == b * q + r && r < b
    ensures a / b == q && a % b == r
  {
    var k := a / b - q;
    assert a == b * (a / b) + a % b;
    assert b * k == b * (a / b) - b * q;
    MultipleAtLeast(b, k);
  }

  lemma ModPlus(a: nat, b: nat)
    requires b > 0
    ensures (a + b) % b == a % b
  {
    assert b * (a / b + 1) == b * (a / b) + b;
    ModIs(a + b, b, a / b + 1, a % b);
  }

  lemma ModDouble(a: nat, b: nat)
    requires b > 0
    ensures (2 * a) % (2 * b) == 2 * (a % b)
  {
    assert (2 * b) * (a / b) == 2 * (b * (a / b));
    ModIs(2 * a, 2 * b, a / b, 2 * (a % b));
  }

  /** Adding a shifted divisor leaves the remainder alone. */
  lemma {:induction false} ModShl(a: nat, b: nat, k: nat)
    requires b > 0
    ensures (a + Shl(b, k)) % b == a % b
    decreases k
  {
    if k == 0 {
      ModPlus(a, b);
    } else {
      ModShl(a + Shl(b, k - 1), b, k - 1);
      ModShl(a, b, k - 1);
    }
  }

  /** Scaling both sides by a power of two scales the remainder. */
  lemma {:induction false} ShlMod(a: nat, b: nat, k: nat)
    requires b > 0
    ensures Shl(a, k) % Shl(b, k) == Shl(a % b, k)
    decreases k
  {
    if k > 0 {
      ShlMod(a, b, k - 1);
      ModDouble(Shl(a, k - 1), Shl(b, k - 1));
    }
  }
}
