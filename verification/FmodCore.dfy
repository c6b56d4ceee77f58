/** The arithmetic that both widths of `fmod` share: shift and subtract, and why it is exact. */
module FmodCore {
  import opened Bits

  /**
   A finite number of magnitude `v` (in units of the least subnormal) whose significand, shifted up until its
   top bit is bit `p`, is `m` with exponent `e` (counted from the least subnormal).
   */
  ghost predicate Scaled(v: nat, p: nat, m: nat, e: nat) {
    Shl(v, p) == Shl(m, e)
  }

  /** The remainder of a division, as a name of its own. */
  function Rem(a: nat, b: nat): (r: nat)
    requires 0 < b
    ensures r < b
  {
    a % b
  }

  lemma RemBelow(a: nat, b: nat)
    requires a < 2 * b
    ensures a < b ==> Rem(a, b) == a
    ensures b <= a ==> Rem(a, b) == a - b
  {
    if b <= a { ModIs(a, b, 1, a - b); } else { ModIs(a, b, 0, a); }
  }

  /** The remainder of the significands, in the scale of the divisor, is the remainder of the numbers. */
  lemma RemainderIsExact(p: nat, vx: nat, vy: nat, mx: nat, my: nat, ex: nat, ey: nat)
    requires Scaled(vx, p, mx, ex) && Scaled(vy, p, my, ey) && ey <= ex && 0 < my
    ensures 0 < vy && Scaled(Rem(vx, vy), p, Rem(Shl(mx, ex - ey), my), ey)
  {
    ShlZero(ey);
    ShlZero(p);
    ShlOrder(0, my, ey);
    ShlOrder(0, vy, p);
    ShlShl(mx, ex - ey, ey);
    ShlMod(vx, vy, p);
    ShlMod(Shl(mx, ex - ey), my, ey);
  }

  /** Of two numbers with normalised significands, the one with the smaller exponent is the smaller. */
  lemma ExponentOrder(p: nat, vx: nat, vy: nat, mx: nat, my: nat, ex: nat, ey: nat)
    requires Scaled(vx, p, mx, ex) && Scaled(vy, p, my, ey) && ex < ey
    requires mx < Pow2(p + 1) && Pow2(p) <= my
    ensures vx < vy
  {
    ShlOrder(vx, vy, p);
    ShlShl(my, ey - ex, ex);
    ShlOrder(mx, Shl(my, ey - ex), ex);
    ShlOrder(my, Pow2(p), 1);
    assert Shl(Pow2(p), 1) == Pow2(p + 1) by { assert Shl(Pow2(p), 0) == Pow2(p); }
    GrowShl(my, 1, ey - ex);
  }

  /** One round that keeps the remainder: double what is below the divisor ... */
  lemma KeepRound(x: nat, y: nat, n: nat)
    requires 0 < y && 0 < n
    ensures Rem(Shl(2 * x, n - 1), y) == Rem(Shl(x, n), y)
  {
    hide Shl, Rem;
    ShlShl(x, 1, n - 1);
    ShlOnce(x);
  }

  lemma ShlOnce(x: nat)
    ensures Shl(x, 1) == 2 * x
  {
    assert Shl(x, 0) == x;
  }

  /** Adding a shifted divisor leaves the remainder alone. */
  lemma RemShl(a: nat, y: nat, n: nat)
    requires 0 < y
    ensures Rem(a + Shl(y, n), y) == Rem(a, y)
  {
    hide Shl;
    ModShl(a, y, n);
  }

  /** ... or subtract the divisor and double. */
  lemma SubtractRound(x: nat, y: nat, n: nat)
    requires 0 < y <= x && 0 < n
    ensures Rem(Shl(2 * (x - y), n - 1), y) == Rem(Shl(x, n), y)
  {
    hide Shl, Rem;
    KeepRound(x - y, y, n);
    ShlPlus(x - y, y, n);
    RemShl(Shl(x - y, n), y, n);
  }

  lemma {:induction false} ZeroRemainder(y: nat, n: nat)
    requires 0 < y
    ensures Rem(Shl(y, n), y) == 0
    decreases n
  {
    ModShl(0, y, n);
    assert 0 % y == 0;
  }

  /**
   A subnormal result: its normalised significand `m`, shifted right by the missing exponents, is the number
   itself, and the shift drops only zero bits.
   */
  lemma SubnormalResult(p: nat, v: nat, m: nat, e: nat, n: nat)
    requires Scaled(v, p, m, e) && e + n == p
    ensures m == Shl(v, n) && Shr(m, n) == v
  {
    ShlShl(v, n, e);
    ShlOrder(m, Shl(v, n), e);
    ShrUnique(m, n, v, 0);
  }

  /** Normalising a significand by `s` places moves its exponent down by `s`, which stays at or above 0. */
  lemma Normalised(p: nat, v: nat, m: nat, e: nat, s: nat)
    requires Scaled(v, p, m, e) && 0 < m && Shl(m, s) < Pow2(p + 1)
    ensures s <= e && Scaled(v, p, Shl(m, s), e - s)
  {
    if s > e {
      NormalisedTooFar(p, v, m, e, s);
    } else {
      ShlShl(m, s, e - s);
    }
  }

  lemma NormalisedTooFar(p: nat, v: nat, m: nat, e: nat, s: nat)
    requires Scaled(v, p, m, e) && 0 < m && e < s
    ensures Pow2(p + 1) <= Shl(m, s)
  {
    ShlZero(e);
    ShlZero(p);
    ShlOrder(0, m, e);
    ShlOrder(0, v, p);
    OneOrMore(v, p + 1);
    GrowShl(m, e + 1, s);
  }

  lemma {:induction false} GrowShl(a: nat, i: nat, j: nat)
    requires i <= j
    ensures Shl(a, i) <= Shl(a, j)
    decreases j
  {
    if i < j { GrowShl(a, i, j - 1); }
  }

  const SIGN := 0x8000_0000

  /** The sign goes into a bit that the number leaves free. */
  lemma SignBit(h: nat, sx: nat)
    requires h < SIGN && (sx == 0 || sx == SIGN)
    ensures Or(h, sx) == h + sx
  {
    Powers();
    OrLow(1, 31, h);
    OrZero(h);
  }

  lemma ShlStep(a: nat, s: nat)
    ensures Shl(a, s + 1) == 2 * Shl(a, s)
  {
  }
}
