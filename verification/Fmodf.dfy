/** `__ieee754_fmodf`: the single-precision remainder by shift and subtract on one word. */
module Fmodf {
  import opened Types
  import opened Bits
  import opened FmodCore

  /** `NotANumber` stands for (x*y)/(x*y), the answer to operands outside the domain. */
  datatype Outcome = Number(w: word) | NotANumber

  const INFINITY := 0x7F80_0000
  const IMPLICIT := 0x80_0000

  function SignOf(w: word): word {
    if w >= SIGN then SIGN else 0
  }

  function MagnitudeBits(w: word): (r: nat)
    ensures r < SIGN
  {
    w % SIGN
  }

  predicate Finite(w: word) {
    MagnitudeBits(w) < INFINITY
  }

  /** The magnitude of a finite number in units of the least subnormal, 2^-149. */
  function Units(h: nat): nat
    requires h < INFINITY
  {
    if h / IMPLICIT == 0 then h else Shl(IMPLICIT + h % IMPLICIT, h / IMPLICIT - 1)
  }

  function Magnitude(w: word): nat
    requires Finite(w)
  {
    Units(MagnitudeBits(w))
  }

  /** The order of the bit patterns is the order of the magnitudes. */
  lemma UnitsOrder(a: nat, b: nat)
    requires a < b < INFINITY
    ensures Units(a) < Units(b)
  {
    var ea, eb := a / IMPLICIT, b / IMPLICIT;
    var ma, mb := IMPLICIT + a % IMPLICIT, IMPLICIT + b % IMPLICIT;
    if ea == eb {
      if ea > 0 { ShlOrder(ma, mb, ea - 1); }
    } else if ea == 0 {
      assert mb <= Shl(mb, eb - 1);
    } else {
      ShlShl(mb, eb - ea, ea - 1);
      GrowShl(mb, 1, eb - ea);
      assert Shl(mb, 1) == 2 * mb by { assert Shl(mb, 0) == mb; }
      ShlOrder(ma, Shl(mb, eb - ea), ea - 1);
    }
  }

  /** `h` brought to a significand `m` with its top bit at bit 23, and its exponent `ix`. */
  ghost predicate Aligned(h: nat, m: nat, ix: int) {
    && 0 < h < INFINITY && -149 <= ix <= 127
    && IMPLICIT <= m < 2 * IMPLICIT
    && Scaled(Units(h), 23, m, ix + 149)
  }

  /**
   `ilogb` by counting shifts. The two loops in the source test `i > 0` and `i >= 0`; for the nonzero `h`
   that reaches them the tests agree.
   */
  method ILogB(h: nat, orZero: bool) returns (ix: int)
    requires 0 < h < INFINITY
    ensures h >= IMPLICIT ==> ix == h / IMPLICIT - 127
    ensures h < IMPLICIT ==> -149 <= ix <= -127 && IMPLICIT <= Shl(h, -126 - ix) < 2 * IMPLICIT
  {
    if h >= IMPLICIT {
      return h / IMPLICIT - 127;
    }
    ix := -126;
    var i := (h * 256) % 0x1_0000_0000;
    ghost var s := 0;
    while i < SIGN && (i > 0 || (orZero && i == 0))
      invariant 0 <= s <= 23 && ix == -126 - s && 0 < i < 0x1_0000_0000 && i == 256 * Shl(h, s)
      decreases 0x1_0000_0000 - i
    {
      i := (2 * i) % 0x1_0000_0000;
      ix, s := ix - 1, s + 1;
      OneOrMore(h, s);
      FewShifts(s, i);
    }
  }

  lemma FewShifts(s: nat, i: nat)
    requires 256 * Pow2(s) <= i < 0x1_0000_0000
    ensures s <= 23
  {
    if s >= 24 { Powers(); GrowShl(1, 24, s); }
  }

  /** "set up {hx,lx}": the significand, with the implicit bit or shifted up to it. */
  method SetUp(h: nat, ix: int) returns (m: nat)
    requires 0 < h < INFINITY
    requires h >= IMPLICIT ==> ix == h / IMPLICIT - 127
    requires h < IMPLICIT ==> -149 <= ix <= -127 && IMPLICIT <= Shl(h, -126 - ix) < 2 * IMPLICIT
    ensures Aligned(h, m, ix)
  {
    hide Or, Shl;
    Powers();
    if ix >= -126 {
      m := Or(IMPLICIT, h % IMPLICIT);
      OrLow(1, 23, h % IMPLICIT);
      ShlShl(m, h / IMPLICIT - 1, 23);
    } else {
      m := Shl(h, -126 - ix) % 0x1_0000_0000;
      ShlShl(h, -126 - ix, ix + 149);
    }
  }

  /** "fix point fmod": the remainder of the significands. */
  method FixPoint(mx: nat, my: nat, rounds: nat) returns (r: nat)
    requires 0 < my < 2 * IMPLICIT && mx < 2 * my
    ensures r == Rem(Shl(mx, rounds), my)
  {
    hide Shl, Rem;
    var hx: nat, n := mx, rounds;
    while n != 0
      invariant hx < 2 * my && Rem(Shl(hx, n), my) == Rem(Shl(mx, rounds), my)
    {
      var hz := hx - my;
      if hz < 0 {
        KeepRound(hx, my, n);
        hx := hx + hx;
      } else {
        SubtractRound(hx, my, n);
        if hz == 0 {
          ZeroRemainder(my, n);
          return 0;
        }
        hx := hz + hz;
      }
      n := n - 1;
    }
    ShlNone(hx);
    RemBelow(hx, my);
    var hz := hx - my;
    r := if hz >= 0 then hz else hx;
  }

  /** The loop that brings the top bit of the result back to bit 23. */
  method Normalise(m: nat, iy0: int, ghost v: nat) returns (hx: nat, iy: int)
    requires 0 < m < 2 * IMPLICIT && -149 <= iy0 <= 127 && Scaled(v, 23, m, iy0 + 149)
    ensures IMPLICIT <= hx < 2 * IMPLICIT && -149 <= iy <= iy0 && Scaled(v, 23, hx, iy + 149)
  {
    hide Shl, Scaled;
    hx, iy := m, iy0;
    ghost var s := 0;
    ShlNone(m);
    while hx < IMPLICIT
      invariant 0 <= s && iy == iy0 - s && 0 < hx < 2 * IMPLICIT && hx == Shl(m, s)
      decreases 2 * IMPLICIT - hx
    {
      ShlStep(m, s);
      hx := hx + hx;
      iy, s := iy - 1, s + 1;
    }
    Powers();
    Normalised(23, v, m, iy0 + 149, s);
  }

  /** "convert back to floating value": as a normal or a subnormal number, and with the sign. */
  method Pack(m: nat, iy: int, sx: word, ghost v: nat) returns (w: word)
    requires IMPLICIT <= m < 2 * IMPLICIT && -149 <= iy <= 127 && Scaled(v, 23, m, iy + 149)
    requires sx == 0 || sx == SIGN
    ensures SignOf(w) == sx && Finite(w) && Magnitude(w) == v
  {
    hide Shl, Or, Shr, Scaled, Units;
    var hx;
    if iy >= -126 {
      hx := Or(m - IMPLICIT, Shl(iy + 127, 23));
      NormalBits(m - IMPLICIT, iy + 127);
      NormalUnits(v, hx, iy);
    } else {
      SubnormalResult(23, v, m, iy + 149, -126 - iy);
      hx := Shr(m, -126 - iy);
      SubnormalUnits(v, -126 - iy);
    }
    SignBit(hx, sx);
    w := Or(hx, sx);
  }

  lemma NormalBits(f: nat, e: nat)
    requires f < IMPLICIT
    ensures Or(f, Shl(e, 23)) == e * IMPLICIT + f
  {
    Powers();
    OrLow(e, 23, f);
    ShlIsProduct(e, 23);
  }

  lemma NormalUnits(v: nat, h: nat, iy: int)
    requires -126 <= iy <= 127 && h / IMPLICIT == iy + 127 && h < SIGN
    requires Scaled(v, 23, h % IMPLICIT + IMPLICIT, iy + 149)
    ensures h < INFINITY && Units(h) == v
  {
    var m := h % IMPLICIT + IMPLICIT;
    ShlShl(m, iy + 126, 23);
    ShlOrder(v, Shl(m, iy + 126), 23);
  }

  lemma SubnormalUnits(v: nat, n: nat)
    requires 1 <= n && Shl(v, n) < 2 * IMPLICIT
    ensures v < IMPLICIT && Units(v) == v
  {
    GrowShl(v, 1, n);
    assert Shl(v, 1) == 2 * v by { assert Shl(v, 0) == v; }
  }

  lemma ZeroUnits(p: nat, v: nat, e: nat)
    requires Scaled(v, p, 0, e)
    ensures v == 0
  {
    ShlZero(e);
    ShlZero(p);
    ShlOrder(0, v, p);
  }

  /** The general case, |x| > |y|: align, reduce, pack. */
  method Reduce(hx: nat, hy: nat, sx: word) returns (w: word)
    requires 0 < hy < hx < INFINITY && (sx == 0 || sx == SIGN)
    ensures 0 < Units(hy)
    ensures SignOf(w) == sx && Finite(w) && Magnitude(w) == Rem(Units(hx), Units(hy))
  {
    hide Shl, Rem, Units, Scaled;
    var ix := ILogB(hx, false);
    var iy := ILogB(hy, true);
    var mx := SetUp(hx, ix);
    var my := SetUp(hy, iy);
    ghost var vx, vy := Units(hx), Units(hy);
    UnitsOrder(hy, hx);
    Powers();
    if ix < iy { ExponentOrder(23, vx, vy, mx, my, ix + 149, iy + 149); }
    RemainderIsExact(23, vx, vy, mx, my, ix + 149, iy + 149);
    var m := FixPoint(mx, my, ix - iy);
    if m == 0 {
      ZeroUnits(23, Rem(vx, vy), iy + 149);
      ZeroHasNoUnits();
      return sx;
    }
    m, iy := Normalise(m, iy, Rem(vx, vy));
    w := Pack(m, iy, sx, Rem(vx, vy));
  }

  lemma ZeroHasNoUnits()
    ensures Units(0) == 0
  {
  }

  /** The purge of operands outside the domain: y zero, x not finite, or y not a number. */
  predicate OutsideDomain(x: word, y: word) {
    MagnitudeBits(y) == 0 || MagnitudeBits(x) >= INFINITY || MagnitudeBits(y) > INFINITY
  }

  /**
   `__ieee754_fmodf`. For finite x and finite nonzero y, normal or subnormal, the result is exact: its magnitude
   is the remainder of the magnitudes and its sign is that of x. An infinite y returns x.
   */
  method Fmodf(x: word, y: word) returns (r: Outcome)
    ensures r.NotANumber? <==> OutsideDomain(x, y)
    ensures !OutsideDomain(x, y) && !Finite(y) ==> r == Number(x)
    ensures !OutsideDomain(x, y) && Finite(y) ==>
              && Finite(r.w) && SignOf(r.w) == SignOf(x)
              && 0 < Magnitude(y) && Magnitude(r.w) == Magnitude(x) % Magnitude(y)
  {
    hide Units;
    var sx, hx, hy := SignOf(x), MagnitudeBits(x), MagnitudeBits(y);
    if hy == 0 || hx >= INFINITY || hy > INFINITY {
      return NotANumber;
    }
    ZeroHasNoUnits();
    if hy < INFINITY { UnitsOrder(0, hy); }
    if hx < hy {
      if hy < INFINITY {
        UnitsOrder(hx, hy);
        RemBelow(Units(hx), Units(hy));
      }
      return Number(x);
    }
    if hx == hy {
      RemBelow(Units(hx), Units(hy));
      return Number(sx);
    }
    var w := Reduce(hx, hy, sx);
    r := Number(w);
  }
}
