/** `__ieee754_fmod`: the double-precision remainder by shift and subtract on two words. */
module Fmod {
  import opened Types
  import opened Bits
  import opened FmodCore

  /** A double as its high and its low word; `NotANumber` stands for (x*y)/(x*y). */
  datatype Double = Double(h: word, l: word)

  datatype Outcome = Number(x: Double) | NotANumber

  const BASE := 0x1_0000_0000
  const INFINITY := 0x7FF0_0000
  const IMPLICIT := 0x10_0000
  const TOP := 0x10_0000_0000_0000  // IMPLICIT * BASE, the top bit of a significand

  /** The 64-bit number in two words. */
  function Join(h: nat, l: nat): nat {
    h * BASE + l
  }

  function SignOf(x: Double): word {
    if x.h >= SIGN then SIGN else 0
  }

  function HighBits(x: Double): (r: nat)
    ensures r < SIGN
  {
    x.h % SIGN
  }

  predicate Finite(x: Double) {
    HighBits(x) < INFINITY
  }

  /** The magnitude of a finite number in units of the least subnormal, 2^-1074. */
  function Units(h: nat, l: word): nat
    requires h < INFINITY
  {
    var f := Join(h % IMPLICIT, l);
    if h / IMPLICIT == 0 then f else Shl(TOP + f, h / IMPLICIT - 1)
  }

  function Magnitude(x: Double): nat
    requires Finite(x)
  {
    Units(HighBits(x), x.l)
  }

  /** The order of the bit patterns is the order of the magnitudes. */
  lemma UnitsOrder(ha: nat, la: word, hb: nat, lb: word)
    requires ha < INFINITY && hb < INFINITY && (ha < hb || (ha == hb && la < lb))
    ensures Units(ha, la) < Units(hb, lb)
  {
    var ea, eb := ha / IMPLICIT, hb / IMPLICIT;
    var ma, mb := TOP + Join(ha % IMPLICIT, la), TOP + Join(hb % IMPLICIT, lb);
    assert ma < 2 * TOP && mb < 2 * TOP;
    if ea == eb {
      if ea > 0 { ShlOrder(ma, mb, ea - 1); }
    } else if ea == 0 {
      assert mb <= Shl(mb, eb - 1);
    } else {
      ShlShl(mb, eb - ea, ea - 1);
      GrowShl(mb, 1, eb - ea);
      assert Shl(mb, 1) == 2 * mb by { assert Shl(mb, 0) == mb; }
      ShlOrder(ma, Shl(mb, eb - ea), ea - 1);
    }
  }

  /** A significand `m` with its top bit at bit 52, and the exponent `ix` that belongs to it. */
  ghost predicate Aligned(h: nat, l: word, m: nat, ix: int) {
    && h < INFINITY && 0 < Join(h, l) && -1074 <= ix <= 1023
    && TOP <= m < 2 * TOP
    && Scaled(Units(h, l), 52, m, ix + 1074)
  }

  /** What `ilogb` finds: the exponent field, or how far a subnormal has to be shifted. */
  ghost predicate IsILogB(h: nat, l: word, ix: int) {
    if h >= IMPLICIT then ix == h / IMPLICIT - 1023
    else -1074 <= ix <= -1023 && TOP <= Shl(Join(h, l), -1022 - ix) < 2 * TOP
  }

  /** Counts the shifts that bring the top bit of `i` to bit 31. */
  method CountShifts(i0: nat) returns (s: nat)
    requires 0 < i0 < BASE
    ensures s <= 31 && SIGN <= Shl(i0, s) < BASE
  {
    var i := i0;
    s := 0;
    while 0 < i < SIGN
      invariant s <= 31 && 0 < i < BASE && i == Shl(i0, s)
      decreases BASE - i
    {
      i := (2 * i) % BASE;
      s := s + 1;
      OneOrMore(i0, s);
      if s >= 32 { Powers(); GrowShl(1, 32, s); }
    }
  }

  /** "determine ix = ilogb(x)". */
  method ILogB(h: nat, l: word) returns (ix: int)
    requires h < INFINITY && 0 < Join(h, l)
    ensures IsILogB(h, l, ix)
  {
    if h >= IMPLICIT {
      return h / IMPLICIT - 1023;
    }
    Powers();
    if h == 0 {
      var s := CountShifts(l);
      ix := -1043 - s as int;
      ShlShl(l, s, 21);
      ShlIsProduct(Shl(l, s), 21);
    } else {
      var s := CountShifts((h * 2048) % BASE);
      ix := -1022 - s as int;
      ShiftHigh(h, l, s);
    }
  }

  lemma ShlTimesBase(a: nat, s: nat)
    ensures Shl(a * BASE, s) == Shl(a, s) * BASE
  {
    ShlBase(a);
    ShlShl(a, 32, s);
    ShlShl(a, s, 32);
    ShlBase(Shl(a, s));
  }

  lemma HighTop(h: nat, s: nat)
    requires 0 < h < IMPLICIT && SIGN <= Shl(h * 2048, s) < BASE
    ensures s <= 20 && IMPLICIT <= Shl(h, s) && Shl(h + 1, s) <= 2 * IMPLICIT
  {
    Powers();
    ShlIsProduct(h, 11);
    ShlShl(h, 11, s);
    ShlShl(h, s, 11);
    ShlIsProduct(Shl(h, s), 11);
    OneOrMore(h, s);
    if s >= 21 {
      GrowShl(1, 21, s);
    } else {
      ShlShl(1, 21 - s, s);
      ShlOrder(h, Pow2(21 - s), s);
      ShlOrder(Pow2(21 - s), h + 1, s);
    }
  }

  /** Shifting the top bit of the high word into place puts the pair into place. */
  lemma ShiftHigh(h: nat, l: word, s: nat)
    requires 0 < h < IMPLICIT && SIGN <= Shl(h * 2048, s) < BASE
    ensures TOP <= Shl(Join(h, l), s) < 2 * TOP && s <= 20
  {
    HighTop(h, s);
    ShlTimesBase(h, s);
    ShlTimesBase(h + 1, s);
    ShlOrder(Join(h, l), h * BASE, s);
    ShlOrder(Join(h, l), (h + 1) * BASE, s);
  }

  // ----- two words at a time -----

  /** A left shift by `j` in 32 bits keeps the low `32 - j` bits; the others are what the word loses. */
  lemma ShlWrap(a: nat, k: nat, j: nat, q: nat, low: nat)
    requires k + j == 32 && a == Shl(q, k) + low && low < Pow2(k)
    ensures Shl(a, j) == q * BASE + Shl(low, j) && Shl(low, j) < BASE
    ensures Shl(a, j) % BASE == Shl(low, j)
  {
    hide Shl, Pow2;
    ShlPlus(Shl(q, k), low, j);
    ShlShl(q, k, j);
    ShlBase(q);
    ShlBase(1);
    ShlOrder(low, Pow2(k), j);
    PowShl(k, j);
    WrapMod(q, Shl(low, j));
  }

  lemma ShlBase(a: nat)
    ensures Shl(a, 32) == a * BASE && Pow2(32) == BASE
  {
    Powers();
    ShlIsProduct(a, 32);
  }

  lemma WrapMod(q: nat, t: nat)
    requires t < BASE
    ensures (q * BASE + t) % BASE == t
  {
  }

  lemma PowShl(k: nat, j: nat)
    ensures Shl(Pow2(k), j) == Pow2(k + j)
  {
    ShlShl(1, k, j);
  }

  /** Shifting both words and carrying the top bits of the low word over is a shift of the pair. */
  lemma ShlWords(h: nat, l: word, n: nat)
    requires 1 <= n <= 31
    ensures var l' := Shl(l, n) % BASE;
            0 <= l' && Join(Or(Shl(h, n), Shr(l, 32 - n)), l') == Shl(Join(h, l), n)
  {
    hide Or, Shr, Shl;
    var low := ShrSplit(l, 32 - n);
    var top := Shr(l, 32 - n);
    ShlWrap(l, 32 - n, n, top, low);
    TopBelow(l, n);
    OrLow(h, n, top);
    ShlPlus(h * BASE, l, n);
    ShlTimesBase(h, n);
  }

  lemma TopBelow(l: word, n: nat)
    requires 1 <= n <= 31
    ensures Shr(l, 32 - n) < Pow2(n)
  {
    var low := ShrSplit(l, 32 - n);
    Powers();
    ShlShl(1, n, 32 - n);
    ShlOrder(Shr(l, 32 - n), Pow2(n), 32 - n);
  }

  lemma AlignedNormal(h0: nat, l0: word)
    requires IMPLICIT <= h0 < INFINITY
    ensures Or(IMPLICIT, h0 % IMPLICIT) == IMPLICIT + h0 % IMPLICIT
    ensures Aligned(h0, l0, Join(IMPLICIT + h0 % IMPLICIT, l0), h0 / IMPLICIT - 1023)
  {
    Powers();
    OrLow(1, 20, h0 % IMPLICIT);
    ShlShl(Join(IMPLICIT + h0 % IMPLICIT, l0), h0 / IMPLICIT - 1, 52);
  }

  lemma AlignedSubnormal(h0: nat, l0: word, ix: int)
    requires h0 < IMPLICIT && IsILogB(h0, l0, ix) && 0 < Join(h0, l0)
    ensures Aligned(h0, l0, Shl(Join(h0, l0), -1022 - ix), ix)
  {
    ShlShl(Join(h0, l0), -1022 - ix, ix + 1074);
  }

  /** "set up {hx,lx}": the significand, with the implicit bit or shifted up to it. */
  method SetUp(h0: nat, l0: word, ix: int) returns (h: nat, l: word)
    requires h0 < INFINITY && 0 < Join(h0, l0) && IsILogB(h0, l0, ix)
    ensures Aligned(h0, l0, Join(h, l), ix)
  {
    hide Aligned, Or, Shl, Shr;
    if ix >= -1022 {
      AlignedNormal(h0, l0);
      h, l := Or(IMPLICIT, h0 % IMPLICIT), l0;
    } else {
      var n := -1022 - ix;
      AlignedSubnormal(h0, l0, ix);
      if n <= 31 {
        ShlWords(h0, l0, n);
        h, l := Or(Shl(h0, n), Shr(l0, 32 - n)), Shl(l0, n) % BASE;
      } else {
        LowOnly(h0, l0, n);
        h, l := Shl(l0, n - 32), 0;
      }
    }
  }

  lemma LowOnly(h: nat, l: word, n: nat)
    requires 32 <= n && Shl(Join(h, l), n) < 2 * TOP
    ensures h == 0 && Shl(Join(h, l), n) == Join(Shl(l, n - 32), 0)
  {
    Powers();
    ShlShl(l, n - 32, 32);
    ShlIsProduct(Shl(l, n - 32), 32);
    if h > 0 {
      ShlOrder(Join(h, l), BASE, n);
      GrowShl(BASE, 32, n);
      ShlIsProduct(BASE, 32);
    }
  }

  /** The difference of two pairs, with a borrow from the high word, which also holds its sign. */
  function Minus(hx: nat, lx: word, hy: nat, ly: word): (z: (int, word))
    ensures z.0 * BASE + z.1 == Join(hx, lx) - Join(hy, ly)
    ensures z.0 < 0 <==> Join(hx, lx) < Join(hy, ly)
  {
    (if lx < ly then hx - hy - 1 else hx - hy, (lx - ly) % BASE)
  }

  /** Twice a pair: each word is doubled and the top bit of the low one is carried over. */
  function Twice(h: nat, l: word): (z: (nat, word))
    ensures Join(z.0, z.1) == 2 * Join(h, l)
  {
    (h + h + l / SIGN, (l + l) % BASE)
  }

  /** "fix point fmod": the remainder of the significands. */
  method FixPoint(mh: nat, ml: word, hy: nat, ly: word, rounds: nat) returns (h: nat, l: word)
    requires 0 < Join(hy, ly) < 2 * TOP && Join(mh, ml) < 2 * Join(hy, ly)
    ensures Join(h, l) == Rem(Shl(Join(mh, ml), rounds), Join(hy, ly))
  {
    hide Shl, Rem, Join, Minus, Twice;
    ghost var y := Join(hy, ly);
    var n := rounds;
    h, l := mh, ml;
    while n != 0
      invariant Join(h, l) < 2 * y && Rem(Shl(Join(h, l), n), y) == Rem(Shl(Join(mh, ml), rounds), y)
    {
      var (hz, lz) := Minus(h, l, hy, ly);
      if hz < 0 {
        KeepRound(Join(h, l), y, n);
        var z := Twice(h, l);
        h, l := z.0, z.1;
      } else {
        SubtractRound(Join(h, l), y, n);
        JoinIs(hz, lz);
        if hz == 0 && lz == 0 {
          ZeroRemainder(y, n);
          JoinIs(0, 0);
          return 0, 0;
        }
        var z := Twice(hz, lz);
        h, l := z.0, z.1;
      }
      n := n - 1;
    }
    ShlNone(Join(h, l));
    RemBelow(Join(h, l), y);
    var (hz, lz) := Minus(h, l, hy, ly);
    if hz >= 0 {
      JoinIs(hz, lz);
      h, l := hz, lz;
    }
  }

  lemma JoinIs(h: nat, l: nat)
    ensures Join(h, l) == h * BASE + l
  {
  }

  /** The loop that brings the top bit of the result back to bit 52. */
  method Normalise(h0: nat, l0: word, iy0: int, ghost v: nat) returns (h: nat, l: word, iy: int)
    requires 0 < Join(h0, l0) < 2 * TOP && -1074 <= iy0 <= 1023 && Scaled(v, 52, Join(h0, l0), iy0 + 1074)
    ensures IMPLICIT <= h < 2 * IMPLICIT && -1074 <= iy <= iy0 && Scaled(v, 52, Join(h, l), iy + 1074)
  {
    hide Shl, Scaled, Twice;
    ghost var m, s := Join(h0, l0), 0;
    h, l, iy := h0, l0, iy0;
    ShlNone(m);
    while h < IMPLICIT
      invariant 0 <= s && iy == iy0 - s && 0 < Join(h, l) < 2 * TOP && Join(h, l) == Shl(m, s)
      decreases 2 * TOP - Join(h, l)
    {
      ShlStep(m, s);
      var z := Twice(h, l);
      h, l := z.0, z.1;
      iy, s := iy - 1, s + 1;
    }
    Powers();
    Normalised(52, v, m, iy0 + 1074, s);
  }

  /**
   The right shift of a pair by fewer than 32 places: what the high word loses comes in at the top of the low word.
   */
  lemma ShrWords(h: nat, l: word, n: nat)
    requires 1 <= n <= 31
    ensures Join(Shr(h, n), Or(Shr(l, n), Shl(h, 32 - n) % BASE)) == Shr(Join(h, l), n)
    ensures Or(Shr(l, n), Shl(h, 32 - n) % BASE) < BASE
  {
    hide Or, Shr, Shl;
    var hl := ShrSplit(h, n);
    var ll := ShrSplit(l, n);
    ShlWrap(h, n, 32 - n, Shr(h, n), hl);
    TopOfLow(l, n);
    OrLow(hl, 32 - n, Shr(l, n));
    BelowBase(hl, Shr(l, n), n);
    ShrPair(Shr(h, n), hl, Shr(l, n), ll, n);
    assert Join(h, l) == (Shl(Shr(h, n), n) + hl) * BASE + (Shl(Shr(l, n), n) + ll);
  }

  lemma ShrPair(hq: nat, hl: nat, lq: nat, ll: nat, n: nat)
    requires 1 <= n <= 31 && ll < Pow2(n)
    ensures Shr((Shl(hq, n) + hl) * BASE + (Shl(lq, n) + ll), n) == hq * BASE + (Shl(hl, 32 - n) + lq)
  {
    hide Shr, Shl;
    ShlPlus(hq * BASE, Shl(hl, 32 - n) + lq, n);
    ShlPlus(Shl(hl, 32 - n), lq, n);
    ShlTimesBase(hq, n);
    ShlShl(hl, 32 - n, n);
    ShlBase(hl);
    ShrUnique((Shl(hq, n) + hl) * BASE + (Shl(lq, n) + ll), n, hq * BASE + (Shl(hl, 32 - n) + lq), ll);
  }

  lemma TopOfLow(l: word, n: nat)
    requires 1 <= n <= 31
    ensures Shr(l, n) < Pow2(32 - n)
  {
    var low := ShrSplit(l, n);
    Powers();
    ShlShl(1, 32 - n, n);
    ShlOrder(Shr(l, n), Pow2(32 - n), n);
  }

  lemma BelowBase(hl: nat, lq: nat, n: nat)
    requires 1 <= n <= 31 && hl < Pow2(n) && lq < Pow2(32 - n)
    ensures Shl(hl, 32 - n) + lq < BASE
  {
    Powers();
    ShlPlus(hl, 1, 32 - n);
    ShlOrder(Pow2(n), hl + 1, 32 - n);
    ShlShl(1, n, 32 - n);
  }

  /** The right shift of a pair by 32 places or more leaves only bits of the high word. */
  lemma ShrHigh(h: nat, l: word, n: nat)
    requires 32 <= n
    ensures Shr(Join(h, l), n) == Shr(h, n - 32)
  {
    hide Shl, Shr, Pow2;
    Powers();
    var hl := ShrSplit(h, n - 32);
    var q := Shr(h, n - 32);
    ShlPlus(Shl(q, n - 32), hl, 32);
    ShlShl(q, n - 32, 32);
    ShlIsProduct(h, 32);
    ShlOrder(Pow2(n - 32), hl + 1, 32);
    ShlPlus(hl, 1, 32);
    ShlIsProduct(1, 32);
    PowShl(n - 32, 32);
    ShrUnique(Join(h, l), n, q, Shl(hl, 32) + l);
  }

  lemma {:induction false} OrSame(a: nat)
    ensures Or(a, a) == a
    decreases a
  {
    if a > 0 { OrSame(a / 2); }
  }

  /**
   The three shifts of a subnormal result, by how many of the two words' bits survive. In the last two the
   high word is already the sign.
   */
  method ShiftDown(h0: nat, l0: word, n: nat, sx: word) returns (h: word, l: word)
    requires IMPLICIT <= h0 < 2 * IMPLICIT && 1 <= n <= 52 && (sx == 0 || sx == SIGN)
    ensures sx <= Or(h, sx) < sx + IMPLICIT && Join(Or(h, sx) - sx, l) == Shr(Join(h0, l0), n)
  {
    hide Or, Shl, Shr;
    if n <= 20 {
      ShrWords(h0, l0, n);
      ShrHalves(h0, n);
      l, h := Or(Shr(l0, n), Shl(h0, 32 - n) % BASE), Shr(h0, n);
      SignBit(h, sx);
    } else {
      OrSame(sx);
      if n <= 31 {
        ShrWords(h0, l0, n);
        ShrToZero(h0, n);
        OrSwap(Shl(h0, 32 - n) % BASE, Shr(l0, n));
        l, h := Or(Shl(h0, 32 - n) % BASE, Shr(l0, n)), sx;
      } else {
        ShrHigh(h0, l0, n);
        l, h := Shr(h0, n - 32), sx;
      }
    }
  }

  lemma ShrHalves(h: nat, n: nat)
    requires 1 <= n && h < 2 * IMPLICIT
    ensures Shr(h, n) < IMPLICIT
  {
    hide Shr;
    Powers();
    var low := ShrSplit(h, n);
    GrowShl(Shr(h, n), 1, n);
    assert Shl(Shr(h, n), 1) == 2 * Shr(h, n) by { assert Shl(Shr(h, n), 0) == Shr(h, n); }
  }

  lemma ShrToZero(h: nat, n: nat)
    requires h < 2 * IMPLICIT && 21 <= n
    ensures Shr(h, n) == 0
  {
    Powers();
    GrowShl(1, 21, n);
    ShlZero(n);
    ShrUnique(h, n, 0, h);
  }

  lemma {:induction false} OrSwap(a: nat, b: nat)
    ensures Or(a, b) == Or(b, a)
    decreases a + b
  {
    if a != 0 || b != 0 { OrSwap(a / 2, b / 2); }
  }

  /** "convert back to floating value": as a normal or a subnormal number, and with the sign. */
  method Pack(m: nat, l0: word, iy: int, sx: word, ghost v: nat) returns (r: Double)
    requires IMPLICIT <= m < 2 * IMPLICIT && -1074 <= iy <= 1023 && Scaled(v, 52, Join(m, l0), iy + 1074)
    requires sx == 0 || sx == SIGN
    ensures SignOf(r) == sx && Finite(r) && Magnitude(r) == v
  {
    hide Shl, Or, Shr, Scaled, Units;
    if iy >= -1022 {
      var h := Or(m - IMPLICIT, Shl(iy + 1023, 20));
      NormalBits(m - IMPLICIT, iy + 1023);
      NormalUnits(v, h, l0, iy);
      SignBit(h, sx);
      r := Double(Or(h, sx), l0);
    } else {
      var n := -1022 - iy;
      SubnormalResult(52, v, Join(m, l0), iy + 1074, n);
      var h, l := ShiftDown(m, l0, n, sx);
      r := Double(Or(h, sx), l);
      SubnormalUnits(HighBits(r), l);
    }
  }

  lemma NormalBits(f: nat, e: nat)
    requires f < IMPLICIT
    ensures Or(f, Shl(e, 20)) == e * IMPLICIT + f
  {
    Powers();
    OrLow(e, 20, f);
    ShlIsProduct(e, 20);
  }

  lemma NormalUnits(v: nat, h: nat, l: word, iy: int)
    requires -1022 <= iy <= 1023 && h / IMPLICIT == iy + 1023 && h < SIGN
    requires Scaled(v, 52, Join(h % IMPLICIT + IMPLICIT, l), iy + 1074)
    ensures h < INFINITY && Units(h, l) == v
  {
    var m := Join(h % IMPLICIT + IMPLICIT, l);
    ShlShl(m, iy + 1022, 52);
    ShlOrder(v, Shl(m, iy + 1022), 52);
  }

  lemma SubnormalUnits(h: nat, l: word)
    requires h < IMPLICIT
    ensures Units(h, l) == Join(h, l)
  {
  }

  lemma ZeroUnits(v: nat, e: nat)
    requires Scaled(v, 52, 0, e)
    ensures v == 0
  {
    ShlZero(e);
    ShlZero(52);
    ShlOrder(0, v, 52);
  }

  /** The general case, |x| > |y|: align, reduce, pack. */
  method Reduce(hx: nat, lx: word, hy: nat, ly: word, sx: word) returns (r: Double)
    requires hx < INFINITY && 0 < Join(hy, ly) && (hy < hx || (hy == hx && ly < lx)) && (sx == 0 || sx == SIGN)
    ensures 0 < Units(hy, ly)
    ensures SignOf(r) == sx && Finite(r) && Magnitude(r) == Rem(Units(hx, lx), Units(hy, ly))
  {
    hide Shl, Rem, Units, Scaled, IsILogB;
    var ix := ILogB(hx, lx);
    var iy := ILogB(hy, ly);
    var mxh, mxl := SetUp(hx, lx, ix);
    var myh, myl := SetUp(hy, ly, iy);
    ghost var vx, vy := Units(hx, lx), Units(hy, ly);
    ghost var mx, my := Join(mxh, mxl), Join(myh, myl);
    UnitsOrder(hy, ly, hx, lx);
    Powers();
    if ix < iy { ExponentOrder(52, vx, vy, mx, my, ix + 1074, iy + 1074); }
    RemainderIsExact(52, vx, vy, mx, my, ix + 1074, iy + 1074);
    var h, l := FixPoint(mxh, mxl, myh, myl, ix - iy);
    if h == 0 && l == 0 {
      ZeroUnits(Rem(vx, vy), iy + 1074);
      SubnormalUnits(0, 0);
      return Double(sx, 0);
    }
    h, l, iy := Normalise(h, l, iy, Rem(vx, vy));
    r := Pack(h, l, iy, sx, Rem(vx, vy));
  }

  /** The bits of a double that is not a number: the exponent of infinity and a fraction. */
  predicate IsNaN(x: Double) {
    HighBits(x) > INFINITY || (HighBits(x) == INFINITY && x.l != 0)
  }

  /** The purge of operands outside the domain: y zero, x not finite, or y not a number. */
  predicate OutsideDomain(x: Double, y: Double) {
    (HighBits(y) == 0 && y.l == 0) || !Finite(x) || IsNaN(y)
  }

  /** The test for y not being a number: the low word only counts as zero or not zero. */
  lemma NaNTest(hy: nat, ly: word)
    ensures Or(hy, if ly == 0 then 0 else 1) > INFINITY <==> hy > INFINITY || (hy == INFINITY && ly != 0)
  {
    OrZero(hy);
    OrZero(hy / 2);
  }

  /**
   `__ieee754_fmod`. For finite x and finite nonzero y, normal or subnormal, the result is exact: its magnitude
   is the remainder of the magnitudes and its sign is that of x. An infinite y returns x.
   */
  method Fmod(x: Double, y: Double) returns (r: Outcome)
    ensures r.NotANumber? <==> OutsideDomain(x, y)
    ensures !OutsideDomain(x, y) && !Finite(y) ==> r == Number(x)
    ensures !OutsideDomain(x, y) && Finite(y) ==>
              && Finite(r.x) && SignOf(r.x) == SignOf(x)
              && 0 < Magnitude(y) && Magnitude(r.x) == Magnitude(x) % Magnitude(y)
  {
    hide Units, Or;
    var sx, hx, lx, hy, ly := SignOf(x), HighBits(x), x.l, HighBits(y), y.l;
    NaNTest(hy, ly);
    if (hy == 0 && ly == 0) || hx >= INFINITY || Or(hy, if ly == 0 then 0 else 1) > INFINITY {
      return NotANumber;
    }
    SubnormalUnits(0, 0);
    if hy < INFINITY { UnitsOrder(0, 0, hy, ly); }
    if hx <= hy {
      if hx < hy || lx < ly {
        if hy < INFINITY {
          UnitsOrder(hx, lx, hy, ly);
          RemBelow(Units(hx, lx), Units(hy, ly));
        }
        return Number(x);
      }
      if lx == ly {
        RemBelow(Units(hx, lx), Units(hy, ly));
        return Number(Double(sx, 0));
      }
    }
    var w := Reduce(hx, lx, hy, ly, sx);
    r := Number(w);
  }
}
