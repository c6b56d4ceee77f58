/** The swizzled blit: bit-deposit addresses, and the masked subtraction that steps from one to the next. */
module Blit {
  import opened Types
  import opened Bits

  function And(a: nat, b: nat): (r: nat)
    ensures r <= a && r <= b
    decreases a
  {
    if a == 0 || b == 0 then 0 else 2 * And(a / 2, b / 2) + (if a % 2 == 1 && b % 2 == 1 then 1 else 0)
  }

  /** Bit deposit over the low `k` bits: the bits of `value`, lowest first, go to the places where `mask` has ones. */
  function Deposit(mask: nat, value: nat, k: nat): (r: nat)
    ensures r <= mask
    decreases k, value
  {
    if k == 0 then 0
    else if mask % 2 == 1 then value % 2 + 2 * Deposit(mask / 2, value / 2, k - 1)
    else 2 * Deposit(mask / 2, value, k - 1)
  }

  /** The inverse: collect the bits at the places where `mask` has ones. */
  function Extract(mask: nat, bits: nat, k: nat): nat
    decreases k, bits
  {
    if k == 0 then 0
    else if mask % 2 == 1 then bits % 2 + 2 * Extract(mask / 2, bits / 2, k - 1)
    else Extract(mask / 2, bits / 2, k - 1)
  }

  function Ones(mask: nat, k: nat): nat
    decreases k
  {
    if k == 0 then 0 else mask % 2 + Ones(mask / 2, k - 1)
  }

  /** The low `c` bits of `v`. */
  function Low(v: nat, c: nat): nat
    decreases c, v
  {
    if c == 0 then 0 else v % 2 + 2 * Low(v / 2, c - 1)
  }

  // ----- the masked increment -----

  /** `(a - b)` in `k` bits, for `a` at most `b`. */
  function Minus(a: nat, b: nat, k: nat): nat
    requires a <= b <= Pow2(k)
  {
    if a == b then 0 else Pow2(k) - (b - a)
  }

  lemma {:induction false} AndUnfold(a: nat, b: nat)
    ensures And(a, b) == 2 * And(a / 2, b / 2) + (if a % 2 == 1 && b % 2 == 1 then 1 else 0)
  {
  }

  /** Filling the places outside the mask with ones and masking again changes nothing. */
  lemma {:induction false} FillAndMask(mask: nat, v: nat, k: nat)
    requires mask < Pow2(k)
    ensures And(Pow2(k) - 1 - (mask - Deposit(mask, v, k)), mask) == Deposit(mask, v, k)
    decreases k
  {
    hide And, Deposit, Pow2, Shl;
    if k > 0 {
      var rest := if mask % 2 == 1 then v / 2 else v;
      HalfMask(mask, k);
      DepositUnfold(mask, v, k);
      FillAndMask(mask / 2, rest, k - 1);
      var half := Pow2(k - 1) - 1 - (mask / 2 - Deposit(mask / 2, rest, k - 1));
      AndOfDoubles(half, if mask % 2 == 1 then v % 2 else 1, mask);
    } else {
      NoMask(mask, v);
    }
  }

  lemma NoMask(mask: nat, v: nat)
    requires mask < Pow2(0)
    ensures mask == 0 && Pow2(0) == 1 && Deposit(mask, v, 0) == 0 && And(0, 0) == 0
  {
  }

  lemma {:induction false} AndOfDoubles(a: nat, c: nat, mask: nat)
    requires c <= 1
    ensures And(2 * a + c, mask) == 2 * And(a, mask / 2) + (if c == 1 && mask % 2 == 1 then 1 else 0)
  {
    AndUnfold(2 * a + c, mask);
  }

  lemma {:induction false} DepositUnfold(mask: nat, v: nat, k: nat)
    requires k > 0
    ensures mask % 2 == 1 ==> Deposit(mask, v, k) == v % 2 + 2 * Deposit(mask / 2, v / 2, k - 1)
    ensures mask % 2 == 0 ==> Deposit(mask, v, k) == 2 * Deposit(mask / 2, v, k - 1)
    ensures Pow2(k) == 2 * Pow2(k - 1)
  {
  }

  lemma {:induction false} NextClear(mask: nat, v: nat, k: nat)
    requires k > 0 && mask % 2 == 0
    ensures Deposit(mask, v, k) == 2 * Deposit(mask / 2, v, k - 1) + mask % 2
    ensures Deposit(mask, v + 1, k) == 2 * Deposit(mask / 2, v + 1, k - 1)
  {
  }

  lemma {:induction false} NextEven(mask: nat, v: nat, k: nat)
    requires k > 0 && mask % 2 == 1 && v % 2 == 0
    ensures Deposit(mask, v, k) == 2 * Deposit(mask / 2, v / 2, k - 1)
    ensures Deposit(mask, v + 1, k) == 2 * Deposit(mask / 2, v / 2, k - 1) + 1
  {
    assert (v + 1) / 2 == v / 2;
  }

  lemma {:induction false} NextOdd(mask: nat, v: nat, k: nat)
    requires k > 0 && mask % 2 == 1 && v % 2 == 1
    ensures Deposit(mask, v, k) == 2 * Deposit(mask / 2, v / 2, k - 1) + mask % 2
    ensures Deposit(mask, v + 1, k) == 2 * Deposit(mask / 2, v / 2 + 1, k - 1)
  {
    assert (v + 1) / 2 == v / 2 + 1;
  }

  lemma {:induction false} HalfMask(mask: nat, k: nat)
    requires k > 0 && mask < Pow2(k)
    ensures mask / 2 < Pow2(k - 1)
  {
  }

  /** The step for a place outside the mask, and for one where a carry passes on. */
  lemma {:induction false} PassOn(d: nat, mask: nat, k: nat, next: nat)
    requires k > 0 && mask < Pow2(k) && d <= mask / 2
    requires And(Minus(d, mask / 2, k - 1), mask / 2) == next
    ensures And(Minus(2 * d + mask % 2, mask, k), mask) == 2 * next
  {
    hide And;
    AndOfDoubles(Minus(d, mask / 2, k - 1), 0, mask);
    assert Minus(2 * d + mask % 2, mask, k) == 2 * Minus(d, mask / 2, k - 1);
  }

  /** The step for a place that takes the one. */
  lemma {:induction false} TakeOne(d: nat, mask: nat, k: nat)
    requires k > 0 && mask < Pow2(k) && mask % 2 == 1 && d <= mask / 2
    requires And(Pow2(k - 1) - 1 - (mask / 2 - d), mask / 2) == d
    ensures And(Minus(2 * d, mask, k), mask) == 2 * d + 1
  {
    hide And;
    AndOfDoubles(Pow2(k - 1) - 1 - (mask / 2 - d), 1, mask);
  }

  /** Subtracting the mask and masking moves a deposit on to the next value, carries included. */
  lemma {:induction false} MaskedIncrement(mask: nat, v: nat, k: nat)
    requires mask < Pow2(k)
    ensures And(Minus(Deposit(mask, v, k), mask, k), mask) == Deposit(mask, v + 1, k)
    decreases k
  {
    hide And, Deposit, Shl, Pow2;
    if k == 0 {
      NoMask(mask, v);
      NoMask(mask, v + 1);
    } else {
      hide Minus;
      HalfMask(mask, k);
      var m := mask / 2;
      if mask % 2 == 0 {
        NextClear(mask, v, k);
        MaskedIncrement(m, v, k - 1);
        PassOn(Deposit(m, v, k - 1), mask, k, Deposit(m, v + 1, k - 1));
      } else if v % 2 == 0 {
        NextEven(mask, v, k);
        FillAndMask(m, v / 2, k - 1);
        TakeOne(Deposit(m, v / 2, k - 1), mask, k);
      } else {
        NextOdd(mask, v, k);
        MaskedIncrement(m, v / 2, k - 1);
        PassOn(Deposit(m, v / 2, k - 1), mask, k, Deposit(m, v / 2 + 1, k - 1));
      }
    }
  }

  // ----- deposits in two parts -----

  /** Only the low bits of the value count, as many as the mask has ones. */
  lemma {:induction false} DepositLow(mask: nat, v: nat, w: nat, k: nat)
    requires Low(v, Ones(mask, k)) == Low(w, Ones(mask, k))
    ensures Deposit(mask, v, k) == Deposit(mask, w, k)
    decreases k
  {
    if k > 0 {
      if mask % 2 == 1 {
        DepositLow(mask / 2, v / 2, w / 2, k - 1);
      } else {
        DepositLow(mask / 2, v, w, k - 1);
      }
    }
  }

  /** The low places take the low bits of the value, the high places the rest. */
  lemma {:induction false} DepositSplit(mask: nat, v: nat, i: nat, j: nat)
    ensures Deposit(mask, v, i + j) == Deposit(mask, v, i) + Shl(Deposit(Shr'(mask, i), Shr'(v, Ones(mask, i)), j), i)
    decreases i
  {
    if i > 0 {
      var rest := if mask % 2 == 1 then v / 2 else v;
      DepositSplit(mask / 2, rest, i - 1, j);
    }
  }

  /** A right shift that drops the lowest bit first. */
  function Shr'(a: nat, k: nat): nat
    decreases k
  {
    if k == 0 then a else Shr'(a / 2, k - 1)
  }

  lemma {:induction false} DepositEverywhere(v: nat, k: nat)
    requires v < Pow2(k)
    ensures Deposit(Pow2(k) - 1, v, k) == v && Low(v, k) == v
    decreases k
  {
    if k > 0 {
      DepositEverywhere(v / 2, k - 1);
      assert (Pow2(k) - 1) / 2 == Pow2(k - 1) - 1 && (Pow2(k) - 1) % 2 == 1;
    }
  }

  lemma {:induction false} DepositAll(mask: nat, k: nat)
    requires mask < Pow2(k)
    ensures Deposit(mask, Pow2(k) - 1, k) == mask
    decreases k
  {
    DepositAllOnes(mask, k, k);
  }

  lemma {:induction false} DepositAllOnes(mask: nat, n: nat, k: nat)
    requires mask < Pow2(k) && k <= n
    ensures Deposit(mask, Pow2(n) - 1, k) == mask
    decreases k
  {
    if k > 0 {
      assert (Pow2(n) - 1) / 2 == Pow2(n - 1) - 1 && (Pow2(n) - 1) % 2 == 1;
      DepositAllOnes(mask / 2, if mask % 2 == 1 then n - 1 else n, k - 1);
    }
  }

  // ----- reading an address back -----

  /** Each place belongs to exactly one of the two masks. */
  predicate Complementary(m: nat, n: nat, k: nat)
    decreases k
  {
    k == 0 || (m % 2 + n % 2 == 1 && Complementary(m / 2, n / 2, k - 1))
  }

  /** Extracting at a place of the mask gives the bit deposited there; at a place of the other mask, nothing. */
  lemma {:induction false} ExtractPlace(m: nat, a: nat, low: nat, rest: nat, k: nat)
    requires k > 0 && low <= 1
    requires Extract(m / 2, rest, k - 1) == Low(if m % 2 == 1 then a / 2 else a, Ones(m / 2, k - 1))
    requires m % 2 == 1 ==> low == a % 2
    ensures Extract(m, low + 2 * rest, k) == Low(a, Ones(m, k))
  {
    assert (low + 2 * rest) / 2 == rest && (low + 2 * rest) % 2 == low;
  }

  /** Extracting through one mask does not see what was deposited through the other. */
  lemma {:induction false} ExtractSum(m: nat, n: nat, a: nat, b: nat, k: nat)
    requires Complementary(m, n, k)
    ensures Extract(m, Deposit(m, a, k) + Deposit(n, b, k), k) == Low(a, Ones(m, k))
    ensures Extract(n, Deposit(m, a, k) + Deposit(n, b, k), k) == Low(b, Ones(n, k))
    decreases k
  {
    if k > 0 {
      hide Deposit, Shl, Extract, Low, Ones;
      DepositUnfold(m, a, k);
      DepositUnfold(n, b, k);
      var low, a', b' := a % 2, a / 2, b;
      if m % 2 == 0 { low, a', b' := b % 2, a, b / 2; }
      ExtractSum(m / 2, n / 2, a', b', k - 1);
      var rest := Deposit(m / 2, a', k - 1) + Deposit(n / 2, b', k - 1);
      ExtractPlace(m, a, low, rest, k);
      ExtractPlace(n, b, low, rest, k);
    }
  }

  lemma {:induction false} DepositExtract(m: nat, bits: nat, k: nat)
    requires k > 0
    ensures Deposit(m, Extract(m, bits, k), k)
         == (if m % 2 == 1 then bits % 2 else 0) + 2 * Deposit(m / 2, Extract(m / 2, bits / 2, k - 1), k - 1)
  {
  }

  /** Depositing what the two masks extract puts the bits together again. */
  lemma {:induction false} Reassemble(m: nat, n: nat, bits: nat, k: nat)
    requires Complementary(m, n, k)
    ensures Deposit(m, Extract(m, bits, k), k) + Deposit(n, Extract(n, bits, k), k) == Low(bits, k)
    decreases k
  {
    if k > 0 {
      hide Deposit, Extract;
      DepositExtract(m, bits, k);
      DepositExtract(n, bits, k);
      Reassemble(m / 2, n / 2, bits / 2, k - 1);
    } else {
      assert Deposit(m, Extract(m, bits, 0), 0) == 0 && Deposit(n, Extract(n, bits, 0), 0) == 0;
    }
  }

  lemma {:induction false} LowOfSmall(v: nat, c: nat)
    ensures Low(v, c) < Pow2(c)
    ensures v < Pow2(c) ==> Low(v, c) == v
    decreases c
  {
    if c > 0 { LowOfSmall(v / 2, c - 1); }
  }

  lemma {:induction false} ExtractBound(mask: nat, bits: nat, k: nat)
    ensures Extract(mask, bits, k) < Pow2(Ones(mask, k))
    decreases k
  {
    if k > 0 { ExtractBound(mask / 2, bits / 2, k - 1); }
  }

  // ----- the two masks of the blit -----

  const X_MASK := 0xFFFF_F84B
  const Y_MASK := 0x7B4
  const TILE_HEIGHT := 128
  const PADDED_WIDTH := 1280
  const X_LIMIT := 0x200_0000  // 2^25: x has 25 places

  function SwizzleX(v: nat): (r: nat)
    ensures r <= X_MASK
  {
    Deposit(X_MASK, v, 32)
  }

  function SwizzleY(v: nat): (r: nat)
    ensures r <= Y_MASK
  {
    Deposit(Y_MASK, v, 32)
  }

  lemma {:induction false} OnesSplit(mask: nat, i: nat, j: nat)
    ensures Ones(mask, i + j) == Ones(mask, i) + Ones(Shr'(mask, i), j)
    decreases i
  {
    if i > 0 { OnesSplit(mask / 2, i - 1, j); }
  }

  lemma {:induction false} ComplementarySplit(m: nat, n: nat, i: nat, j: nat)
    ensures Complementary(m, n, i + j) <==> Complementary(m, n, i) && Complementary(Shr'(m, i), Shr'(n, i), j)
    decreases i
  {
    if i > 0 { ComplementarySplit(m / 2, n / 2, i - 1, j); }
  }

  lemma {:induction false} MaskStep(m: nat, n: nat, k: nat)
    requires k > 0
    ensures Ones(m, k) == m % 2 + Ones(m / 2, k - 1) && Ones(n, k) == n % 2 + Ones(n / 2, k - 1)
    ensures Complementary(m, n, k) <==> m % 2 + n % 2 == 1 && Complementary(m / 2, n / 2, k - 1)
    ensures Shr'(m, k) == Shr'(m / 2, k - 1) && Shr'(n, k) == Shr'(n / 2, k - 1)
    ensures k == 1 ==> Ones(m / 2, 0) == Ones(n / 2, 0) == 0 && Complementary(m / 2, n / 2, 0)
                       && Shr'(m / 2, 0) == m / 2 && Shr'(n / 2, 0) == n / 2
  {
  }

  lemma {:induction false} LowMasks()
    ensures Ones(X_MASK, 11) == 4 && Ones(Y_MASK, 11) == 7 && Complementary(X_MASK, Y_MASK, 11)
    ensures Shr'(X_MASK, 11) == 0x1F_FFFF && Shr'(Y_MASK, 11) == 0
  {
    hide Ones, Complementary, Shr';
    MaskStep(0xFFFFF84B, 0x7B4, 11);
    MaskStep(0x7FFFFC25, 0x3DA, 10);
    MaskStep(0x3FFFFE12, 0x1ED, 9);
    MaskStep(0x1FFFFF09, 0xF6, 8);
    MaskStep(0xFFFFF84, 0x7B, 7);
    MaskStep(0x7FFFFC2, 0x3D, 6);
    MaskStep(0x3FFFFE1, 0x1E, 5);
    MaskStep(0x1FFFFF0, 0xF, 4);
    MaskStep(0xFFFFF8, 0x7, 3);
    MaskStep(0x7FFFFC, 0x3, 2);
    MaskStep(0x3FFFFE, 0x1, 1);
  }

  lemma {:induction false} HighMasks(k: nat)
    ensures Ones(Pow2(k) - 1, k) == k && Ones(0, k) == 0 && Complementary(Pow2(k) - 1, 0, k)
    decreases k
  {
    if k > 0 {
      HighMasks(k - 1);
      assert (Pow2(k) - 1) / 2 == Pow2(k - 1) - 1 && (Pow2(k) - 1) % 2 == 1;
    }
  }

  lemma {:induction false} Masks()
    ensures Ones(X_MASK, 32) == 25 && Ones(Y_MASK, 32) == 7 && Complementary(X_MASK, Y_MASK, 32)
    ensures Pow2(25) == X_LIMIT && Pow2(7) == TILE_HEIGHT && Pow2(32) == WORD
  {
    hide Ones, Complementary, Shr', Shl, Pow2;
    Powers();
    LowMasks();
    HighMasks(21);
    OnesSplit(X_MASK, 11, 21);
    OnesSplit(Y_MASK, 11, 21);
    ComplementarySplit(X_MASK, Y_MASK, 11, 21);
    PowSum(24, 1);
    SevenBits();
  }

  lemma {:induction false} SevenBits()
    ensures Pow2(7) == 128
  {
  }

  /** The word address of pixel (x, y): tiles of 128 rows lie one after the other. */
  function Address(x: nat, y: nat): nat {
    SwizzleX(x + PADDED_WIDTH * (y / TILE_HEIGHT)) + SwizzleY(y)
  }

  /** The pixel at a word address. */
  function PixelAt(a: nat): (nat, nat) {
    var column := Extract(X_MASK, a, 32);
    (column % PADDED_WIDTH, TILE_HEIGHT * (column / PADDED_WIDTH) + Extract(Y_MASK, a, 32))
  }

  predicate InColumns(x: nat, y: nat) {
    x < PADDED_WIDTH && x + PADDED_WIDTH * (y / TILE_HEIGHT) < X_LIMIT
  }

  lemma {:induction false} LowSplit(v: nat, c: nat)
    ensures v == Low(v, c) + Shl(Shr'(v, c), c) && Low(v, c) < Pow2(c)
    decreases c
  {
    if c > 0 { LowSplit(v / 2, c - 1); }
  }

  lemma {:induction false} LowSeven(y: nat)
    ensures Low(y, 7) == y % TILE_HEIGHT
  {
    hide Low, Shr', Shl;
    LowSplit(y, 7);
    SevenBits();
    ShlIsProduct(Shr'(y, 7), 7);
  }

  /** Every pixel can be read back from its address, so distinct pixels have distinct addresses. */
  lemma {:induction false} PixelAtAddress(x: nat, y: nat)
    requires InColumns(x, y)
    ensures PixelAt(Address(x, y)) == (x, y) && Address(x, y) < WORD
  {
    hide Deposit, Extract, Ones, Low, Complementary;
    Masks();
    var column := x + PADDED_WIDTH * (y / TILE_HEIGHT);
    ExtractSum(X_MASK, Y_MASK, column, y, 32);
    LowOfSmall(column, 25);
    LowSeven(y);
  }

  /** Every address belongs to the pixel read from it. */
  lemma {:induction false} AddressOfPixelAt(a: nat)
    requires a < WORD
    ensures Address(PixelAt(a).0, PixelAt(a).1) == a && InColumns(PixelAt(a).0, PixelAt(a).1)
  {
    hide Deposit, Extract, Ones, Low, Complementary;
    Masks();
    var column, row := Extract(X_MASK, a, 32), Extract(Y_MASK, a, 32);
    ExtractBound(X_MASK, a, 32);
    ExtractBound(Y_MASK, a, 32);
    Reassemble(X_MASK, Y_MASK, a, 32);
    LowOfSmall(a, 32);
    var y := PixelAt(a).1;
    assert y / TILE_HEIGHT == column / PADDED_WIDTH && y % TILE_HEIGHT == row;
    LowSeven(y);
    LowSeven(row);
    DepositLow(Y_MASK, y, row, 32);
  }

  lemma {:induction false} Shr4(v: nat)
    ensures Shr'(v, 4) == v / 16 && Low(v, 4) == v % 16
  {
    hide Low, Shr', Shl;
    LowSplit(v, 4);
    FourBits();
    ShlIsProduct(Shr'(v, 4), 4);
  }

  lemma {:induction false} FourBits()
    ensures Pow2(4) == 16
  {
  }

  /** Above its lowest sixteen columns the swizzle is a multiplication. */
  lemma {:induction false} SwizzleXParts(v: nat)
    requires v < X_LIMIT
    ensures SwizzleX(v) == Deposit(X_MASK, v, 11) + 2048 * (v / 16)
  {
    hide Deposit, Shr', Ones, Low, Complementary, Shl, Pow2;
    LowMasks();
    Powers();
    DepositSplit(X_MASK, v, 11, 21);
    Shr4(v);
    DepositEverywhere(v / 16, 21);
    ShlIsProduct(v / 16, 11);
  }

  const ROW_INCREMENT := 0x2_8000

  lemma {:induction false} RowIncrement()
    ensures SwizzleX(PADDED_WIDTH) == ROW_INCREMENT
  {
    hide Deposit, Shr', Ones, Low;
    SwizzleXParts(PADDED_WIDTH);
    LowMasks();
    Shr4(0);
    Shr4(PADDED_WIDTH);
    DepositLow(X_MASK, 0, PADDED_WIDTH, 11);
    DepositZero(X_MASK, 11);
  }

  /** Adding whole tile rows to a column adds that many row increments to its swizzle. */
  lemma {:induction false} RowOfTiles(x: nat, j: nat)
    requires x + PADDED_WIDTH * j < X_LIMIT
    ensures SwizzleX(x + PADDED_WIDTH * j) == SwizzleX(x) + ROW_INCREMENT * j
  {
    hide Deposit, Shr', Ones, Low, SwizzleX;
    var v := x + PADDED_WIDTH * j;
    SwizzleXParts(v);
    SwizzleXParts(x);
    LowMasks();
    Shr4(x);
    Shr4(v);
    assert v / 16 == x / 16 + 80 * j && v % 16 == x % 16;
    DepositLow(X_MASK, x, v, 11);
  }

  lemma {:induction false} DepositZero(mask: nat, k: nat)
    ensures Deposit(mask, 0, k) == 0
    decreases k
  {
    if k > 0 { DepositZero(mask / 2, k - 1); }
  }

  /** The row part of an address is 0 exactly on the first row of a tile. */
  lemma {:induction false} SwizzleYZero(y: nat)
    ensures SwizzleY(y) == 0 <==> y % TILE_HEIGHT == 0
  {
    hide Deposit, Extract, Ones, Low, Complementary;
    Masks();
    LowSeven(y);
    LowSeven(0);
    DepositZero(Y_MASK, 32);
    DepositZero(X_MASK, 32);
    ExtractSum(X_MASK, Y_MASK, 0, y, 32);
    ExtractSum(X_MASK, Y_MASK, 0, 0, 32);
    if y % TILE_HEIGHT == 0 { DepositLow(Y_MASK, y, 0, 32); }
  }

  // ----- the loops -----

  lemma {:induction false} ShrStep(a: nat, k: nat)
    ensures Shr'(a, k + 1) == Shr'(a, k) / 2
    decreases k
  {
    if k > 0 { ShrStep(a / 2, k - 1); }
  }

  lemma {:induction false} TestBit(mask: nat, k: nat)
    ensures And(mask, Pow2(k)) != 0 <==> Shr'(mask, k) % 2 == 1
    decreases k
  {
    if k == 0 {
      AndUnfold(mask, 1);
    } else {
      TestBit(mask / 2, k - 1);
      AndUnfold(mask, Pow2(k));
    }
  }

  /** `pdep`: one place of the mask after the other, from the lowest. */
  method Pdep(mask: word, value: word) returns (out: word)
    ensures out == Deposit(mask, value, 32)
  {
    hide Deposit, Shl, And, Or;
    out := 0;
    var v: nat := value;
    PdepStart(mask, value);
    for shift := 0 to 32
      invariant out < Pow2(shift)
      invariant Deposit(mask, value, 32) == out + Shl(Deposit(Shr'(mask, shift), v, 32 - shift), shift)
    {
      var bit := Pow2(shift);
      TestBit(mask, shift);
      PdepStep(mask, v, shift, out);
      ghost var rest := v;
      if And(mask, bit) != 0 {
        if v % 2 == 1 {
          out := Or(out, bit);
        }
        v := v / 2;
      }
    }
    PdepEnd(mask, v);
  }

  lemma {:induction false} PdepStart(mask: nat, v: nat)
    ensures Shl(Deposit(Shr'(mask, 0), v, 32), 0) == Deposit(mask, v, 32) && Pow2(0) == 1
  {
  }

  lemma {:induction false} PdepEnd(mask: nat, v: nat)
    ensures Shl(Deposit(Shr'(mask, 32), v, 0), 32) == 0
  {
    ShlZero(32);
  }

  lemma {:induction false} ShlBit(low: nat, rest: nat, shift: nat)
    requires low <= 1
    ensures Shl(low + 2 * rest, shift) == (if low == 1 then Pow2(shift) else 0) + Shl(rest, shift + 1)
  {
    ShlPlus(low, 2 * rest, shift);
    ShlZero(shift);
    ShlShl(rest, 1, shift);
    assert Shl(rest, 1) == 2 * rest by { assert Shl(rest, 0) == rest; }
  }

  lemma {:induction false} PdepStep(mask: nat, v: nat, shift: nat, out: nat)
    requires shift < 32 && out < Pow2(shift)
    ensures var d := Shl(Deposit(Shr'(mask, shift), v, 32 - shift), shift);
            if Shr'(mask, shift) % 2 == 1
            then d == (if v % 2 == 1 then Pow2(shift) else 0) +
                      Shl(Deposit(Shr'(mask, shift + 1), v / 2, 31 - shift), shift + 1)
            else d == Shl(Deposit(Shr'(mask, shift + 1), v, 31 - shift), shift + 1)
    ensures Or(out, Pow2(shift)) == out + Pow2(shift) && Pow2(shift + 1) == 2 * Pow2(shift) <= WORD
  {
    hide Deposit, Or, Shr', Shl, Pow2;
    ShrStep(mask, shift);
    DepositUnfold(Shr'(mask, shift), v, 32 - shift);
    ShlBit(v % 2, Deposit(Shr'(mask, shift + 1), v / 2, 31 - shift), shift);
    ShlBit(0, Deposit(Shr'(mask, shift + 1), v, 31 - shift), shift);
    PdepBit(shift, out);
  }

  lemma {:induction false} PdepBit(shift: nat, out: nat)
    requires shift < 32 && out < Pow2(shift)
    ensures Or(out, Pow2(shift)) == out + Pow2(shift) && Pow2(shift + 1) == 2 * Pow2(shift) <= WORD
  {
    OrLow(1, shift, out);
    PowerAtMost(shift + 1, 32);
    Powers();
  }

  lemma {:induction false} PowerAtMost(i: nat, j: nat)
    requires i <= j
    ensures Pow2(i) <= Pow2(j)
    decreases j
  {
    if i < j { PowerAtMost(i, j - 1); }
  }

  /** Where the image keeps row `j`, and how many pixels come before it. */
  function RowStart(j: nat, w: nat): nat
    decreases j
  {
    if j == 0 then 0 else RowStart(j - 1, w) + w
  }

  lemma {:induction false} RowsFit(j: nat, h: nat, w: nat)
    requires j < h
    ensures RowStart(j, w) + w <= RowStart(h, w)
    decreases h
  {
    if j < h - 1 { RowsFit(j, h - 1, w); }
  }

  /** The rectangle of the blit and its image. */
  datatype Rect = Rect(tx: nat, ty: nat, w: nat, h: nat)

  predicate Contains(r: Rect, p: (nat, nat)) {
    r.tx <= p.0 < r.tx + r.w && r.ty <= p.1 < r.ty + r.h
  }

  function ImageIndex(r: Rect, p: (nat, nat)): nat
    requires Contains(r, p)
  {
    RowStart(p.1 - r.ty, r.w) + (p.0 - r.tx)
  }

  /** Every pixel of the rectangle has an address inside the buffer, and the image is large enough. */
  ghost predicate Fits(r: Rect, size: nat, image: seq<word>) {
    && size <= WORD && RowStart(r.h, r.w) <= |image|
    && r.tx < 0x8000_0000 && r.ty + r.h < 0x8000_0000
    && forall x: nat, y: nat :: Contains(r, (x, y)) ==> InColumns(x, y) && Address(x, y) < size
  }

  function ImagePixel(r: Rect, image: seq<word>, p: (nat, nat)): word
    requires Contains(r, p)
  {
    if ImageIndex(r, p) < |image| then image[ImageIndex(r, p)] else 0
  }

  /** Pixel `p` is written before the loops reach (x, y). */
  predicate Before(p: (nat, nat), x: nat, y: nat) {
    p.1 < y || (p.1 == y && p.0 < x)
  }

  /** What the buffer holds when the loops stand at (x, y): the pixels before it, and elsewhere what was there. */
  ghost predicate Painted(before: seq<word>, after: seq<word>, r: Rect, image: seq<word>, x: nat, y: nat) {
    && |after| == |before|
    && forall a :: 0 <= a < |after| ==>
        after[a] == if Contains(r, PixelAt(a)) && Before(PixelAt(a), x, y) then ImagePixel(r, image, PixelAt(a))
                    else before[a]
  }

  /** Writing one pixel moves the painted region on by one. */
  lemma {:induction false} PaintOne(before: seq<word>, middle: seq<word>, r: Rect, image: seq<word>, x: nat, y: nat)
    requires Fits(r, |before|, image) && Contains(r, (x, y)) && Painted(before, middle, r, image, x, y)
    ensures Address(x, y) < |middle| && ImageIndex(r, (x, y)) < |image|
    ensures Painted(before, middle[Address(x, y) := image[ImageIndex(r, (x, y))]], r, image, x + 1, y)
  {
    hide Address, PixelAt, RowStart;
    RowsFit(y - r.ty, r.h, r.w);
    PixelAtAddress(x, y);
    var after := middle[Address(x, y) := image[ImageIndex(r, (x, y))]];
    forall a | 0 <= a < |after|
      ensures after[a] == if Contains(r, PixelAt(a)) && Before(PixelAt(a), x + 1, y)
                          then ImagePixel(r, image, PixelAt(a))
                          else before[a]
    {
      if a != Address(x, y) { AddressOfPixelAt(a); }
    }
  }

  lemma {:induction false} PaintRow(before: seq<word>, after: seq<word>, r: Rect, image: seq<word>, y: nat)
    requires Painted(before, after, r, image, r.tx + r.w, y)
    ensures Painted(before, after, r, image, r.tx, y + 1)
  {
  }

  lemma {:induction false} StepX(v: nat)
    ensures And((SwizzleX(v) - X_MASK) % WORD, X_MASK) == SwizzleX(v + 1)
  {
    hide And, Deposit, Shl;
    Powers();
    MaskedIncrement(X_MASK, v, 32);
  }

  lemma {:induction false} StepY(v: nat)
    ensures And((SwizzleY(v) - Y_MASK) % WORD, Y_MASK) == SwizzleY(v + 1)
  {
    hide And, Deposit, Shl;
    Powers();
    MaskedIncrement(Y_MASK, v, 32);
  }

  /** One row: the column part of the address moves by masked subtraction alone. */
  method BlitRow(buffer: array<word>, image: seq<word>, r: Rect, y: nat, src0: nat, offsX0: word, offsY: word,
                 xMask: word, ghost before: seq<word>)
    returns (src: nat)
    requires Fits(r, buffer.Length, image) && r.ty <= y < r.ty + r.h && |before| == buffer.Length
    requires src0 == RowStart(y - r.ty, r.w) && xMask == X_MASK && offsY == SwizzleY(y)
    requires r.w > 0 ==> offsX0 == SwizzleX(r.tx + PADDED_WIDTH * (y / TILE_HEIGHT))
    requires Painted(before, buffer[..], r, image, r.tx, y)
    modifies buffer
    ensures src == src0 + r.w && Painted(before, buffer[..], r, image, r.tx, y + 1)
  {
    hide SwizzleX, SwizzleY, RowStart, Painted, And;
    var offsX := offsX0;
    var x := r.tx;
    src := src0;
    while x < r.tx + r.w
      invariant r.tx <= x <= r.tx + r.w && src == src0 + (x - r.tx)
      invariant x < r.tx + r.w ==> offsX == SwizzleX(x + PADDED_WIDTH * (y / TILE_HEIGHT))
      invariant Painted(before, buffer[..], r, image, x, y)
    {
      PaintOne(before, buffer[..], r, image, x, y);
      ghost var middle := buffer[..];
      buffer[offsY + offsX] := image[src];
      assert buffer[..] == middle[Address(x, y) := image[ImageIndex(r, (x, y))]];
      StepX(x + PADDED_WIDTH * (y / TILE_HEIGHT));
      offsX := And((offsX - xMask) % WORD, xMask);
      src := src + 1;
      x := x + 1;
    }
    PaintRow(before, buffer[..], r, image, y);
  }

  /** The column offset of the row the loop stands at, as long as that row has pixels. */
  ghost predicate RowOffset(r: Rect, y: nat, offsX0: nat) {
    y < r.ty + r.h && r.w > 0 ==> offsX0 == SwizzleX(r.tx + PADDED_WIDTH * (y / TILE_HEIGHT))
  }

  lemma {:induction false} FirstRow(r: Rect, size: nat, image: seq<word>)
    requires Fits(r, size, image)
    ensures RowOffset(r, r.ty, (SwizzleX(r.tx) + ROW_INCREMENT * (r.ty / TILE_HEIGHT)) % WORD)
  {
    hide SwizzleX, Address, RowStart;
    if r.h > 0 && r.w > 0 {
      assert Contains(r, (r.tx, r.ty));
      RowOfTiles(r.tx, r.ty / TILE_HEIGHT);
    }
  }

  lemma {:induction false} NextRow(r: Rect, size: nat, image: seq<word>, y: nat, offsX0: nat)
    requires Fits(r, size, image) && r.ty <= y < r.ty + r.h && RowOffset(r, y, offsX0)
    ensures RowOffset(r, y + 1, if (y + 1) % TILE_HEIGHT == 0 then (offsX0 + ROW_INCREMENT) % WORD else offsX0)
  {
    hide SwizzleX, Address, RowStart;
    if y + 1 < r.ty + r.h && r.w > 0 {
      assert Contains(r, (r.tx, y)) && Contains(r, (r.tx, y + 1));
      RowOfTiles(r.tx, y / TILE_HEIGHT);
      RowOfTiles(r.tx, (y + 1) / TILE_HEIGHT);
      NextTile(y);
    }
  }

  lemma {:induction false} NextTile(y: nat)
    ensures (y + 1) / TILE_HEIGHT == y / TILE_HEIGHT + (if (y + 1) % TILE_HEIGHT == 0 then 1 else 0)
  {
  }

  /**
   `gfx_slow_swizzling_blit`: afterwards every address that belongs to a pixel of the rectangle holds that pixel
   of the image, and every other address what it held before.
   */
  method SwizzlingBlit(buffer: array<word>, image: seq<word>, r: Rect)
    requires Fits(r, buffer.Length, image)
    modifies buffer
    ensures forall a :: 0 <= a < buffer.Length ==>
              buffer[a] == if Contains(r, PixelAt(a)) then ImagePixel(r, image, PixelAt(a)) else old(buffer[a])
  {
    hide Address, PixelAt, RowStart, And, RowOffset, Deposit, Painted;
    ghost var before := buffer[..];
    MasksOfAll();
    RowIncrement();
    FirstRow(r, buffer.Length, image);
    PaintNothing(before, r, image);
    var offsX0: word := Pdep(X_MASK, r.tx);
    var offsY: word := Pdep(Y_MASK, r.ty);
    var xMask := Pdep(X_MASK, 0xFFFF_FFFF);
    var yMask := Pdep(Y_MASK, 0xFFFF_FFFF);
    var incrY := Pdep(X_MASK, PADDED_WIDTH);
    offsX0 := (offsX0 + incrY * (r.ty / TILE_HEIGHT)) % WORD;
    var y, src := r.ty, 0;
    while y < r.ty + r.h
      invariant r.ty <= y <= r.ty + r.h && src == RowStart(y - r.ty, r.w)
      invariant offsY == SwizzleY(y) && RowOffset(r, y, offsX0)
      invariant Painted(before, buffer[..], r, image, r.tx, y)
    {
      RowOffsetMeans(r, y, offsX0);
      src := BlitRow(buffer, image, r, y, src, offsX0, offsY, xMask, before);
      RowStartNext(y - r.ty, r.w);
      StepY(y);
      SwizzleYZero(y + 1);
      NextRow(r, buffer.Length, image, y, offsX0);
      offsY := And((offsY - yMask) % WORD, yMask);
      if offsY == 0 { offsX0 := (offsX0 + incrY) % WORD; }
      y := y + 1;
    }
    PaintedAll(before, buffer[..], r, image);
  }

  lemma {:induction false} RowOffsetMeans(r: Rect, y: nat, offsX0: nat)
    requires RowOffset(r, y, offsX0) && y < r.ty + r.h
    ensures r.w > 0 ==> offsX0 == SwizzleX(r.tx + PADDED_WIDTH * (y / TILE_HEIGHT))
  {
  }

  lemma {:induction false} RowStartNext(j: nat, w: nat)
    ensures RowStart(j + 1, w) == RowStart(j, w) + w && RowStart(0, w) == 0
  {
  }

  lemma {:induction false} PaintNothing(before: seq<word>, r: Rect, image: seq<word>)
    ensures Painted(before, before, r, image, r.tx, r.ty) && RowStart(0, r.w) == 0
  {
  }

  lemma {:induction false} PaintedAll(before: seq<word>, after: seq<word>, r: Rect, image: seq<word>)
    requires Painted(before, after, r, image, r.tx, r.ty + r.h)
    ensures |after| == |before|
    ensures forall a :: 0 <= a < |after| ==>
              after[a] == if Contains(r, PixelAt(a)) then ImagePixel(r, image, PixelAt(a)) else before[a]
  {
  }

  lemma {:induction false} MasksOfAll()
    ensures SwizzleX(0xFFFF_FFFF) == X_MASK && SwizzleY(0xFFFF_FFFF) == Y_MASK
  {
    hide Deposit;
    Powers();
    DepositAll(X_MASK, 32);
    DepositAll(Y_MASK, 32);
  }
}
