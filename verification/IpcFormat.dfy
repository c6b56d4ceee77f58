/** The header words of an IPC message and the fields in them. */
module IpcFormat {
  import opened Types
  import opened Bits

  /** `ipc_buffer_t`. */
  datatype Buffer = Buffer(addr: long, size: long, kind: word)

  const NULL_BUFFER := Buffer(0, 0, 0)

  datatype Error =
    UnsupportedBufferType | TooManyBuffers | TooManyHandles | InvalidBufferAddress | InvalidBufferSize
    | InvalidProtection | UnexpectedPid | UnexpectedCopyHandles | UnexpectedMoveHandles | UnexpectedRawDataSize
    | UnexpectedBufferProtection | Unimplemented | InvalidRequestType | InvalidRawDataSize | HandlesOverrun

  // ----- header fields -----

  /** Header field 1: the counts are or-ed in at bits 16, 20 and 24. */
  function Header0(kind: nat, x: nat, a: nat, b: nat): nat {
    Or(Or(Or(kind, Shl(x, 16)), Shl(a, 20)), Shl(b, 24))
  }

  /** Header field 2 without the size: C descriptor flags at bit 10, the handle descriptor flag at bit 31. */
  function Header1(flags: nat, enabled: bool): nat {
    Or(Shl(flags, 10), Shl(if enabled then 1 else 0, 31))
  }

  function HandleWord(pid: bool, copies: nat, moves: nat): nat {
    Or(Or(if pid then 1 else 0, Shl(copies, 1)), Shl(moves, 5))
  }

  /** How many C descriptors there are, as flags. */
  function CFlags(c: nat): (r: nat)
    ensures (r == 0 <==> c == 0) && (r == 2 <==> c == 1) && (c > 1 ==> r == c + 2)
  {
    if c == 0 then 0 else if c == 1 then 2 else c + 2
  }

  lemma OrField(low: nat, field: nat, k: nat, p: nat)
    requires p == Pow2(k) && low < p
    ensures Or(low, Shl(field, k)) == low + field * p
  {
    OrLow(field, k, low);
    ShlIsProduct(field, k);
  }

  lemma IpcPowers()
    ensures Pow2(1) == 2 && Pow2(5) == 0x20 && Pow2(10) == 0x400 && Pow2(16) == 0x1_0000
    ensures Pow2(20) == 0x10_0000 && Pow2(24) == 0x100_0000 && Pow2(31) == 0x8000_0000
  {
    Powers();
    SmallPowers();
    PowSum(5, 5);
    assert Pow2(5) == 32;
  }

  lemma Header0Sum(kind: nat, x: nat, a: nat, b: nat)
    requires kind < 0x1_0000 && x < 16 && a < 16
    ensures Header0(kind, x, a, b) == kind + x * 0x1_0000 + a * 0x10_0000 + b * 0x100_0000
  {
    hide Or, Shl, Pow2;
    IpcPowers();
    OrField(kind, x, 16, 0x1_0000);
    OrField(kind + x * 0x1_0000, a, 20, 0x10_0000);
    OrField(kind + x * 0x1_0000 + a * 0x10_0000, b, 24, 0x100_0000);
  }

  lemma Header1Sum(flags: nat, enabled: bool, size: nat)
    requires flags < 16 && size < 0x400
    ensures Or(Header1(flags, enabled), size) == size + flags * 0x400 + (if enabled then 0x8000_0000 else 0)
  {
    hide Or, Shl, Pow2;
    IpcPowers();
    var e := if enabled then 1 else 0;
    ShlIsProduct(flags, 10);
    OrField(Shl(flags, 10), e, 31, 0x8000_0000);
    ShlIsProduct(flags + e * 0x20_0000, 10);
    OrLow(flags + e * 0x20_0000, 10, size);
  }

  lemma HandleWordSum(pid: bool, copies: nat, moves: nat)
    requires copies < 16
    ensures HandleWord(pid, copies, moves) == (if pid then 1 else 0) + copies * 2 + moves * 0x20
  {
    hide Or, Shl, Pow2;
    IpcPowers();
    var p := if pid then 1 else 0;
    OrField(p, copies, 1, 2);
    OrField(p + copies * 2, moves, 5, 0x20);
  }

  lemma FieldsOf(kind: nat, x: nat, a: nat, b: nat, h: nat)
    requires kind < 0x1_0000 && x < 16 && a < 16 && b < 16
    requires h == kind + x * 0x1_0000 + a * 0x10_0000 + b * 0x100_0000
    ensures h % 0x1_0000 == kind && h / 0x1_0000 % 16 == x && h / 0x10_0000 % 16 == a && h / 0x100_0000 % 16 == b
    ensures h / 0x1000_0000 == 0
  {
    assert h / 0x1_0000 == x + 16 * (a + 16 * b);
    assert h / 0x10_0000 == a + 16 * b;
    assert h / 0x100_0000 == b;
  }

  /** The four-bit fields of header 1 give back the counts exactly if each is below 16. */
  lemma CountsRecovered(kind: nat, x: nat, a: nat, b: nat)
    requires kind < 0x1_0000
    ensures var h := Header0(kind, x, a, b);
            h / 0x1_0000 % 16 == x && h / 0x10_0000 % 16 == a && h / 0x100_0000 % 16 == b <==>
                x < 16 && a < 16 && b < 16
    ensures x < 16 && a < 16 && b < 16 ==> Header0(kind, x, a, b) / 0x1000_0000 == 0
  {
    hide Header0;
    if x < 16 && a < 16 && b < 16 {
      Header0Sum(kind, x, a, b);
      FieldsOf(kind, x, a, b, Header0(kind, x, a, b));
    }
  }

  /** The type is recovered whatever the counts are. */
  lemma KindRecovered(kind: nat, x: nat, a: nat, b: nat)
    requires kind < 0x1_0000
    ensures Header0(kind, x, a, b) % 0x1_0000 == kind
  {
    hide Or, Shl, Pow2;
    IpcPowers();
    LowKept(kind, 0, x);
    var one := Or(0, x);
    ShlShl(a, 4, 16);
    LowKept(kind, one, Shl(a, 4));
    var two := Or(one, Shl(a, 4));
    ShlShl(b, 8, 16);
    LowKept(kind, two, Shl(b, 8));
  }

  lemma LowKept(kind: nat, high: nat, more: nat)
    requires kind < 0x1_0000
    ensures Or(kind + Shl(high, 16), Shl(more, 16)) == kind + Shl(Or(high, more), 16)
    ensures (kind + Shl(Or(high, more), 16)) % 0x1_0000 == kind
    ensures Shl(0, 16) == 0
  {
    hide Or, Shl, Pow2;
    IpcPowers();
    OrHigh(16, kind, 0, high, more);
    OrZero(kind);
    ShlZero(16);
    ShlIsProduct(Or(high, more), 16);
  }

  /** The ten-bit size and the four-bit C flags of header 2 are recovered exactly if they fit. */
  lemma SizesRecovered(flags: nat, enabled: bool, size: nat)
    requires flags < 0x20_0000 && size < 0x8000_0000
    ensures var h := Or(Header1(flags, enabled), size);
            && (h % 0x400 == size && h / 0x400 % 16 == flags <==> size < 0x400 && flags < 16)
            && h / 0x8000_0000 == (if enabled then 1 else 0) && h < 0x1_0000_0000
  {
    hide Or, Shl, Pow2, Header1;
    IpcPowers();
    var e := if enabled then 1 else 0;
    Header1Parts(flags, enabled);
    OrBound(31, flags * 0x400, size);
    OrHigh(31, flags * 0x400, size, e, 0);
    OrZero(e);
    ShlZero(31);
    ShlIsProduct(e, 31);
    if size < 0x400 && flags < 16 {
      Header1Sum(flags, enabled, size);
      SizeFields(flags, enabled, size);
    }
  }

  lemma Header1Parts(flags: nat, enabled: bool)
    requires flags < 0x20_0000
    ensures Header1(flags, enabled) == flags * 0x400 + Shl(if enabled then 1 else 0, 31)
  {
    hide Or, Shl, Pow2;
    IpcPowers();
    var e := if enabled then 1 else 0;
    ShlIsProduct(flags, 10);
    OrField(Shl(flags, 10), e, 31, 0x8000_0000);
    ShlIsProduct(e, 31);
  }

  lemma SizeFields(flags: nat, enabled: bool, size: nat)
    requires flags < 16 && size < 0x400
    ensures var h := size + flags * 0x400 + (if enabled then 0x8000_0000 else 0);
            h % 0x400 == size && h / 0x400 % 16 == flags
  {
    var h := size + flags * 0x400 + (if enabled then 0x8000_0000 else 0);
    assert h / 0x400 == flags + 16 * (if enabled then 0x2_0000 else 0);
  }

  lemma Header0Small(kind: nat, x: nat, a: nat, b: nat)
    requires kind < 0x1_0000 && x <= 16 && a <= 16 && b <= 16
    ensures Header0(kind, x, a, b) < 0x1_0000_0000
  {
    hide Or, Shl, Pow2;
    IpcPowers();
    ShlIsProduct(x, 16);
    ShlIsProduct(a, 20);
    ShlIsProduct(b, 24);
    OrBound(31, kind, Shl(x, 16));
    OrBound(31, Or(kind, Shl(x, 16)), Shl(a, 20));
    OrBound(31, Or(Or(kind, Shl(x, 16)), Shl(a, 20)), Shl(b, 24));
  }
}
