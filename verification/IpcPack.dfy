/** Which descriptors the buffers of a message become, and what a descriptor is written and read as. */
module IpcPack {
  import opened Types
  import opened Bits
  import opened IpcFormat

  // ----- which descriptors a buffer becomes -----

  predicate Flagged(kind: word) {
    kind / 0x20 % 2 == 1
  }

  predicate IsKind(kind: word, direction: nat, family: nat) {
    !Flagged(kind) && kind % 4 == direction && kind / 4 % 4 == family
  }

  function ToA(b: Buffer): seq<Buffer> {
    if IsKind(b.kind, 1, 1) || b.kind == 0x21 then [b] else []
  }

  function ToB(b: Buffer): seq<Buffer> {
    if IsKind(b.kind, 2, 1) || b.kind == 0x22 then [b] else []
  }

  function ToC(b: Buffer): seq<Buffer> {
    if IsKind(b.kind, 2, 2) then [b] else if b.kind == 0x22 then [NULL_BUFFER] else []
  }

  function ToX(b: Buffer): seq<Buffer> {
    if IsKind(b.kind, 1, 2) then [b] else if b.kind == 0x21 then [NULL_BUFFER] else []
  }

  predicate Supported(kind: word) {
    || IsKind(kind, 1, 1) || IsKind(kind, 1, 2) || IsKind(kind, 2, 1) || IsKind(kind, 2, 2)
    || kind == 0x21 || kind == 0x22
  }

  datatype Groups = Groups(a: seq<Buffer>, b: seq<Buffer>, c: seq<Buffer>, x: seq<Buffer>)

  /** The descriptors of each type, in the order of the buffers. */
  function Grouped(buffers: seq<Buffer>): Groups {
    if buffers == [] then Groups([], [], [], [])
    else
      var g, l := Grouped(buffers[..|buffers| - 1]), buffers[|buffers| - 1];
      Added(g, l)
  }

  predicate Full(g: Groups, b: Buffer) {
    || (ToA(b) != [] && |g.a| >= 16) || (ToB(b) != [] && |g.b| >= 16)
    || (ToC(b) != [] && |g.c| >= 16) || (ToX(b) != [] && |g.x| >= 16)
  }

  /** The first buffer that has an unknown type, or that is one too many of its type. */
  function GroupError(buffers: seq<Buffer>): Option<Error> {
    if buffers == [] then None
    else
      var before, l := buffers[..|buffers| - 1], buffers[|buffers| - 1];
      if GroupError(before).Some? then GroupError(before)
      else if !Supported(l.kind) then Some(UnsupportedBufferType)
      else if Full(Grouped(before), l) then Some(TooManyBuffers)
      else None
  }

  lemma {:induction false} ErrorStays(buffers: seq<Buffer>, i: nat)
    requires i <= |buffers| && GroupError(buffers[..i]).Some?
    ensures GroupError(buffers) == GroupError(buffers[..i])
    decreases |buffers|
  {
    if i == |buffers| {
      assert buffers[..i] == buffers;
    } else {
      assert buffers[..|buffers| - 1][..i] == buffers[..i];
      ErrorStays(buffers[..|buffers| - 1], i);
    }
  }

  lemma {:induction false} GroupsBounded(buffers: seq<Buffer>)
    requires GroupError(buffers) == None
    ensures var g := Grouped(buffers); |g.a| <= 16 && |g.b| <= 16 && |g.c| <= 16 && |g.x| <= 16
    decreases |buffers|
  {
    if buffers != [] { GroupsBounded(buffers[..|buffers| - 1]); }
  }

  function Added(g: Groups, b: Buffer): Groups {
    Groups(g.a + ToA(b), g.b + ToB(b), g.c + ToC(b), g.x + ToX(b))
  }

  /** One buffer of the grouping loop. */
  method Place(g0: Groups, b: Buffer) returns (error: Option<Error>, g: Groups)
    ensures error == if !Supported(b.kind) then Some(UnsupportedBufferType)
                     else if Full(g0, b) then Some(TooManyBuffers) else None
    ensures error == None ==> g == Added(g0, b)
  {
    hide Flagged;
    FlaggedKinds();
    g, error := g0, None;
    var direction, family := b.kind % 4, b.kind / 4 % 4;
    if !Flagged(b.kind) {
      if direction == 1 && family == 1 {
        if |g.a| >= 16 { error := Some(TooManyBuffers); } else { g := g.(a := g.a + [b]); }
      } else if direction == 1 && family == 2 {
        if |g.x| >= 16 { error := Some(TooManyBuffers); } else { g := g.(x := g.x + [b]); }
      } else if direction == 2 && family == 1 {
        if |g.b| >= 16 { error := Some(TooManyBuffers); } else { g := g.(b := g.b + [b]); }
      } else if direction == 2 && family == 2 {
        if |g.c| >= 16 { error := Some(TooManyBuffers); } else { g := g.(c := g.c + [b]); }
      } else {
        error := Some(UnsupportedBufferType);
      }
    } else if b.kind == 0x21 {
      if |g.a| >= 16 || |g.x| >= 16 {
        error := Some(TooManyBuffers);
      } else {
        g := g.(a := g.a + [b], x := g.x + [NULL_BUFFER]);
      }
    } else if b.kind == 0x22 {
      if |g.b| >= 16 || |g.c| >= 16 {
        error := Some(TooManyBuffers);
      } else {
        g := g.(b := g.b + [b], c := g.c + [NULL_BUFFER]);
      }
    } else {
      error := Some(UnsupportedBufferType);
    }
  }

  /** The loop that groups the buffers by descriptor type. */
  method Group(buffers: seq<Buffer>) returns (error: Option<Error>, g: Groups)
    ensures error == GroupError(buffers)
    ensures error == None ==> g == Grouped(buffers)
  {
    hide Supported, Full, ToA, ToB, ToC, ToX;
    g := Groups([], [], [], []);
    for i := 0 to |buffers|
      invariant GroupError(buffers[..i]) == None && g == Grouped(buffers[..i])
    {
      assert buffers[..i + 1][..i] == buffers[..i];
      error, g := Place(g, buffers[i]);
      if error.Some? {
        ErrorStays(buffers, i + 1);
        return;
      }
    }
    assert buffers[..|buffers|] == buffers;
    error := None;
  }

  lemma FlaggedKinds()
    ensures Flagged(0x21) && Flagged(0x22)
  {
  }

  // ----- descriptors -----

  const P16 := 0x1_0000
  const P32 := 0x1_0000_0000
  const P35 := 0x8_0000_0000
  const P36 := 0x10_0000_0000
  const P39 := 0x80_0000_0000
  const P48 := 0x1_0000_0000_0000

  function XError(b: Buffer): Option<Error> {
    if b.addr >= P39 then Some(InvalidBufferAddress) else if b.size >= P16 then Some(InvalidBufferSize) else None
  }

  function ABError(b: Buffer): Option<Error> {
    if b.addr >= P39 then Some(InvalidBufferAddress)
    else if b.size >= P35 then Some(InvalidBufferSize)
    else if b.kind >= 0x100 then Some(InvalidProtection)
    else None
  }

  function LengthError(b: Buffer): Option<Error> {
    if Listed(b) && b.size >= P16 then Some(InvalidBufferSize) else None
  }

  function CError(b: Buffer): Option<Error> {
    if b.addr >= P48 then Some(InvalidBufferAddress) else if b.size >= P16 then Some(InvalidBufferSize) else None
  }

  /** A C descriptor without flag 0x10 has its length in the list of halfwords. */
  predicate Listed(b: Buffer) {
    b.kind / 0x10 % 2 == 0
  }

  /** An X descriptor; the fields do not overlap once the address and the size were checked. */
  function XWords(i: nat, b: Buffer): (r: seq<word>)
    requires i < 16 && XError(b) == None
    ensures |r| == 2
  {
    [i + b.addr / P36 % 8 * 0x40 + i / 0x200 % 8 * 0x200 + b.addr / P32 % 16 * 0x1000 + b.size * P16, b.addr % P32]
  }

  function ABWords(b: Buffer): (r: seq<word>)
    requires ABError(b) == None
    ensures |r| == 3
  {
    [b.size % P32, b.addr % P32,
     b.kind / 0x40 + b.addr / P36 % 8 * 4 + b.size / P32 % 16 * 0x100_0000 + b.addr / P32 % 16 * 0x1000_0000]
  }

  function CWords(b: Buffer): (r: seq<word>)
    requires CError(b) == None
    ensures |r| == 2
  {
    [b.addr % P32, b.addr / P32 + b.size * P16]
  }

  /** The three parts an address below 2^39 is cut into. */
  lemma AddrParts(addr: nat)
    requires addr < P39
    ensures addr == addr / P36 % 8 * P36 + addr / P32 % 16 * P32 + addr % P32
  {
    var high := addr / P32;
    assert addr == high * P32 + addr % P32;
    assert high == high / 16 * 16 + high % 16 && addr / P36 == high / 16;
    assert high / 16 < 8;
  }

  lemma XFields(i: nat, top: nat, mid: nat, size: nat, w: nat)
    requires i < 0x40 && top < 8 && mid < 16 && w == i + top * 0x40 + mid * 0x1000 + size * P16
    ensures w % 0x40 == i && w / 0x40 % 8 == top && w / 0x1000 % 16 == mid && w / P16 == size
  {
    ModIs(w, 0x40, top + 8 * (mid * 8 + size * 0x80), i);
    ModIs(w, 0x1000, mid + 16 * size, i + top * 0x40);
    ModIs(w, P16, size, i + top * 0x40 + mid * 0x1000);
    ModIs(top + 8 * (mid * 8 + size * 0x80), 8, mid * 8 + size * 0x80, top);
    ModIs(mid + 16 * size, 16, size, mid);
  }

  lemma ABFields(prot: nat, top: nat, more: nat, mid: nat, w: nat)
    requires prot < 4 && top < 8 && more < 16 && mid < 16
    requires w == prot + top * 4 + more * 0x100_0000 + mid * 0x1000_0000
    ensures w % 4 == prot && w / 4 % 8 == top && w / 0x100_0000 % 16 == more && w / 0x1000_0000 % 16 == mid
  {
    assert w == prot + 4 * (top + more * 0x40_0000 + mid * 0x400_0000);
    assert w / 4 == top + 8 * (more * 0x8_0000 + mid * 0x80_0000);
    assert w / 0x100_0000 == more + 16 * mid;
    assert w / 0x1000_0000 == mid;
  }

  /** What an X descriptor is read as; its number is in the six low bits of its first word. */
  lemma XRead(i: nat, b: Buffer)
    requires i < 16 && XError(b) == None
    ensures var w := XWords(i, b);
            && w[0] / 0x40 % 8 * P36 + w[0] / 0x1000 % 16 * P32 + w[1] == b.addr && w[0] / P16 == b.size
            && w[0] % 0x40 == i
  {
    AddrParts(b.addr);
    XFields(i, b.addr / P36 % 8, b.addr / P32 % 16, b.size, XWords(i, b)[0]);
  }

  /** What an A or B descriptor is read as; the protection is in the two low bits of its last word. */
  lemma ABRead(b: Buffer)
    requires ABError(b) == None
    ensures var w := ABWords(b);
            && w[0] + w[2] / 0x100_0000 % 16 * P32 == b.size
            && w[1] + w[2] / 4 % 8 * P36 + w[2] / 0x1000_0000 % 16 * P32 == b.addr
            && w[2] % 4 == b.kind / 0x40
  {
    AddrParts(b.addr);
    assert b.size == b.size / P32 % 16 * P32 + b.size % P32;
    ABFields(b.kind / 0x40, b.addr / P36 % 8, b.size / P32 % 16, b.addr / P32 % 16, ABWords(b)[2]);
  }

  /** What a C descriptor says: the low word of the address, then its high halfword and the size. */
  lemma CRead(b: Buffer)
    requires CError(b) == None
    ensures var w := CWords(b);
            w[0] + w[1] % P16 * P32 == b.addr && w[1] / P16 == b.size
  {
    ModIs(b.addr / P32 + b.size * P16, P16, b.size, b.addr / P32);
  }

  /** A C descriptor has its length in the list exactly when bit 4 of its type is clear. */
  lemma ListedIff(b: Buffer)
    ensures Listed(b) <==> b.kind % 0x20 < 0x10
  {
    var q, r := b.kind / 0x20, b.kind % 0x20;
    var bit := if r < 0x10 then 0 else 1;
    ModIs(b.kind, 0x10, 2 * q + bit, r - 0x10 * bit);
    ModIs(2 * q + bit, 2, q, bit);
  }

  /** How the receiver tells the number of C descriptors from their flags; it has no answer to 1. */
  function CCount(flags: nat): Option<nat> {
    if flags == 0 then Some(0) else if flags == 1 then None else if flags == 2 then Some(1) else Some(flags - 2)
  }

  /** It is the number that was sent exactly when the flags fit into their four bits. */
  lemma CCountIff(c: nat)
    requires c <= 16
    ensures CCount(CFlags(c) % 16) == Some(c) <==> c <= 13
  {
  }
}
