/** Images and their regular files: where the blocks of a file lie, and what the file contains. */
module SqfsFile {
  import opened Types
  import opened Bits
  import opened SqfsCache
  import opened SqfsMetadata

  /** Where the tail of a file lies: a fragment block on disk and an offset in it. */
  datatype FragRef = FragRef(pos: nat, header: nat, offset: nat)

  datatype Inode = Inode(number: nat, startBlock: nat, fileSize: nat, frag: Option<FragRef>, next: Cursor)

  /** A file and the place of its block list in the flat stream of the inode table. */
  datatype File = File(inode: Inode, base: nat)

  /**
   An image: what reads of metadata and data blocks give, its inode table, and its files by number. A data or
   fragment block is always listed with the same size word; `dataHeader` and `fragHeader` say which.
   */
  datatype Image = Image(
    md: nat -> MdBlock, inodes: Table,
    data: (nat, nat) -> seq<byte>, dataHeader: nat -> nat, fragHeader: nat -> nat,
    blockSize: nat, files: nat -> File)

  // ----- sizes and positions -----

  /** `i` blocks of `size` bytes. */
  function PosOf(i: nat, size: nat): nat {
    if i == 0 then 0 else PosOf(i - 1, size) + size
  }

  lemma {:induction false} PosIsProduct(i: nat, size: nat)
    ensures PosOf(i, size) == i * size
    decreases i
  {
    if i > 0 {
      PosIsProduct(i - 1, size);
      assert i * size == (i - 1) * size + size;
    }
  }

  lemma {:induction false} PosGrows(i: nat, j: nat, size: nat)
    requires i < j
    ensures PosOf(i, size) + size <= PosOf(j, size)
    decreases j
  {
    if i < j - 1 { PosGrows(i, j - 1, size); }
  }

  /** Division is the block a byte lies in. */
  lemma BlockAt(start: nat, size: nat)
    requires 0 < size
    ensures PosOf(start / size, size) + start % size == start && start % size < size
  {
    PosIsProduct(start / size, size);
  }

  /** `sqfs_divceil`. */
  function DivCeil(total: nat, group: nat): nat
    requires 0 < group
  {
    if total % group != 0 then total / group + 1 else total / group
  }

  /** `sqfs_blocklist_count`: the tail goes into a fragment or is a short last block. */
  function Count(img: Image, inode: Inode): nat
    requires 0 < img.blockSize
  {
    if inode.frag.None? then DivCeil(inode.fileSize, img.blockSize) else inode.fileSize / img.blockSize
  }

  lemma CountFacts(img: Image, inode: Inode)
    requires 0 < img.blockSize
    ensures var n, size := Count(img, inode), inode.fileSize;
            && (inode.frag.Some? ==> PosOf(n, img.blockSize) <= size < PosOf(n, img.blockSize) + img.blockSize)
            && (inode.frag.Some? ==> size % img.blockSize == size - PosOf(n, img.blockSize))
            && (inode.frag.None? ==> size <= PosOf(n, img.blockSize))
            && (inode.frag.None? && n > 0 ==> PosOf(n - 1, img.blockSize) < size)
  {
    BlockAt(inode.fileSize, img.blockSize);
  }

  // ----- the block list -----

  /** The size word of block `i`. */
  function Header(img: Image, f: File, i: nat): nat {
    Word(Bytes(img.inodes, f.base + 4 * i, 4), 0)
  }

  /** `sqfs_data_header`: the size without the bit that says "not compressed". */
  function DataSize(header: nat): nat {
    header % 0x100_0000 + header / 0x200_0000 * 0x200_0000
  }

  const NOT_COMPRESSED := 0x100_0000

  /** That bit is cleared and every other one kept. */
  lemma DataSizeClears(header: nat)
    ensures DataSize(header) + (if header / NOT_COMPRESSED % 2 == 1 then NOT_COMPRESSED else 0) == header
    ensures DataSize(header) / NOT_COMPRESSED % 2 == 0 && DataSize(header) % NOT_COMPRESSED == header % NOT_COMPRESSED
  {
    var low, high := header % NOT_COMPRESSED, header / NOT_COMPRESSED;
    ModIs(header, 0x200_0000, high / 2, high % 2 * NOT_COMPRESSED + low);
    ModIs(DataSize(header), NOT_COMPRESSED, 2 * (high / 2), low);
    ModIs(2 * (high / 2), 2, high / 2, 0);
  }

  /** A block is a hole exactly when its word is 0 or has that bit only. */
  lemma HoleIff(header: nat)
    ensures DataSize(header) == 0 <==> header == 0 || header == NOT_COMPRESSED
  {
    DataSizeClears(header);
  }

  /** Where block `i` lies on disk: behind the blocks before it. */
  function Addr(img: Image, f: File, i: nat): nat {
    if i == 0 then f.inode.startBlock else Addr(img, f, i - 1) + DataSize(Header(img, f, i - 1))
  }

  function Min(a: int, b: int): int {
    if a < b then a else b
  }

  function Zeros(n: nat): seq<byte> {
    seq(n, _ => 0)
  }

  /** How many bytes block `i` holds. */
  function BlockLen(img: Image, f: File, i: nat): nat {
    if f.inode.fileSize <= PosOf(i, img.blockSize) then 0
    else Min(img.blockSize, f.inode.fileSize - PosOf(i, img.blockSize))
  }

  /** The contents of block `i`: a size of 0 is a hole. */
  function BlockBytes(img: Image, f: File, i: nat): seq<byte> {
    if DataSize(Header(img, f, i)) == 0 then Zeros(BlockLen(img, f, i))
    else img.data(Addr(img, f, i), Header(img, f, i))
  }

  /** The first `i` blocks of the file. */
  function Text(img: Image, f: File, i: nat): seq<byte> {
    if i == 0 then [] else Text(img, f, i - 1) + BlockBytes(img, f, i - 1)
  }

  function Tail(img: Image, f: File): seq<byte>
    requires 0 < img.blockSize
  {
    if f.inode.frag.None? then []
    else
      var r, n := f.inode.frag.value, f.inode.fileSize % img.blockSize;
      var block := img.data(r.pos, r.header);
      if r.offset + n <= |block| then block[r.offset..r.offset + n] else []
  }

  /** What the file contains. */
  function FileBytes(img: Image, f: File): seq<byte>
    requires 0 < img.blockSize
  {
    Text(img, f, Count(img, f.inode)) + Tail(img, f)
  }

  ghost predicate GoodBlock(img: Image, f: File, i: nat) {
    var h := Header(img, f, i);
    DataSize(h) != 0 ==>
      && Addr(img, f, i) != INVALID && img.dataHeader(Addr(img, f, i)) == h
      && |img.data(Addr(img, f, i), h)| == BlockLen(img, f, i)
  }

  /** A regular file of a well-formed image. */
  ghost predicate GoodFile(img: Image, f: File) {
    && 0 < img.blockSize && OnDisk(img.md, img.inodes)
    && Pos(img.inodes, |img.inodes.blocks|) - img.inodes.start < WORD
    && f.inode.next == CursorAt(img.inodes, f.base) && f.base + 4 * Count(img, f.inode) <= Total(img.inodes)
    && (f.base == Total(img.inodes) ==> Count(img, f.inode) == 0)
    && (forall i :: 0 <= i < Count(img, f.inode) ==> GoodBlock(img, f, i))
    && (f.inode.frag.Some? ==>
          var r := f.inode.frag.value;
          && r.pos != INVALID && img.fragHeader(r.pos) == r.header
          && r.offset + f.inode.fileSize % img.blockSize <= |img.data(r.pos, r.header)|)
  }

  /** Every listed block starts inside the file and is as long as its place says. */
  lemma BlockFacts(img: Image, f: File, i: nat)
    requires GoodFile(img, f) && i < Count(img, f.inode)
    ensures PosOf(i, img.blockSize) < f.inode.fileSize
    ensures |BlockBytes(img, f, i)| == BlockLen(img, f, i)
  {
    hide PosOf, Count, Header, Addr, DataSize, OnDisk, Pos, Total, CursorAt;
    CountFacts(img, f.inode);
    assert GoodBlock(img, f, i);
    if i < Count(img, f.inode) - 1 {
      PosGrows(i, Count(img, f.inode) - 1, img.blockSize);
    }
    if f.inode.frag.Some? {
      PosGrows(i, Count(img, f.inode), img.blockSize);
    }
  }

  lemma PosNextBlock(i: nat, size: nat)
    ensures PosOf(i + 1, size) == PosOf(i, size) + size && PosOf(0, size) == 0
  {
  }

  lemma TextNext(img: Image, f: File, i: nat)
    ensures Text(img, f, i + 1) == Text(img, f, i) + BlockBytes(img, f, i) && Text(img, f, 0) == []
  {
  }

  /** The text of `i` blocks ends at the position of block `i` or at the end of the file. */
  lemma {:induction false} TextLength(img: Image, f: File, i: nat)
    requires GoodFile(img, f) && i <= Count(img, f.inode)
    ensures |Text(img, f, i)| == Min(PosOf(i, img.blockSize), f.inode.fileSize)
    decreases i
  {
    hide GoodFile, PosOf, Count, BlockBytes, Text;
    PosNextBlock(if i == 0 then 0 else i - 1, img.blockSize);
    TextNext(img, f, if i == 0 then 0 else i - 1);
    if i > 0 {
      TextLength(img, f, i - 1);
      BlockFacts(img, f, i - 1);
    }
  }
}
