/** The walk over a file's block list, and the index that skips into it. */
module SqfsBlocks {
  import opened Types
  import opened Bits
  import opened SqfsCache
  import opened SqfsMetadata
  import opened SqfsFile

  /** `sqfs_blocklist`. */
  class Blocklist {
    var remain: nat
    var cur: Cursor
    var started: bool
    var pos: nat
    var block: nat
    var header: nat
    var inputSize: nat

    /** The list stands in front of block `i`; behind the last one it does not matter where it points. */
    ghost predicate Before(img: Image, f: File, i: nat)
      requires 0 < img.blockSize
      reads this
    {
      && i <= Count(img, f.inode) && remain == Count(img, f.inode) - i
      && (remain > 0 ==> cur == CursorAt(img.inodes, f.base + 4 * i) && block + inputSize == Addr(img, f, i))
      && (if started then pos + img.blockSize else pos) == PosOf(i, img.blockSize)
    }

    /** `sqfs_blocklist_init`. */
    constructor (img: Image, ghost f: File, inode: Inode)
      requires GoodFile(img, f) && inode == f.inode
      ensures Before(img, f, 0) && !started && inputSize == 0 && cur == inode.next
    {
      hide Pos, OnDisk, BlockOf, OffsetOf, Total, CursorAt, GoodBlock, Count, Header, DataSize;
      remain := Count(img, inode);
      cur := inode.next;
      started := false;
      pos := 0;
      block := inode.startBlock;
      header := 0;
      inputSize := 0;
    }

    /** `sqfs_blocklist_next`: gives block `i` its place in the file, on disk, and its size; fails behind the last. */
    method Next(img: Image, ghost f: File, ghost i: nat, md: Cache<MdBlock>) returns (ok: bool)
      requires GoodFile(img, f) && Before(img, f, i) && md.Valid() && Coherent(img.md, md.View())
      modifies this, md, md.slots
      ensures md.Valid() && Coherent(img.md, md.View())
      ensures ok == (i < Count(img, f.inode))
      ensures ok ==> Before(img, f, i + 1) && started && pos == PosOf(i, img.blockSize)
      ensures ok ==> block == Addr(img, f, i) && header == Header(img, f, i) && inputSize == DataSize(header)
      ensures !ok ==> Before(img, f, i)
    {
      hide Pos, Bytes, OnDisk, BlockOf, OffsetOf, Total, Coherent, CursorAt, GoodBlock;
      if remain == 0 { return false; }
      remain := remain - 1;
      var c, word := MdRead(img.md, md, img.inodes, f.base + 4 * i, cur, 4);
      cur := c;
      header := Word(word, 0);
      block := block + inputSize;
      inputSize := DataSize(header);
      if started {
        pos := pos + img.blockSize;
      }
      started := true;
      return true;
    }
  }

  // ----- the block index -----

  /** `sqfs_blockidx_entry`: where the first data block listed in a metadata block lies, and that metadata block. */
  datatype Entry = Entry(dataBlock: nat, mdBlock: nat)

  const PER_BLOCK := 2048

  /** The number of size words in front of the file's block list in its metadata block. */
  function Lead(inode: Inode): nat {
    inode.next.offset / 4
  }

  /** The first block whose size word starts in the `m`-th metadata block of the list. */
  function First(lead: nat, m: nat): nat {
    if lead <= PER_BLOCK * m then PER_BLOCK * m - lead else 0
  }

  /** How many of those there are for the blocks before `j`, not counting block 0. */
  function Recorded(lead: nat, j: nat): nat {
    if j == 0 then 0 else (j - 1 + lead) / PER_BLOCK
  }

  function IndexEntry(img: Image, f: File, m: nat): Entry {
    Entry(Addr(img, f, First(Lead(f.inode), m)), (Pos(img.inodes, BlockOf(f.base) + m) - img.inodes.start) % WORD)
  }

  /** An index has exactly the entries of the metadata blocks that hold a size word of the file. */
  ghost predicate IsIndex(img: Image, f: File, entries: seq<Entry>)
    requires 0 < img.blockSize
  {
    && |entries| == Recorded(Lead(f.inode), Count(img, f.inode))
    && forall k :: 0 <= k < |entries| ==> entries[k] == IndexEntry(img, f, k + 1)
  }

  lemma RecordedIff(lead: nat, m: nat, j: nat)
    requires lead < PER_BLOCK && 1 <= m
    ensures First(lead, m) < j <==> m <= Recorded(lead, j)
  {
  }

  /** The cursor's offset is below 4 exactly where a new metadata block begins. */
  lemma NewBlock(base: nat, j: nat)
    ensures var lead := OffsetOf(base) / 4; var m := (lead + j) / PER_BLOCK;
            && lead < PER_BLOCK
            && (OffsetOf(base + 4 * j) < 4 <==> (lead + j) % PER_BLOCK == 0)
            && OffsetOf(base + 4 * j) == 4 * ((lead + j) % PER_BLOCK) + OffsetOf(base) % 4
            && BlockOf(base + 4 * j) == BlockOf(base) + m
  {
    var off := OffsetOf(base);
    var lead, r := off / 4, off % 4;
    var m, k := (lead + j) / PER_BLOCK, (lead + j) % PER_BLOCK;
    Replace(base);
    assert base + 4 * j == METADATA_SIZE * (BlockOf(base) + m) + 4 * k + r;
    Places(base + 4 * j, BlockOf(base) + m, 4 * k + r);
  }

  /** Stepping from block `j` to the next records one more entry exactly when a metadata block begins at `j`. */
  lemma RecordedNext(lead: nat, j: nat)
    requires lead < PER_BLOCK
    ensures Recorded(lead, j + 1) ==
            if (lead + j) % PER_BLOCK == 0 && j > 0 then Recorded(lead, j) + 1 else Recorded(lead, j)
    ensures (lead + j) % PER_BLOCK == 0 && j > 0 ==>
              Recorded(lead, j) + 1 == (lead + j) / PER_BLOCK && First(lead, Recorded(lead, j) + 1) == j
  {
    assert (lead + j) == PER_BLOCK * ((lead + j) / PER_BLOCK) + (lead + j) % PER_BLOCK;
  }

  lemma RecordedGrows(lead: nat, i: nat, j: nat)
    requires i <= j
    ensures Recorded(lead, i) <= Recorded(lead, j)
  {
  }

  /** The source's table size is at least the number of entries it writes. */
  lemma RoomForEntries(offset: nat, blocks: nat)
    requires offset < METADATA_SIZE && 0 < blocks
    ensures Recorded(offset / 4, blocks) <= (offset + 4 * blocks - 1) / METADATA_SIZE
  {
    var lead := offset / 4;
    assert 4 * (blocks - 1 + lead) / METADATA_SIZE == (blocks - 1 + lead) / PER_BLOCK;
  }

  /** In front of a listed block the cursor is inside the table. */
  lemma CursorInTable(img: Image, f: File, j: nat)
    requires GoodFile(img, f) && j < Count(img, f.inode)
    ensures var at := f.base + 4 * j;
            CursorAt(img.inodes, at) == Cursor(Pos(img.inodes, BlockOf(at)), OffsetOf(at))
    ensures f.inode.next.offset == OffsetOf(f.base) < METADATA_SIZE
    ensures f.base + 4 * j < Total(img.inodes)
  {
    hide Pos, OnDisk, BlockOf, OffsetOf, Total, GoodBlock, Count;
    Replace(f.base);
  }

  /** What the source records in front of block `j` when it records anything. */
  lemma EntryRecorded(img: Image, f: File, j: nat)
    requires GoodFile(img, f) && 0 < j < Count(img, f.inode)
    ensures var lead, cur := Lead(f.inode), CursorAt(img.inodes, f.base + 4 * j);
            && lead < PER_BLOCK
            && (cur.offset < 4 <==> (lead + j) % PER_BLOCK == 0)
            && (cur.offset < 4 ==>
                  IndexEntry(img, f, Recorded(lead, j) + 1) ==
                  Entry(Addr(img, f, j), (cur.block - img.inodes.start) % WORD))
  {
    hide Pos, OnDisk, BlockOf, OffsetOf, Total, GoodBlock, Count, GoodFile, CursorAt, Recorded, First, Addr;
    CursorInTable(img, f, j);
    NewBlock(f.base, j);
    RecordedNext(Lead(f.inode), j);
  }

  /** `sqfs_blockidx_indexable`. */
  predicate Indexable(img: Image, inode: Inode)
    requires 0 < img.blockSize
  {
    4 * Count(img, inode) >= METADATA_SIZE
  }

  /** The loop of `sqfs_blockidx_add`: walks the whole list once and records where each metadata block begins. */
  method BuildIndex(img: Image, ghost f: File, inode: Inode, md: Cache<MdBlock>) returns (entries: seq<Entry>)
    requires GoodFile(img, f) && inode == f.inode && Indexable(img, inode)
    requires md.Valid() && Coherent(img.md, md.View())
    modifies md, md.slots
    ensures md.Valid() && Coherent(img.md, md.View())
    ensures IsIndex(img, f, entries)
    ensures |entries| <= (inode.next.offset + 4 * Count(img, inode) - 1) / METADATA_SIZE
  {
    hide Pos, OnDisk, BlockOf, OffsetOf, Total, GoodBlock, Count, GoodFile, CursorAt, Recorded, First, Addr, Coherent,
      IndexEntry, PosOf, Header, DataSize, Lead;
    BlockSizePositive(img, f);
    var blocks := Count(img, inode);
    var count := (inode.next.offset + 4 * blocks - 1) / METADATA_SIZE;
    CursorInTable(img, f, 0);
    RoomForIndex(inode, blocks);
    entries := [];
    var bl := new Blocklist(img, f, inode);
    var first := true;
    ghost var j: nat := 0;
    NoneRecorded(Lead(inode));
    while bl.remain > 0 && |entries| < count
      invariant fresh(bl) && bl.Before(img, f, j) && first == (j == 0)
      invariant md.Valid() && Coherent(img.md, md.View())
      invariant |entries| == Recorded(Lead(inode), j)
      invariant forall k :: 0 <= k < |entries| ==> entries[k] == IndexEntry(img, f, k + 1)
      decreases bl.remain
    {
      if j > 0 { EntryRecorded(img, f, j); }
      LeadBelow(inode);
      RecordedNext(Lead(inode), j);
      if bl.cur.offset < 4 && !first {
        entries := entries + [Entry(bl.block + bl.inputSize, (bl.cur.block - img.inodes.start) % WORD)];
      }
      first := false;
      var ok := bl.Next(img, f, j, md);
      j := j + 1;
    }
    RecordedGrows(Lead(inode), j, blocks);
  }

  lemma BlockSizePositive(img: Image, f: File)
    requires GoodFile(img, f)
    ensures 0 < img.blockSize
  {
    hide Pos, OnDisk, BlockOf, OffsetOf, Total, GoodBlock, CursorAt;
  }

  lemma NoneRecorded(lead: nat)
    ensures Recorded(lead, 0) == 0
  {
  }

  lemma LeadBelow(inode: Inode)
    requires inode.next.offset < METADATA_SIZE
    ensures Lead(inode) < PER_BLOCK
  {
  }

  lemma RoomForIndex(inode: Inode, blocks: nat)
    requires inode.next.offset < METADATA_SIZE && 0 < blocks
    ensures Recorded(Lead(inode), blocks) <= (inode.next.offset + 4 * blocks - 1) / METADATA_SIZE
  {
    RoomForEntries(inode.next.offset, blocks);
  }

  /** Every cached index is the index of the file it is filed under; 0 means an unused slot. */
  ghost predicate IndexCoherent(img: Image, c: Contents<seq<Entry>>)
    requires 0 < img.blockSize
  {
    forall i :: 0 <= i < |c.slots| && c.slots[i].idx != INVALID ==>
                  IsIndex(img, img.files(c.slots[i].idx - 1), c.slots[i].value)
  }

  /** The index of a file, from the cache or built and cached. */
  method GetIndex(img: Image, f: File, inode: Inode, md: Cache<MdBlock>, index: Cache<seq<Entry>>)
    returns (entries: seq<Entry>)
    requires GoodFile(img, f) && inode == f.inode && Indexable(img, inode) && f == img.files(inode.number)
    requires md.Valid() && Coherent(img.md, md.View()) && index.Valid() && IndexCoherent(img, index.View())
    modifies md, md.slots, index, index.slots
    ensures md.Valid() && Coherent(img.md, md.View()) && index.Valid() && IndexCoherent(img, index.View())
    ensures IsIndex(img, f, entries)
  {
    hide Pos, OnDisk, BlockOf, OffsetOf, Total, GoodBlock, Count, GoodFile, CursorAt, Coherent, IsIndex;
    var hit := index.Get(inode.number + 1);
    if hit.Some? {
      return hit.value;
    }
    entries := BuildIndex(img, f, inode, md);
    index.Add(inode.number + 1, entries);
  }

  /** A start behind the first metadata block of the list of an indexable file is looked up in the index. */
  predicate Skips(img: Image, inode: Inode, start: nat)
    requires 0 < img.blockSize
  {
    (inode.next.offset + 4 * (start / img.blockSize)) / METADATA_SIZE != 0 && Indexable(img, inode)
  }

  /**
   The one case in which the index has no entry for the metadata block it is asked for: the start lies in the
   fragment, and the block list ends where a metadata block does.
   */
  predicate EntryMissing(img: Image, inode: Inode, start: nat)
    requires 0 < img.blockSize
  {
    && Skips(img, inode, start)
    && start / img.blockSize == Count(img, inode)
    && EndsBlock(inode.next.offset, Count(img, inode))
  }

  /** Behind `n` size words the list has come to the end of a metadata block. */
  predicate EndsBlock(offset: nat, n: nat) {
    (offset + 4 * n) % METADATA_SIZE < 4
  }

  /** Which entry the source looks up for a block, and how many blocks it then skips. */
  /** Counted in size words of four bytes, a metadata block ends where it ends counted in bytes. */
  lemma Words(offset: nat, n: nat)
    ensures var w := offset / 4 + n;
            && (offset + 4 * n) / METADATA_SIZE == w / PER_BLOCK
            && (offset + 4 * n) % METADATA_SIZE == 4 * (w % PER_BLOCK) + offset % 4
  {
    var w := offset / 4 + n;
    ModIs(offset + 4 * n, METADATA_SIZE, w / PER_BLOCK, 4 * (w % PER_BLOCK) + offset % 4);
  }

  lemma LookedUp(offset: nat, block: nat, count: nat)
    requires offset < METADATA_SIZE && block <= count
    ensures var m, lead := (offset + 4 * block) / METADATA_SIZE, offset / 4;
            m != 0 ==>
              && lead < PER_BLOCK
              && m * METADATA_SIZE / 4 - offset / 4 == First(lead, m)
              && First(lead, m) <= block < First(lead, m) + PER_BLOCK
              && (lead + First(lead, m)) % PER_BLOCK == 0 && (lead + First(lead, m)) / PER_BLOCK == m
              && (m <= Recorded(lead, count) <==> !(block == count && (offset + 4 * count) % METADATA_SIZE < 4))
  {
    var m, lead := (offset + 4 * block) / METADATA_SIZE, offset / 4;
    if m != 0 {
      hide Recorded;
      RecordedIff(lead, m, count);
      Words(offset, block);
      ModIs(lead + First(lead, m), PER_BLOCK, m, 0);
    }
  }

  lemma {:induction false} PosBelow(t: Table, k: nat, n: nat)
    requires k <= n <= |t.blocks|
    ensures Pos(t, k) <= Pos(t, n)
    decreases n
  {
    if k < n {
      PosBelow(t, k, n - 1);
      PosNext(t, n - 1);
    }
  }

  /** An index entry takes the cursor to where stepping over the skipped blocks would. */
  lemma EntryCursor(img: Image, f: File, m: nat)
    requires GoodFile(img, f) && 0 < Count(img, f.inode)
    requires var i := First(Lead(f.inode), m);
             && i < Count(img, f.inode) && (Lead(f.inode) + i) % PER_BLOCK == 0 && (Lead(f.inode) + i) / PER_BLOCK == m
    ensures var e, i := IndexEntry(img, f, m), First(Lead(f.inode), m);
            && Cursor(e.mdBlock + img.inodes.start, f.inode.next.offset % 4) == CursorAt(img.inodes, f.base + 4 * i)
            && e.dataBlock == Addr(img, f, i)
  {
    hide Pos, OnDisk, BlockOf, OffsetOf, Total, GoodBlock, Count, GoodFile, CursorAt, First, Addr, Header;
    var i := First(Lead(f.inode), m);
    CursorInTable(img, f, i);
    NewBlock(f.base, i);
    MdBlockFits(img, f, f.base + 4 * i);
  }

  lemma MdBlockFits(img: Image, f: File, at: nat)
    requires GoodFile(img, f) && at < Total(img.inodes)
    ensures Pos(img.inodes, BlockOf(at)) - img.inodes.start < WORD
  {
    hide Pos, BlockOf, OffsetOf, GoodBlock, Count, CursorAt, OnDisk, Total;
    InsideTable(img.md, img.inodes, at);
    PosBelow(img.inodes, BlockOf(at), |img.inodes.blocks|);
  }

  /** Where no entry was recorded, the source skips the whole list, so that it never uses what it has read. */
  lemma NotMissing(img: Image, inode: Inode, start: nat)
    requires 0 < img.blockSize
    ensures EntryMissing(img, inode, start) ==> Skips(img, inode, start) && start / img.blockSize == Count(img, inode)
  {
    hide Count, Skips;
  }

  lemma Missing(img: Image, inode: Inode, start: nat, block: nat, m: nat)
    requires 0 < img.blockSize && block == start / img.blockSize && Indexable(img, inode)
    requires m == (inode.next.offset + 4 * block) / METADATA_SIZE != 0
    ensures EntryMissing(img, inode, start) <==>
            block == Count(img, inode) && EndsBlock(inode.next.offset, Count(img, inode))
  {
    hide Count, Indexable, EndsBlock;
  }

  lemma MissingSkipsAll(offset: nat, count: nat)
    requires offset < METADATA_SIZE && (offset + 4 * count) % METADATA_SIZE < 4
    ensures var m := (offset + 4 * count) / METADATA_SIZE; m != 0 ==> First(offset / 4, m) == count
  {
    Words(offset, count);
  }

  /** Where the index leads, and when its entry was recorded. */
  lemma Landing(img: Image, f: File, block: nat, m: nat)
    requires GoodFile(img, f) && block <= Count(img, f.inode) && Indexable(img, f.inode)
    requires m == (f.inode.next.offset + 4 * block) / METADATA_SIZE != 0
    ensures var lead, count, i := Lead(f.inode), Count(img, f.inode), First(Lead(f.inode), m);
            && m * METADATA_SIZE / 4 - f.inode.next.offset / 4 == i && i <= block < i + PER_BLOCK
            && (Recorded(lead, count) < m <==> block == count && EndsBlock(f.inode.next.offset, count))
            && (if m <= Recorded(lead, count)
                then i < count && (lead + i) % PER_BLOCK == 0 && (lead + i) / PER_BLOCK == m
                else i == count)
  {
    hide Count, GoodFile, Recorded, First, CursorAt, OnDisk, Pos, BlockOf, OffsetOf, Total;
    BlockSizePositive(img, f);
    CursorInTable(img, f, 0);
    LookedUp(f.inode.next.offset, block, Count(img, f.inode));
    RecordedIff(Lead(f.inode), m, Count(img, f.inode));
    if Recorded(Lead(f.inode), Count(img, f.inode)) < m { MissingSkipsAll(f.inode.next.offset, block); }
  }

  /**
   `sqfs_blockidx_blocklist`: a block list in front of some block at or before the one that holds `start`, and within
   2048 blocks of it when the index is used. Its look into the index goes astray exactly when the entry was never
   recorded; whatever is found there (`unset`), the list is then behind its last block, where it belongs.
   */
  method FastForward(img: Image, f: File, inode: Inode, start: nat, md: Cache<MdBlock>, index: Cache<seq<Entry>>,
                     unset: Entry)
    returns (astray: bool, bl: Blocklist, ghost i: nat)
    requires GoodFile(img, f) && inode == f.inode && f == img.files(inode.number)
    requires md.Valid() && Coherent(img.md, md.View()) && index.Valid() && IndexCoherent(img, index.View())
    modifies md, md.slots, index, index.slots
    ensures md.Valid() && Coherent(img.md, md.View()) && index.Valid() && IndexCoherent(img, index.View())
    ensures fresh(bl)
    ensures astray == EntryMissing(img, inode, start)
    ensures start / img.blockSize > Count(img, inode) ==> bl.remain == 0
    ensures start / img.blockSize <= Count(img, inode) ==>
              bl.Before(img, f, i) && i <= start / img.blockSize &&
              (if Skips(img, inode, start) then start / img.blockSize < i + PER_BLOCK else i == 0)
  {
    hide Pos, OnDisk, BlockOf, OffsetOf, Total, GoodBlock, Count, GoodFile, CursorAt, Coherent, Recorded, First, PosOf,
      Addr, Header, DataSize, IndexCoherent, IndexEntry, EntryMissing, Lead, EndsBlock;
    BlockSizePositive(img, f);
    NotMissing(img, inode, start);
    bl := new Blocklist(img, f, inode);
    var block := start / img.blockSize;
    astray, i := false, 0;
    if block > bl.remain {
      bl.remain := 0;
      return;
    }
    var metablock := (bl.cur.offset + 4 * block) / METADATA_SIZE;
    if metablock == 0 { return; }
    if !Indexable(img, inode) { return; }
    astray, i := Skip(img, f, inode, start, block, metablock, bl, md, index, unset);
  }

  /** The part that uses the index. */
  method Skip(img: Image, f: File, inode: Inode, ghost start: nat, block: nat, metablock: nat, bl: Blocklist,
              md: Cache<MdBlock>, index: Cache<seq<Entry>>, unset: Entry)
    returns (astray: bool, ghost i: nat)
    requires GoodFile(img, f) && inode == f.inode && f == img.files(inode.number) && Indexable(img, inode)
    requires md.Valid() && Coherent(img.md, md.View()) && index.Valid() && IndexCoherent(img, index.View())
    requires bl.Before(img, f, 0) && block == start / img.blockSize <= Count(img, inode)
    requires !bl.started && bl.inputSize == 0 && bl.cur == inode.next
    requires metablock == (inode.next.offset + 4 * block) / METADATA_SIZE != 0
    modifies bl, md, md.slots, index, index.slots
    ensures md.Valid() && Coherent(img.md, md.View()) && index.Valid() && IndexCoherent(img, index.View())
    ensures astray == EntryMissing(img, inode, start)
    ensures bl.Before(img, f, i) && i <= block < i + PER_BLOCK
  {
    hide Pos, OnDisk, BlockOf, OffsetOf, Total, GoodBlock, Count, GoodFile, CursorAt, Coherent, Recorded, First, PosOf,
      Addr, Header, DataSize, IndexCoherent, IndexEntry, EntryMissing, Lead, EndsBlock, Indexable;
    BlockSizePositive(img, f);
    var entries := GetIndex(img, f, inode, md, index);
    Landing(img, f, block, metablock);
    Missing(img, inode, start, block, metablock);
    i := First(Lead(inode), metablock);
    PosIsProduct(i, img.blockSize);
    var skipped := metablock * METADATA_SIZE / 4 - bl.cur.offset / 4;
    astray := metablock - 1 >= |entries|;
    var entry := if astray then unset else entries[metablock - 1];
    if !astray { EntryCursor(img, f, metablock); }
    bl.cur := Cursor(entry.mdBlock + img.inodes.start, bl.cur.offset % 4);
    bl.remain := bl.remain - skipped;
    bl.pos := skipped * img.blockSize;
    bl.block := entry.dataBlock;
  }
}
