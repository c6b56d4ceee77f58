/** Directory listings on disk, read entry by entry. */
module SqfsDir {
  import opened Types
  import opened SqfsCache
  import opened SqfsMetadata
  import opened SqfsNames

  /** One listed name. The inode number is a signed distance from the header's. */
  datatype Item = Item(name: Name, offset: half, delta: half, kind: half)

  /** A header and the names behind it. */
  datatype Run = Run(startBlock: word, inodeNumber: word, items: seq<Item>)

  /** An entry as it is handed to the caller. */
  datatype Entry = Entry(name: Name, kind: half, inode: nat, inodeNumber: word)

  predicate GoodItem(item: Item) {
    1 <= |item.name| <= 256 && NoZero(item.name)
  }

  predicate GoodItems(items: seq<Item>) {
    forall i :: 0 <= i < |items| ==> GoodItem(items[i])
  }

  predicate GoodRun(run: Run) {
    1 <= |run.items| < 0x1_0000_0000 && GoodItems(run.items)
  }

  predicate GoodRuns(runs: seq<Run>) {
    forall i :: 0 <= i < |runs| ==> GoodRun(runs[i])
  }

  function Signed(h: half): int {
    if h < 0x8000 then h else h - 0x1_0000
  }

  /** The entry an item stands for below a header. */
  function Resolve(startBlock: word, inodeNumber: word, item: Item): Entry {
    Entry(item.name, item.kind, startBlock * 0x1_0000 + item.offset, (inodeNumber + Signed(item.delta)) % 0x1_0000_0000)
  }

  /**
   The inode of an entry is read back as a block of the inode table and an offset in it, and its number is the one of
   the header moved by a signed distance of 16 bits.
   */
  lemma ResolveSplits(startBlock: word, inodeNumber: word, item: Item)
    ensures var e, d := Resolve(startBlock, inodeNumber, item), Signed(item.delta);
            && e.inode / 0x1_0000 == startBlock && e.inode % 0x1_0000 == item.offset
            && -0x8000 <= d < 0x8000 && (d - item.delta) % 0x1_0000 == 0
            && (e.inodeNumber - inodeNumber - d) % 0x1_0000_0000 == 0
  {
  }

  function Resolved(startBlock: word, inodeNumber: word, items: seq<Item>): seq<Entry> {
    if items == [] then []
    else [Resolve(startBlock, inodeNumber, items[0])] + Resolved(startBlock, inodeNumber, items[1..])
  }

  /** The entries of a listing in order. */
  function Entries(runs: seq<Run>): seq<Entry> {
    if runs == [] then [] else Resolved(runs[0].startBlock, runs[0].inodeNumber, runs[0].items) + Entries(runs[1..])
  }

  // ----- the listing as bytes -----

  function Le16(h: half): seq<byte> {
    [h % 0x100, h / 0x100]
  }

  function Le32(w: word): seq<byte> {
    [w % 0x100, w / 0x100 % 0x100, w / 0x1_0000 % 0x100, w / 0x100_0000]
  }

  lemma Digits(w: word)
    ensures w == w % 0x100 + 0x100 * (w / 0x100 % 0x100) + 0x1_0000 * (w / 0x1_0000 % 0x100) +
            0x100_0000 * (w / 0x100_0000)
  {
    var a: nat, b: nat, c: nat := w / 0x100, w / 0x1_0000, w / 0x100_0000;
    assert a / 0x100 == b && b / 0x100 == c;
    assert w == w % 0x100 + 0x100 * a && a == a % 0x100 + 0x100 * b && b == b % 0x100 + 0x100 * c;
  }

  lemma WordOf(w: word, s: seq<byte>, i: nat)
    requires i + 4 <= |s| && s[i..i + 4] == Le32(w)
    ensures Word(s, i) == w
  {
    Digits(w);
    assert s[i] == s[i..i + 4][0] && s[i + 1] == s[i..i + 4][1] && s[i + 2] == s[i..i + 4][2] &&
        s[i + 3] == s[i..i + 4][3];
  }

  lemma HalfOf(h: half, s: seq<byte>, i: nat)
    requires i + 2 <= |s| && s[i..i + 2] == Le16(h)
    ensures Half(s, i) == h
  {
    assert s[i] == s[i..i + 2][0] && s[i + 1] == s[i..i + 2][1];
  }

  function ItemHead(item: Item): seq<byte>
    requires GoodItem(item)
  {
    Le16(item.offset) + Le16(item.delta) + Le16(item.kind) + Le16(|item.name| - 1)
  }

  function EncodeItems(items: seq<Item>): seq<byte>
    requires GoodItems(items)
  {
    if items == [] then [] else ItemHead(items[0]) + (items[0].name + EncodeItems(items[1..]))
  }

  function RunHead(run: Run): seq<byte>
    requires GoodRun(run)
  {
    Le32(|run.items| - 1) + Le32(run.startBlock) + Le32(run.inodeNumber)
  }

  function EncodeRuns(runs: seq<Run>): seq<byte>
    requires GoodRuns(runs)
  {
    if runs == [] then [] else RunHead(runs[0]) + (EncodeItems(runs[0].items) + EncodeRuns(runs[1..]))
  }

  lemma ItemHeadRead(item: Item)
    requires GoodItem(item)
    ensures var h := ItemHead(item);
            && |h| == 8 && Half(h, 0) == item.offset && Half(h, 2) == item.delta && Half(h, 4) == item.kind
            && Half(h, 6) == |item.name| - 1
  {
    var h := ItemHead(item);
    assert h[0..2] == Le16(item.offset) && h[2..4] == Le16(item.delta) && h[4..6] == Le16(item.kind);
    assert h[6..8] == Le16(|item.name| - 1);
    HalfOf(item.offset, h, 0);
    HalfOf(item.delta, h, 2);
    HalfOf(item.kind, h, 4);
    HalfOf(|item.name| - 1, h, 6);
  }

  lemma RunHeadRead(run: Run)
    requires GoodRun(run)
    ensures var h := RunHead(run);
            && |h| == 12 && Word(h, 0) == |run.items| - 1
            && Word(h, 4) == run.startBlock && Word(h, 8) == run.inodeNumber
  {
    hide GoodItems;
    var h := RunHead(run);
    assert h[0..4] == Le32(|run.items| - 1) && h[4..8] == Le32(run.startBlock) && h[8..12] == Le32(run.inodeNumber);
    WordOf(|run.items| - 1, h, 0);
    WordOf(run.startBlock, h, 4);
    WordOf(run.inodeNumber, h, 8);
  }

  // ----- streams -----

  /** The stream of a table goes on with these bytes at `f`. */
  predicate Ahead(t: Table, f: nat, s: seq<byte>) {
    f + |s| <= Total(t) && Bytes(t, f, |s|) == s
  }

  lemma AheadSplit(t: Table, f: nat, a: seq<byte>, b: seq<byte>)
    requires Ahead(t, f, a + b)
    ensures Ahead(t, f, a) && Ahead(t, f + |a|, b)
  {
    hide Total, Bytes;
    BytesJoin(t, f, |a|, |b|);
    var x, y := Bytes(t, f, |a|), Bytes(t, f + |a|, |b|);
    assert x == (x + y)[..|a|] == (a + b)[..|a|] == a;
    assert y == (x + y)[|a|..] == (a + b)[|a|..] == b;
  }

  lemma RunsUnfold(runs: seq<Run>)
    requires GoodRuns(runs) && runs != []
    ensures GoodRun(runs[0]) && GoodItems(runs[0].items) && GoodRuns(runs[1..])
    ensures EncodeRuns(runs) == RunHead(runs[0]) + (EncodeItems(runs[0].items) + EncodeRuns(runs[1..]))
    ensures Entries(runs) == Resolved(runs[0].startBlock, runs[0].inodeNumber, runs[0].items) + Entries(runs[1..])
  {
  }

  lemma ItemsUnfold(items: seq<Item>)
    requires GoodItems(items) && items != []
    ensures GoodItem(items[0]) && GoodItems(items[1..])
    ensures EncodeItems(items) == ItemHead(items[0]) + (items[0].name + EncodeItems(items[1..]))
  {
  }

  lemma ResolvedUnfold(startBlock: word, inodeNumber: word, items: seq<Item>)
    ensures items == [] ==> Resolved(startBlock, inodeNumber, items) == []
    ensures items != [] ==> Resolved(startBlock, inodeNumber, items) ==
                            [Resolve(startBlock, inodeNumber, items[0])] + Resolved(startBlock, inodeNumber, items[1..])
  {
  }

  lemma NothingEncoded()
    ensures EncodeItems([]) == [] && EncodeRuns([]) == [] && Entries([]) == []
  {
  }

  // ----- directories -----

  datatype DirInode = DirInode(startBlock: nat, offset: nat, dirSize: nat, next: Cursor, indexCount: nat)

  /** A directory: its inode, and its listing and where that lies in the directory table. */
  datatype Listed = Listed(inode: DirInode, runs: seq<Run>, base: nat)

  ghost predicate GoodListed(dirs: Table, l: Listed) {
    && GoodRuns(l.runs) && l.inode.dirSize == |EncodeRuns(l.runs)| + 3 && Ahead(dirs, l.base, EncodeRuns(l.runs))
    && (l.runs != [] ==> Cursor(l.inode.startBlock + dirs.start, l.inode.offset) == CursorAt(dirs, l.base))
  }

  // ----- reading a directory -----

  /** `sqfs_dir`: a cursor, how far it is in the listing, and what is left of the current header. */
  class Dir {
    var cur: Cursor
    var offset: nat
    var total: nat
    var count: word
    var startBlock: word
    var inodeNumber: word

    /** `sqfs_dir_open` at the start of a directory. */
    constructor (cur: Cursor, total: nat)
      ensures this.cur == cur && this.total == total && offset == 0 && count == 0
    {
      this.cur := cur;
      this.total := total;
      offset, count, startBlock, inodeNumber := 0, 0, 0, 0;
    }

    /** From here the listing goes on with `items` of the current header and then with `runs`. */
    ghost predicate Before(t: Table, base: nat, items: seq<Item>, runs: seq<Run>)
      reads this
    {
      && GoodItems(items) && GoodRuns(runs) && count == |items|
      && total == offset + |EncodeItems(items)| + |EncodeRuns(runs)|
      && Ahead(t, base + offset, EncodeItems(items) + EncodeRuns(runs))
      && (offset < total ==> cur == CursorAt(t, base + offset))
    }

    /** The entries that are left. */
    ghost function Left(items: seq<Item>, runs: seq<Run>): seq<Entry>
      reads this
    {
      Resolved(startBlock, inodeNumber, items) + Entries(runs)
    }

    /** `sqfs_dir_md_read`. */
    method Read(disk: nat -> MdBlock, md: Cache<MdBlock>, t: Table, ghost base: nat, size: nat) returns (buf: seq<byte>)
      requires md.Valid() && Coherent(disk, md.View()) && OnDisk(disk, t)
      requires base + offset + size <= Total(t) && cur == CursorAt(t, base + offset)
      modifies this`cur, this`offset, md, md.slots
      ensures md.Valid() && Coherent(disk, md.View())
      ensures offset == old(offset) + size && cur == CursorAt(t, base + offset)
      ensures buf == Bytes(t, base + old(offset), size)
    {
      hide CursorAt, Bytes, OnDisk, Coherent, Total;
      var c, b := MdRead(disk, md, t, base + offset, cur, size);
      cur, buf := c, b;
      offset := offset + size;
    }

    /** Reading a header makes its items the current ones. */
    method ReadHeader(disk: nat -> MdBlock, md: Cache<MdBlock>, t: Table, ghost base: nat, ghost runs: seq<Run>)
      requires md.Valid() && Coherent(disk, md.View()) && OnDisk(disk, t)
      requires Before(t, base, [], runs) && runs != []
      modifies this, md, md.slots
      ensures md.Valid() && Coherent(disk, md.View()) && GoodRuns(runs) && total == old(total) && old(offset) <= offset
      ensures Before(t, base, runs[0].items, runs[1..]) && count > 0
      ensures Left(runs[0].items, runs[1..]) == Entries(runs)
    {
      hide CursorAt, Bytes, OnDisk, Coherent, Total, EncodeItems, EncodeRuns, RunHead, GoodRuns, GoodItems, Ahead,
        Resolved, Entries;
      NothingEncoded();
      RunsUnfold(runs);
      RunHeadRead(runs[0]);
      ghost var head, tail := RunHead(runs[0]), EncodeItems(runs[0].items) + EncodeRuns(runs[1..]);
      assert [] + EncodeRuns(runs) == head + tail;
      AheadSplit(t, base + offset, head, tail);
      AheadMeans(t, base + offset, head);
      var h := Read(disk, md, t, base, 12);
      count := (Word(h, 0) + 1) % 0x1_0000_0000;
      startBlock := Word(h, 4);
      inodeNumber := Word(h, 8);
    }

    /** Reading an item of the current header. */
    method ReadItem(disk: nat -> MdBlock, md: Cache<MdBlock>, t: Table, ghost base: nat, ghost items: seq<Item>,
                    ghost runs: seq<Run>)
      returns (entry: Entry)
      requires md.Valid() && Coherent(disk, md.View()) && OnDisk(disk, t)
      requires Before(t, base, items, runs) && items != []
      modifies this, md, md.slots
      ensures md.Valid() && Coherent(disk, md.View()) && total == old(total) && old(offset) < offset
      ensures Before(t, base, items[1..], runs)
      ensures startBlock == old(startBlock) && inodeNumber == old(inodeNumber)
      ensures entry == Resolve(startBlock, inodeNumber, items[0])
    {
      hide CursorAt, Bytes, OnDisk, Coherent, Total, EncodeItems, EncodeRuns, ItemHead, GoodRuns, GoodItems, Ahead,
        Signed;
      ItemsUnfold(items);
      ItemHeadRead(items[0]);
      ghost var head, name, rest := ItemHead(items[0]), items[0].name, EncodeItems(items[1..]) + EncodeRuns(runs);
      assert EncodeItems(items) + EncodeRuns(runs) == head + (name + rest);
      AheadSplit(t, base + offset, head, name + rest);
      AheadMeans(t, base + offset, head);
      AheadSplit(t, base + offset + 8, name, rest);
      AheadMeans(t, base + offset + 8, name);
      var e := Read(disk, md, t, base, 8);
      count := count - 1;
      var n := Read(disk, md, t, base, Half(e, 6) + 1);
      entry := Entry(n, Half(e, 4), startBlock * 0x1_0000 + Half(e, 0),
                     (inodeNumber + Signed(Half(e, 2))) % 0x1_0000_0000);
    }

    /**
     `sqfs_dir_next`: hands out the entries that are left, in order, across headers and metadata blocks, each with the
     offsets in the listing at which the directory stood before and stands after it.
     */
    method Next(disk: nat -> MdBlock, md: Cache<MdBlock>, t: Table, ghost base: nat, ghost items0: seq<Item>,
                ghost runs0: seq<Run>)
      returns (entry: Option<Entry>, from: nat, to: nat, ghost items: seq<Item>, ghost runs: seq<Run>)
      requires md.Valid() && Coherent(disk, md.View()) && OnDisk(disk, t)
      requires Before(t, base, items0, runs0)
      modifies this, md, md.slots
      ensures md.Valid() && Coherent(disk, md.View()) && Before(t, base, items, runs)
      ensures entry.Some? == (old(Left(items0, runs0)) != [])
      ensures old(Left(items0, runs0)) == (if entry.Some? then [entry.value] else []) + Left(items, runs)
      ensures from == old(offset) && to == offset && total == old(total) && (entry.Some? ==> from < to <= total)
    {
      hide CursorAt, Bytes, OnDisk, Coherent, Total, EncodeItems, EncodeRuns, GoodRuns, GoodItems, Ahead, Signed,
        Resolved, Entries;
      ghost var left := Left(items0, runs0);
      items, runs := items0, runs0;
      from := offset;
      while count == 0
        invariant from <= offset && total == old(total)
        invariant md.Valid() && Coherent(disk, md.View())
        invariant Before(t, base, items, runs) && Left(items, runs) == left
        decreases |runs|
      {
        EmptyIff(runs);
        NothingEncoded();
        ResolvedUnfold(startBlock, inodeNumber, items);
        if offset >= total {
          return None, from, offset, items, runs;
        }
        ReadHeader(disk, md, t, base, runs);
        items, runs := runs[0].items, runs[1..];
      }
      ResolvedUnfold(startBlock, inodeNumber, items);
      var e := ReadItem(disk, md, t, base, items, runs);
      entry, to, items := Some(e), offset, items[1..];
    }
  }

  lemma EmptyIff(runs: seq<Run>)
    requires GoodRuns(runs)
    ensures runs != [] ==> |EncodeRuns(runs)| > 0
    ensures runs == [] ==> EncodeRuns(runs) == []
  {
  }

  lemma AheadMeans(t: Table, f: nat, s: seq<byte>)
    requires Ahead(t, f, s)
    ensures f + |s| <= Total(t) && Bytes(t, f, |s|) == s
  {
  }

  /** `sqfs_dir_open`: the directory stands in front of its first entry. */
  method Open(t: Table, l: Listed) returns (dir: Dir)
    requires GoodListed(t, l)
    ensures fresh(dir) && dir.Before(t, l.base, [], l.runs) && dir.Left([], l.runs) == Entries(l.runs)
  {
    hide Ahead, GoodRuns, CursorAt, EncodeRuns, Entries;
    dir := new Dir(Cursor(l.inode.startBlock + t.start, l.inode.offset), l.inode.dirSize - 3);
    EmptyIff(l.runs);
    NothingEncoded();
    ResolvedUnfold(dir.startBlock, dir.inodeNumber, []);
    assert [] + EncodeRuns(l.runs) == EncodeRuns(l.runs);
    assert [] + Entries(l.runs) == Entries(l.runs);
  }
}
