/** A small file, a file of holes and a small directory that meet the well-formedness predicates of other modules. */
module SqfsExamples {
  import opened Types
  import opened SqfsMetadata
  import F = SqfsFile
  import D = SqfsDir
  import L = SqfsLookup
  import B = SqfsBlocks
  import T = SqfsTraverse
  import W = SqfsWalk

  /** A table of one metadata block. */
  function OneBlock(data: seq<byte>): Table {
    Table(96, [MdBlock(data, |data| + 2)])
  }

  lemma OneBlockOnDisk(data: seq<byte>)
    requires 0 < |data| <= METADATA_SIZE
    ensures OnDisk(_ => MdBlock(data, |data| + 2), OneBlock(data)) && Total(OneBlock(data)) == |data|
    ensures Pos(OneBlock(data), 1) == 98 + |data|
  {
  }

  /** The stream of a table of one block is the data of that block. */
  lemma OneBlockBytes(data: seq<byte>, f: nat, n: nat)
    requires |data| <= METADATA_SIZE && f + n <= |data|
    ensures Bytes(OneBlock(data), f, n) == data[f..f + n]
  {
    if n == 0 {
      EmptyBytes(OneBlock(data), f);
    } else {
      Places(f, 0, f);
      BytesInBlock(OneBlock(data), f, n);
    }
  }

  /** Two bytes in a block that is not compressed and one in a fragment. */
  function SmallImage(): F.Image {
    F.Image(_ => MdBlock([2, 0, 0, 1], 6), OneBlock([2, 0, 0, 1]),
            (pos: nat, header: nat) => if pos == 10 then [7, 8] else [0, 9],
            _ => 0x100_0002, _ => 0x100_0002, 2, _ => SmallFile())
  }

  function SmallFile(): F.File {
    F.File(F.Inode(1, 10, 3, Some(F.FragRef(50, 0x100_0002, 1)), Cursor(96, 0)), 0)
  }

  lemma SmallFileIsGood()
    ensures F.GoodFile(SmallImage(), SmallFile()) && F.FileBytes(SmallImage(), SmallFile()) == [7, 8, 9]
  {
    hide F.Header, F.DataSize, F.Addr, F.BlockLen, F.GoodBlock, F.Text, F.Tail, Bytes, CursorAt, OnDisk, Total, Pos;
    OneBlockOnDisk([2, 0, 0, 1]);
    StartOf([2, 0, 0, 1]);
    SmallBlock();
    SmallText();
  }

  lemma StartOf(data: seq<byte>)
    requires 0 < |data| <= METADATA_SIZE
    ensures CursorAt(OneBlock(data), 0) == Cursor(96, 0)
  {
  }

  lemma SmallHeader()
    ensures F.Header(SmallImage(), SmallFile(), 0) == 0x100_0002 && F.DataSize(0x100_0002) == 2
  {
    hide Bytes, Word, F.DataSize;
    SizeWord();
    var data: seq<byte> := [2, 0, 0, 1];
    OneBlockBytes(data, 0, 4);
    assert data[0..4] == data;
  }

  lemma SizeWord()
    ensures Word([2, 0, 0, 1], 0) == 0x100_0002 && F.DataSize(0x100_0002) == 2
  {
  }

  lemma SmallBlock()
    ensures F.GoodBlock(SmallImage(), SmallFile(), 0)
  {
    hide F.Header, F.DataSize, Bytes;
    SmallHeader();
  }

  lemma SmallText()
    ensures F.Text(SmallImage(), SmallFile(), 1) == [7, 8] && F.Tail(SmallImage(), SmallFile()) == [9]
  {
    hide F.Header, F.DataSize, F.BlockLen, Bytes;
    var img, f := SmallImage(), SmallFile();
    SmallHeader();
    assert F.Text(img, f, 1) == [] + F.BlockBytes(img, f, 0);
  }

  /** 2048 holes, whose size words fill a metadata block, and one byte in a fragment. */
  function Holes(): seq<byte> {
    F.Zeros(METADATA_SIZE)
  }

  function HoleyImage(): F.Image {
    F.Image(_ => MdBlock(Holes(), |Holes()| + 2), OneBlock(Holes()), (pos: nat, header: nat) => [9], _ => 0,
        _ => 0x100_0001,
            0x1000, _ => HoleyFile())
  }

  function HoleyFile(): F.File {
    F.File(F.Inode(1, 10, 0x80_0001, Some(F.FragRef(50, 0x100_0001, 0)), Cursor(96, 0)), 0)
  }

  lemma HoleIsGood(i: nat)
    requires i < 2048
    ensures F.GoodBlock(HoleyImage(), HoleyFile(), i)
  {
    OneBlockBytes(Holes(), 4 * i, 4);
    var w := Bytes(OneBlock(Holes()), 4 * i, 4);
    assert w[0] == 0 && w[1] == 0 && w[2] == 0 && w[3] == 0;
    assert F.Header(HoleyImage(), HoleyFile(), i) == 0;
  }

  /** A file like that is well-formed, and reading its last byte looks for an entry that was never recorded. */
  lemma HoleyFileIsGood()
    ensures F.GoodFile(HoleyImage(), HoleyFile())
    ensures B.EntryMissing(HoleyImage(), HoleyFile().inode, 0x80_0000)
  {
    hide F.GoodBlock, F.Header, Bytes, F.Addr;
    OneBlockOnDisk(Holes());
    forall i | 0 <= i < 2048
      ensures F.GoodBlock(HoleyImage(), HoleyFile(), i)
    {
      HoleIsGood(i);
    }
  }

  /** A directory with one name, "a", and an index of one item. */
  function SmallRun(): D.Run {
    D.Run(7, 5, [D.Item([97], 3, 1, 2)])
  }

  const LISTING: seq<byte> := [0, 0, 0, 0, 7, 0, 0, 0, 5, 0, 0, 0, 3, 0, 1, 0, 2, 0, 0, 0, 97]
  const INDEX: seq<byte> := [0, 0, 0, 0, 0, 0, 0, 0, 0, 0, 0, 0, 97]

  function SmallListing(): L.Listing {
    L.Listing(D.DirInode(0, 0, 24, Cursor(96, 0), 1), [SmallRun()], 0, [L.IndexItem(0, 0, [97])], 0)
  }

  lemma ListingEncoded()
    ensures D.GoodRuns(SmallListing().runs) && D.EncodeRuns(SmallListing().runs) == LISTING
    ensures |D.Entries(SmallListing().runs)| == 1
  {
    var runs, items := SmallListing().runs, SmallRun().items;
    assert items[1..] == [] && runs[1..] == [];
    assert D.EncodeItems(items) == [3, 0, 1, 0, 2, 0, 0, 0, 97];
    assert D.RunHead(runs[0]) == [0, 0, 0, 0, 7, 0, 0, 0, 5, 0, 0, 0];
  }

  lemma IndexEncoded()
    ensures L.GoodIndex(SmallListing().index) && L.EncodeIndex(SmallListing().index) == INDEX
  {
    assert SmallListing().index[1..] == [];
  }

  lemma IndexNames()
    ensures L.Names(OneBlock(LISTING), SmallListing(), SmallListing().index[0], 0)
  {
    hide D.GoodRuns, D.EncodeRuns;
    ListingEncoded();
    D.NothingEncoded();
    L.GoodSplit(SmallListing().runs, 0);
    assert SmallListing().runs[..0] == [];
  }

  lemma SmallListingIsGood()
    ensures L.GoodListing(OneBlock(LISTING), OneBlock(INDEX), SmallListing())
  {
    hide D.GoodRuns, D.EncodeRuns, L.GoodIndex, L.EncodeIndex, D.Entries, L.Names, Bytes;
    OneBlockOnDisk(LISTING);
    OneBlockOnDisk(INDEX);
    OneBlockBytes(LISTING, 0, 21);
    OneBlockBytes(INDEX, 0, 13);
    assert LISTING[0..21] == LISTING && INDEX[0..13] == INDEX;
    ListingEncoded();
    IndexEncoded();
    IndexNames();
  }

  function SmallListed(): D.Listed {
    D.Listed(SmallListing().inode, SmallListing().runs, SmallListing().base)
  }

  function SmallVolume(): T.Volume {
    T.Volume(_ => MdBlock(LISTING, 23), OneBlock(LISTING), _ => SmallListed())
  }

  lemma OneEntry()
    ensures var entries := D.Entries(SmallListing().runs);
            |entries| == 1 && entries[0].name == [97] && entries[0].kind == 2
  {
    hide D.Entries, D.Resolved;
    var run := SmallRun();
    RunEntries();
    D.ResolvedUnfold(run.startBlock, run.inodeNumber, run.items);
    D.ResolvedUnfold(run.startBlock, run.inodeNumber, []);
    assert run.items[1..] == [];
  }

  lemma RunEntries()
    ensures var run := SmallRun();
            D.Entries(SmallListing().runs) == D.Resolved(run.startBlock, run.inodeNumber, run.items)
  {
    hide D.Resolved;
    assert SmallListing().runs[1..] == [];
  }

  /** The same directory as a tree: one file. */
  lemma SmallTreeIsShown()
    ensures OnDisk(SmallVolume().disk, SmallVolume().dirs)
    ensures T.ShowsBelow(SmallVolume(), SmallListed(), [W.File([97])])
  {
    hide D.GoodRuns, D.EncodeRuns, D.Entries, D.Ahead, L.GoodIndex, L.EncodeIndex, L.Names, L.Sorted, Bytes;
    OneBlockOnDisk(LISTING);
    SmallListingIsGood();
    OneEntry();
  }
}
