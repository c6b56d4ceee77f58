/** `sqfs_dir_lookup`: a name is found through the directory index exactly when a scan of the listing finds it. */
module SqfsLookup {
  import opened Types
  import opened SqfsCache
  import opened SqfsMetadata
  import opened SqfsNames
  import opened SqfsDir

  // ----- what a lookup must answer -----

  /** A scan of all entries for a name. */
  function Find(entries: seq<Entry>, name: Name): Option<Entry> {
    if entries == [] then None
    else if entries[0].name == name then Some(entries[0])
    else Find(entries[1..], name)
  }

  predicate Sorted(entries: seq<Entry>) {
    forall i, j :: 0 <= i < j < |entries| ==> Less(entries[i].name, entries[j].name)
  }

  /** Names of a listing have no zero in them. */
  predicate Strings(entries: seq<Entry>) {
    forall i :: 0 <= i < |entries| ==> NoZero(entries[i].name)
  }

  lemma {:induction false} FindNone(entries: seq<Entry>, name: Name)
    requires forall i :: 0 <= i < |entries| ==> entries[i].name != name
    ensures Find(entries, name) == None
    decreases |entries|
  {
    if entries != [] { FindNone(entries[1..], name); }
  }

  /** The scan finds an entry exactly when there is one with the name, and in a sorted listing there is one only. */
  lemma {:induction false} FindMeans(entries: seq<Entry>, name: Name)
    ensures Find(entries, name).Some? <==> exists i :: 0 <= i < |entries| && entries[i].name == name
    ensures Find(entries, name).Some? ==>
              Find(entries, name).value in entries && Find(entries, name).value.name == name
    ensures Sorted(entries) ==>
              forall i :: 0 <= i < |entries| && entries[i].name == name ==> Find(entries, name) == Some(entries[i])
    decreases |entries|
  {
    hide LessFrom;
    if entries != [] {
      FindMeans(entries[1..], name);
      forall i | 0 < i < |entries| ensures entries[i] == entries[1..][i - 1] {}
      LessIrreflexive(name, 0);
    }
  }

  lemma {:induction false} FindBehind(a: seq<Entry>, b: seq<Entry>, name: Name)
    requires forall i :: 0 <= i < |a| ==> a[i].name != name
    ensures Find(a + b, name) == Find(b, name)
    decreases |a|
  {
    if a == [] {
      assert a + b == b;
    } else {
      assert (a + b)[1..] == a[1..] + b;
      FindBehind(a[1..], b, name);
    }
  }

  /** Entries before one that is not behind the name cannot have the name. */
  lemma SkipSmaller(a: seq<Entry>, b: seq<Entry>, name: Name)
    requires Sorted(a + b) && b != [] && !Less(name, b[0].name)
    ensures Find(a + b, name) == Find(b, name)
  {
    forall i | 0 <= i < |a|
      ensures a[i].name != name
    {
      assert (a + b)[i] == a[i] && (a + b)[|a|] == b[0];
    }
    FindBehind(a, b, name);
  }

  /** Behind an entry that does not come before the name, the name does not come. */
  lemma StopAtLarger(entries: seq<Entry>, name: Name)
    requires Sorted(entries) && entries != [] && !Less(entries[0].name, name) && entries[0].name != name
    ensures Find(entries, name) == None
  {
    forall i | 0 <= i < |entries|
      ensures entries[i].name != name
    {
    }
    FindNone(entries, name);
  }

  // ----- the directory index -----

  /** `squashfs_dir_index` with its name: the offset of a header, its metadata block, and its first name. */
  datatype IndexItem = IndexItem(index: word, startBlock: word, name: Name)

  predicate GoodIndexItem(ix: IndexItem) {
    1 <= |ix.name| <= 256 && NoZero(ix.name)
  }

  predicate GoodIndex(index: seq<IndexItem>) {
    forall k :: 0 <= k < |index| ==> GoodIndexItem(index[k])
  }

  function IndexHead(ix: IndexItem): seq<byte>
    requires GoodIndexItem(ix)
  {
    Le32(ix.index) + Le32(ix.startBlock) + Le32(|ix.name| - 1)
  }

  function EncodeIndex(index: seq<IndexItem>): seq<byte>
    requires GoodIndex(index)
  {
    if index == [] then [] else IndexHead(index[0]) + (index[0].name + EncodeIndex(index[1..]))
  }

  lemma IndexHeadRead(ix: IndexItem)
    requires GoodIndexItem(ix)
    ensures var h := IndexHead(ix);
            && |h| == 12 && Word(h, 0) == ix.index && Word(h, 4) == ix.startBlock && Word(h, 8) == |ix.name| - 1
  {
    hide NoZero;
    var h := IndexHead(ix);
    assert h[0..4] == Le32(ix.index) && h[4..8] == Le32(ix.startBlock) && h[8..12] == Le32(|ix.name| - 1);
    WordOf(ix.index, h, 0);
    WordOf(ix.startBlock, h, 4);
    WordOf(|ix.name| - 1, h, 8);
  }

  lemma IndexUnfold(index: seq<IndexItem>)
    requires GoodIndex(index) && index != []
    ensures GoodIndexItem(index[0]) && GoodIndex(index[1..])
    ensures EncodeIndex(index) == IndexHead(index[0]) + (index[0].name + EncodeIndex(index[1..]))
  {
  }

  // ----- a directory -----

  /** A directory on disk: its inode, and what its listing and its index hold and where they lie in their tables. */
  datatype Listing = Listing(
    inode: DirInode, runs: seq<Run>, base: nat, index: seq<IndexItem>, indexBase: nat)

  /** An index item names the header of run `r`. */
  ghost predicate Names(t: Table, l: Listing, ix: IndexItem, r: nat) {
    && GoodRuns(l.runs) && r < |l.runs| && GoodRuns(l.runs[..r])
    && ix.index == |EncodeRuns(l.runs[..r])|
    && ix.startBlock == Pos(t, BlockOf(l.base + ix.index)) - t.start
    && ix.name == l.runs[r].items[0].name
  }

  ghost predicate GoodListing(dirs: Table, inodes: Table, l: Listing) {
    && GoodRuns(l.runs) && GoodIndex(l.index)
    && l.inode.dirSize == |EncodeRuns(l.runs)| + 3 && l.inode.indexCount == |l.index|
    && Ahead(dirs, l.base, EncodeRuns(l.runs)) && Ahead(inodes, l.indexBase, EncodeIndex(l.index))
    && l.inode.offset == OffsetOf(l.base)
    && (l.runs != [] ==> Cursor(l.inode.startBlock + dirs.start, l.inode.offset) == CursorAt(dirs, l.base))
    && (l.index != [] ==> l.inode.next == CursorAt(inodes, l.indexBase))
    && (forall k :: 0 <= k < |l.index| ==> exists r: nat :: Names(dirs, l, l.index[k], r))
    && Sorted(Entries(l.runs))
  }

  lemma GoodSplit(runs: seq<Run>, r: nat)
    requires GoodRuns(runs) && r <= |runs|
    ensures GoodRuns(runs[..r]) && GoodRuns(runs[r..])
  {
  }

  lemma Regroup<T>(a: seq<T>, b: seq<T>, c: seq<T>, d: seq<T>)
    ensures a + (b + (c + d)) == (a + (b + c)) + d
  {
  }

  lemma {:induction false} RunsSplit(runs: seq<Run>, r: nat)
    requires GoodRuns(runs) && r <= |runs|
    ensures GoodRuns(runs[..r]) && GoodRuns(runs[r..])
    ensures EncodeRuns(runs) == EncodeRuns(runs[..r]) + EncodeRuns(runs[r..])
    decreases r
  {
    hide EncodeRuns, Entries, RunHead, EncodeItems, Resolved, GoodRuns, GoodRun, GoodItems;
    GoodSplit(runs, r);
    if r == 0 {
      assert runs[r..] == runs;
      NothingEncoded();
      assert runs[..r] == [];
    } else {
      RunsUnfold(runs);
      RunsUnfold(runs[..r]);
      assert runs[..r][1..] == runs[1..][..r - 1];
      assert runs[r..] == runs[1..][r - 1..];
      RunsSplit(runs[1..], r - 1);
      Regroup(RunHead(runs[0]), EncodeItems(runs[0].items), EncodeRuns(runs[1..][..r - 1]), EncodeRuns(runs[r..]));
    }
  }

  lemma {:induction false} EntriesSplit(runs: seq<Run>, r: nat)
    requires r <= |runs|
    ensures Entries(runs) == Entries(runs[..r]) + Entries(runs[r..])
    decreases r
  {
    hide Resolved;
    if r == 0 {
      assert runs[r..] == runs;
    } else {
      assert runs[..r][1..] == runs[1..][..r - 1];
      assert runs[r..] == runs[1..][r - 1..];
      EntriesSplit(runs[1..], r - 1);
    }
  }

  /** The first entry from header `r` on has the name the index gives that header. */
  lemma FirstName(runs: seq<Run>, r: nat)
    requires GoodRuns(runs) && r < |runs|
    ensures Entries(runs[r..]) != [] && Entries(runs[r..])[0].name == runs[r].items[0].name
    ensures GoodRuns(runs[r..]) && |EncodeRuns(runs[r..])| > 0
  {
    hide EncodeRuns, Entries, Resolved;
    RunsUnfold(runs[r..]);
    EmptyIff(runs[r..]);
    ResolvedUnfold(runs[r].startBlock, runs[r].inodeNumber, runs[r].items);
  }

  /** The cursor made of an index item and the directory's own offset stands at the header. */
  lemma HeaderCursor(dirs: Table, inodes: Table, l: Listing, ix: IndexItem, r: nat)
    requires GoodListing(dirs, inodes, l) && Names(dirs, l, ix, r)
    ensures GoodRuns(l.runs[r..]) && l.base + ix.index < Total(dirs)
    ensures Cursor(ix.startBlock + dirs.start, (l.inode.offset + ix.index) % METADATA_SIZE) ==
            CursorAt(dirs, l.base + ix.index)
    ensures Ahead(dirs, l.base + ix.index, EncodeRuns(l.runs[r..]))
    ensures ix.index + |EncodeRuns(l.runs[r..])| == |EncodeRuns(l.runs)|
  {
    hide EncodeRuns, Entries, Total, BlockOf, OffsetOf, Pos, Ahead, Sorted, GoodRuns, GoodIndex, EncodeIndex;
    RunsSplit(l.runs, r);
    FirstName(l.runs, r);
    AheadSplit(dirs, l.base, EncodeRuns(l.runs[..r]), EncodeRuns(l.runs[r..]));
    AheadMeans(dirs, l.base + ix.index, EncodeRuns(l.runs[r..]));
    OffsetPlus(l.base, ix.index);
  }

  lemma OffsetPlus(f: nat, n: nat)
    ensures (OffsetOf(f) + n) % METADATA_SIZE == OffsetOf(f + n)
  {
  }

  /** What the listing holds from header `r` on answers for the whole listing. */
  lemma SkipRuns(runs: seq<Run>, r: nat, name: Name)
    requires GoodRuns(runs) && Sorted(Entries(runs)) && r < |runs| && !Less(name, runs[r].items[0].name)
    ensures Find(Entries(runs[r..]), name) == Find(Entries(runs), name)
    ensures Sorted(Entries(runs[r..]))
  {
    hide EncodeRuns, Entries, Less, Find, GoodRuns;
    EntriesSplit(runs, r);
    FirstName(runs, r);
    SkipSmaller(Entries(runs[..r]), Entries(runs[r..]), name);
    SortedTail(Entries(runs[..r]), Entries(runs[r..]));
  }

  lemma SortedTail(a: seq<Entry>, b: seq<Entry>)
    requires Sorted(a + b)
    ensures Sorted(b)
  {
    forall i, j | 0 <= i < j < |b|
      ensures Less(b[i].name, b[j].name)
    {
      assert (a + b)[|a| + i] == b[i] && (a + b)[|a| + j] == b[j];
    }
  }

  // ----- fast forward -----

  /** The callback `sqfs_dir_ff_name_f`: whether a header's first name is behind the name looked for. */
  predicate Stops(first: Name, name: Name) {
    var order := Compare(first, name, 0, |name|);
    order > 0 || (order == 0 && |first| > |name|)
  }

  lemma StopsIff(first: Name, name: Name)
    requires NoZero(first) && NoZero(name)
    ensures Stops(first, name) <==> Less(name, first)
  {
    CompareMeans(first, name, 0);
  }

  /** While the index is read: the directory points at header `r`, and nothing before it can have the name. */
  ghost predicate Skipped(dirs: Table, l: Listing, name: Name, block: nat, offset: nat, r: nat) {
    && GoodRuns(l.runs)
    && (|| (r == 0 && offset == 0 && block == l.inode.startBlock + dirs.start)
        || (exists ix :: Names(dirs, l, ix, r) && offset == ix.index && block == ix.startBlock + dirs.start))
    && (NoZero(name) ==> r == 0 || (r < |l.runs| && !Less(name, l.runs[r].items[0].name)))
  }

  lemma NothingSkipped(dirs: Table, l: Listing, name: Name)
    requires GoodRuns(l.runs)
    ensures Skipped(dirs, l, name, l.inode.startBlock + dirs.start, 0, 0)
  {
    hide GoodRuns;
  }

  lemma IndexFacts(dirs: Table, inodes: Table, l: Listing)
    requires GoodListing(dirs, inodes, l)
    ensures GoodRuns(l.runs) && GoodIndex(l.index) && l.inode.dirSize == |EncodeRuns(l.runs)| + 3
    ensures l.inode.indexCount == |l.index| && Ahead(inodes, l.indexBase, EncodeIndex(l.index))
    ensures l.inode.offset == OffsetOf(l.base)
    ensures l.index != [] ==> l.inode.next == CursorAt(inodes, l.indexBase)
  {
    hide GoodRuns, GoodIndex, EncodeRuns, EncodeIndex, Ahead, CursorAt, Names, Sorted, Entries;
  }

  /** With its offset corrected, the directory stands at header `r`. */
  lemma SkippedTo(dirs: Table, inodes: Table, l: Listing, name: Name, block: nat, offset: nat, r: nat)
    requires GoodListing(dirs, inodes, l) && Skipped(dirs, l, name, block, offset, r)
    ensures r <= |l.runs| && GoodRuns(l.runs[r..])
    ensures Ahead(dirs, l.base + offset, EncodeRuns(l.runs[r..])) &&
            offset + |EncodeRuns(l.runs[r..])| == |EncodeRuns(l.runs)|
    ensures l.runs[r..] != [] ==>
              Cursor(block, (l.inode.offset + offset) % METADATA_SIZE) == CursorAt(dirs, l.base + offset)
    ensures Sorted(Entries(l.runs[r..]))
    ensures NoZero(name) ==> Find(Entries(l.runs[r..]), name) == Find(Entries(l.runs), name)
  {
    hide EncodeRuns, Entries, Total, BlockOf, OffsetOf, Pos, Ahead, Sorted, EncodeIndex, Less, Find, GoodRuns,
      GoodIndex;
    if exists ix :: Names(dirs, l, ix, r) && offset == ix.index && block == ix.startBlock + dirs.start {
      var ix :| Names(dirs, l, ix, r) && offset == ix.index && block == ix.startBlock + dirs.start;
      HeaderCursor(dirs, inodes, l, ix, r);
    } else {
      OffsetPlus(l.base, 0);
      assert l.runs[r..] == l.runs;
    }
    EntriesSplit(l.runs, r);
    SortedTail(Entries(l.runs[..r]), Entries(l.runs[r..]));
    assert r == 0 ==> l.runs[r..] == l.runs;
    if NoZero(name) && r > 0 {
      SkipRuns(l.runs, r, name);
    }
  }

  /** One round of `sqfs_dir_ff_header` reads an index item and its name. */
  method ReadIndexItem(disk: nat -> MdBlock, md: Cache<MdBlock>, inodes: Table, ghost f: nat, cur0: Cursor,
                       ghost index: seq<IndexItem>)
    returns (cur: Cursor, ix: IndexItem)
    requires md.Valid() && Coherent(disk, md.View()) && OnDisk(disk, inodes)
    requires GoodIndex(index) && index != [] && Ahead(inodes, f, EncodeIndex(index)) && cur0 == CursorAt(inodes, f)
    modifies md, md.slots
    ensures md.Valid() && Coherent(disk, md.View())
    ensures ix == index[0] && GoodIndexItem(ix) && GoodIndex(index[1..])
    ensures Ahead(inodes, f + 12 + |ix.name|, EncodeIndex(index[1..])) && cur == CursorAt(inodes, f + 12 + |ix.name|)
  {
    hide CursorAt, Bytes, OnDisk, Coherent, Total, EncodeIndex, IndexHead, GoodIndex, Ahead;
    IndexUnfold(index);
    IndexHeadRead(index[0]);
    ghost var head, name, rest := IndexHead(index[0]), index[0].name, EncodeIndex(index[1..]);
    AheadSplit(inodes, f, head, name + rest);
    AheadMeans(inodes, f, head);
    AheadSplit(inodes, f + 12, name, rest);
    AheadMeans(inodes, f + 12, name);
    var h, n;
    cur, h := MdRead(disk, md, inodes, f, cur0, 12);
    cur, n := MdRead(disk, md, inodes, f + 12, cur, Word(h, 8) + 1);
    ix := IndexItem(Word(h, 0), Word(h, 4), n);
  }

  lemma SkipsOn(dirs: Table, inodes: Table, l: Listing, name: Name, k: nat) returns (r: nat)
    requires GoodListing(dirs, inodes, l) && k < |l.index| && GoodIndexItem(l.index[k]) && !Stops(l.index[k].name, name)
    ensures Skipped(dirs, l, name, l.index[k].startBlock + dirs.start, l.index[k].index, r)
  {
    hide EncodeRuns, Entries, Total, BlockOf, OffsetOf, Pos, Ahead, Sorted, EncodeIndex, Less, Stops;
    r :| Names(dirs, l, l.index[k], r);
    if NoZero(name) {
      StopsIff(l.index[k].name, name);
    }
  }

  /** `sqfs_dir_ff_header` for a name: goes to the last header whose first name is not behind the name. */
  method FastForward(disk: nat -> MdBlock, md: Cache<MdBlock>, dirs: Table, inodes: Table, l: Listing, name: Name,
                     dir: Dir)
    returns (ghost r: nat)
    requires md.Valid() && Coherent(disk, md.View()) && OnDisk(disk, dirs) && OnDisk(disk, inodes)
    requires GoodListing(dirs, inodes, l)
    requires dir.cur == Cursor(l.inode.startBlock + dirs.start, l.inode.offset) && dir.total == l.inode.dirSize - 3
    requires dir.offset == 0 && dir.count == 0
    modifies dir, md, md.slots
    ensures md.Valid() && Coherent(disk, md.View())
    ensures r <= |l.runs| && dir.Before(dirs, l.base, [], l.runs[r..]) && Sorted(Entries(l.runs[r..]))
    ensures NoZero(name) ==> Find(Entries(l.runs[r..]), name) == Find(Entries(l.runs), name)
  {
    hide CursorAt, OnDisk, Coherent, EncodeRuns, Entries, Total, BlockOf, OffsetOf, Pos, Ahead, Sorted, EncodeIndex,
      Less, Find, GoodIndex, Stops, Names, GoodRuns, GoodListing, Skipped;
    IndexFacts(dirs, inodes, l);
    NothingSkipped(dirs, l, name);
    var cur := l.inode.next;
    var count: nat := l.inode.indexCount;
    ghost var f: nat := l.indexBase;
    r := 0;
    if count == 0 {
      SkippedTo(dirs, inodes, l, name, dir.cur.block, 0, 0);
      InTable(l.base);
      StandsAt(dir, dirs, l, r);
      return;
    }
    ghost var k: nat := 0;
    assert l.index[k..] == l.index;
    while count > 0
      invariant k <= |l.index| && k + count == |l.index|
      invariant md.Valid() && Coherent(disk, md.View())
      invariant GoodIndex(l.index[k..]) && Ahead(inodes, f, EncodeIndex(l.index[k..])) && cur == CursorAt(inodes, f)
      invariant Skipped(dirs, l, name, dir.cur.block, dir.offset, r)
      invariant dir.cur.offset == l.inode.offset && dir.total == l.inode.dirSize - 3 && dir.count == 0
    {
      count := count - 1;
      var c, ix := ReadIndexItem(disk, md, inodes, f, cur, l.index[k..]);
      cur, f := c, f + 12 + |ix.name|;
      assert l.index[k..][1..] == l.index[k + 1..];
      if Stops(ix.name, name) {
        break;
      }
      r := SkipsOn(dirs, inodes, l, name, k);
      k := k + 1;
      dir.cur := Cursor(ix.startBlock + dirs.start, dir.cur.offset);
      dir.offset := ix.index;
    }
    SkippedTo(dirs, inodes, l, name, dir.cur.block, dir.offset, r);
    dir.cur := Cursor(dir.cur.block, (dir.cur.offset + dir.offset) % METADATA_SIZE);
    StandsAt(dir, dirs, l, r);
  }

  lemma InTable(f: nat)
    ensures OffsetOf(f) % METADATA_SIZE == OffsetOf(f)
  {
  }

  lemma StandsAt(dir: Dir, dirs: Table, l: Listing, r: nat)
    requires r <= |l.runs| && GoodRuns(l.runs[r..]) && GoodRuns(l.runs) && dir.count == 0
    requires dir.total == |EncodeRuns(l.runs)| == dir.offset + |EncodeRuns(l.runs[r..])|
    requires Ahead(dirs, l.base + dir.offset, EncodeRuns(l.runs[r..]))
    requires l.runs[r..] != [] ==> dir.cur == CursorAt(dirs, l.base + dir.offset)
    ensures dir.Before(dirs, l.base, [], l.runs[r..])
  {
    hide Ahead, GoodRuns, CursorAt, EncodeRuns;
    EmptyIff(l.runs[r..]);
    NothingEncoded();
    assert [] + EncodeRuns(l.runs[r..]) == EncodeRuns(l.runs[r..]);
  }

  // ----- lookup -----

  /** Comparing an entry's name as the source does. */
  lemma EntryOrder(left: seq<Entry>, name: Name)
    requires Sorted(left) && left != [] && NoZero(left[0].name)
    ensures var e := left[0]; var order := Compare(e.name, name, 0, |name|);
            && (order == 0 && |e.name| == |name| ==> e.name == name && Find(left, name) == Some(e))
            && (NoZero(name) && order >= 0 && !(order == 0 && |e.name| == |name|) ==> Find(left, name) == None)
            && (NoZero(name) && order < 0 ==> Find(left, name) == Find(left[1..], name))
  {
    hide Less, Compare;
    var e := left[0];
    var order := Compare(e.name, name, 0, |name|);
    if order == 0 && |e.name| == |name| {
      EqualIsSame(e.name, name, 0);
    } else if NoZero(name) {
      CompareIs(e.name, name);
      if order >= 0 {
        StopAtLarger(left, name);
      }
    }
  }

  lemma CompareIs(a: Name, b: Name)
    requires NoZero(a) && NoZero(b)
    ensures Compare(a, b, 0, |b|) < 0 <==> Less(a, b)
    ensures Compare(a, b, 0, |b|) == 0 && |a| == |b| <==> a == b
    ensures a == b ==> !Less(a, b)
  {
    CompareMeans(a, b, 0);
    if a == b { LessIrreflexive(a, 0); }
  }

  lemma {:induction false} FoundIsNamed(entries: seq<Entry>, name: Name)
    requires Strings(entries) && !NoZero(name)
    ensures Find(entries, name) == None
  {
    FindNone(entries, name);
  }

  lemma {:induction false} ResolvedStrings(startBlock: word, inodeNumber: word, items: seq<Item>)
    requires GoodItems(items)
    ensures Strings(Resolved(startBlock, inodeNumber, items))
    decreases |items|
  {
    hide NoZero;
    if items != [] { ResolvedStrings(startBlock, inodeNumber, items[1..]); }
  }

  lemma {:induction false} EntriesStrings(runs: seq<Run>)
    requires GoodRuns(runs)
    ensures Strings(Entries(runs))
    decreases |runs|
  {
    hide NoZero;
    if runs != [] {
      ResolvedStrings(runs[0].startBlock, runs[0].inodeNumber, runs[0].items);
      EntriesStrings(runs[1..]);
    }
  }

  /** `sqfs_dir_lookup`: the answer of a scan of the whole listing, for every name and every well-formed index. */
  method Lookup(disk: nat -> MdBlock, md: Cache<MdBlock>, dirs: Table, inodes: Table, l: Listing, name: Name)
    returns (found: Option<Entry>)
    requires md.Valid() && Coherent(disk, md.View()) && OnDisk(disk, dirs) && OnDisk(disk, inodes)
    requires GoodListing(dirs, inodes, l)
    modifies md, md.slots
    ensures md.Valid() && Coherent(disk, md.View())
    ensures found == Find(Entries(l.runs), name)
  {
    hide CursorAt, OnDisk, Coherent, EncodeRuns, Entries, Ahead, Sorted, Strings, EncodeIndex, Less, NoZero, Resolved,
      Find, GoodIndex, GoodRuns, GoodItems, EncodeItems, Total, OffsetOf, Compare, GoodListing;
    ListingFacts(dirs, inodes, l);
    var dir := new Dir(Cursor(l.inode.startBlock + dirs.start, l.inode.offset), l.inode.dirSize - 3);
    ghost var r := FastForward(disk, md, dirs, inodes, l, name, dir);
    ghost var items, runs := [], l.runs[r..];
    ghost var left := dir.Left(items, runs);
    ResolvedUnfold(dir.startBlock, dir.inodeNumber, []);
    RunsStrings(l.runs, r);
    found := None;
    while true
      invariant md.Valid() && Coherent(disk, md.View()) && fresh(dir)
      invariant dir.Before(dirs, l.base, items, runs) && left == dir.Left(items, runs)
      invariant found.None? && Sorted(left) && Strings(left)
      invariant NoZero(name) ==> Find(left, name) == Find(Entries(l.runs), name)
      decreases |left|
    {
      var next, from, to;
      next, from, to, items, runs := dir.Next(disk, md, dirs, l.base, items, runs);
      if next.None? {
        NothingFound(name);
        break;
      }
      var entry := next.value;
      TailOf(left);
      EntryOrder(left, name);
      left := left[1..];
      var order := Compare(entry.name, name, 0, |name|);
      if order == 0 && |entry.name| == |name| {
        found := Some(entry);
      }
      if order >= 0 {
        break;
      }
    }
    if !NoZero(name) { FoundIsNamed(Entries(l.runs), name); }
  }

  lemma ListingFacts(dirs: Table, inodes: Table, l: Listing)
    requires GoodListing(dirs, inodes, l)
    ensures l.inode.dirSize >= 3 && GoodRuns(l.runs) && Strings(Entries(l.runs))
  {
    hide CursorAt, EncodeRuns, Entries, Ahead, Sorted, Strings, EncodeIndex, GoodIndex, GoodRuns;
    EntriesStrings(l.runs);
  }

  lemma RunsStrings(runs: seq<Run>, r: nat)
    requires GoodRuns(runs) && r <= |runs|
    ensures Strings(Entries(runs[r..])) && [] + Entries(runs[r..]) == Entries(runs[r..])
  {
    EntriesStrings(runs[r..]);
  }

  lemma NothingFound(name: Name)
    ensures Find([], name) == None
  {
  }

  lemma TailOf(left: seq<Entry>)
    requires Sorted(left) && Strings(left) && left != []
    ensures Sorted(left[1..]) && Strings(left[1..]) && NoZero(left[0].name)
  {
    assert left == [left[0]] + left[1..];
    SortedTail([left[0]], left[1..]);
  }
}
