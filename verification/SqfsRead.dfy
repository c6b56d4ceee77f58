/** `sqfs_read_range`: the bytes of a regular file, whatever the caches hold. */
module SqfsRead {
  import opened Types
  import opened SqfsCache
  import opened SqfsMetadata
  import opened SqfsFile
  import opened SqfsBlocks

  datatype Status = Ok | Err

  ghost predicate DataCoherent(img: Image, headers: nat -> nat, c: Contents<seq<byte>>) {
    forall i :: 0 <= i < |c.slots| && c.slots[i].idx != INVALID ==>
                  c.slots[i].value == img.data(c.slots[i].idx, headers(c.slots[i].idx))
  }

  /** `sqfs_data_cache`: through the cache, a block is what the disk holds. */
  method DataCache(img: Image, ghost headers: nat -> nat, cache: Cache<seq<byte>>, pos: nat, header: nat)
    returns (block: seq<byte>)
    requires cache.Valid() && DataCoherent(img, headers, cache.View()) && pos != INVALID && headers(pos) == header
    modifies cache, cache.slots
    ensures cache.Valid() && DataCoherent(img, headers, cache.View())
    ensures block == img.data(pos, header)
  {
    var entry := cache.Get(pos);
    if entry.Some? {
      return entry.value;
    }
    block := img.data(pos, header);
    cache.Add(pos, block);
  }

  /** The blocks before `j` begin with the blocks before `i`. */
  lemma {:induction false} TextPrefix(img: Image, f: File, i: nat, j: nat)
    requires i <= j
    ensures Text(img, f, i) <= Text(img, f, j)
    decreases j
  {
    hide Text, BlockBytes;
    if i < j {
      TextPrefix(img, f, i, j - 1);
      TextNext(img, f, j - 1);
    }
  }

  lemma ContentsLength(img: Image, f: File)
    requires GoodFile(img, f)
    ensures |FileBytes(img, f)| == f.inode.fileSize
    ensures |Tail(img, f)| == if f.inode.frag.Some? then f.inode.fileSize % img.blockSize else 0
  {
    hide PosOf, Count, Text, OnDisk, Pos, Total, CursorAt, GoodBlock;
    CountFacts(img, f.inode);
    TextLength(img, f, Count(img, f.inode));
  }

  /** A piece of block `i` is the piece of the file at the block's position. */
  lemma BlockPiece(img: Image, f: File, i: nat, off: nat, n: nat)
    requires GoodFile(img, f) && i < Count(img, f.inode) && off + n <= BlockLen(img, f, i)
    ensures |BlockBytes(img, f, i)| == BlockLen(img, f, i)
    ensures var p := PosOf(i, img.blockSize) + off;
            p + n <= |FileBytes(img, f)| && FileBytes(img, f)[p..p + n] == BlockBytes(img, f, i)[off..off + n]
  {
    hide GoodFile, PosOf, Count, Text, BlockBytes, Tail;
    BlockSizePositive(img, f);
    BlockFacts(img, f, i);
    TextLength(img, f, i);
    TextNext(img, f, i);
    TextPrefix(img, f, i + 1, Count(img, f.inode));
    ContentsLength(img, f);
  }

  /** A piece of the tail is the piece of the file behind its last full block. */
  lemma TailPiece(img: Image, f: File, off: nat, n: nat)
    requires GoodFile(img, f) && f.inode.frag.Some? && off + n <= f.inode.fileSize % img.blockSize
    ensures var p, r := PosOf(Count(img, f.inode), img.blockSize) + off, f.inode.frag.value;
            && p + n <= |FileBytes(img, f)|
            && r.offset + off + n <= |img.data(r.pos, r.header)|
            && FileBytes(img, f)[p..p + n] == img.data(r.pos, r.header)[r.offset + off..r.offset + off + n]
  {
    hide PosOf, Count, Text, OnDisk, Pos, Total, CursorAt, GoodBlock;
    CountFacts(img, f.inode);
    TextLength(img, f, Count(img, f.inode));
    ContentsLength(img, f);
    var r := f.inode.frag.value;
    PieceBehind(Text(img, f, Count(img, f.inode)), img.data(r.pos, r.header), r.offset,
        f.inode.fileSize % img.blockSize, off, n);
  }

  // ----- the bytes of a file, one by one -----

  /** The size words of the first `n` blocks. */
  function SizeWords(img: Image, f: File, n: nat): (r: seq<nat>)
    ensures |r| == n
  {
    if n == 0 then [] else SizeWords(img, f, n - 1) + [Header(img, f, n - 1)]
  }

  /** The sum of size words without the bit that says "not compressed". */
  function SumOfSizes(words: seq<nat>): int {
    if words == [] then 0
    else words[0] - (if words[0] / NOT_COMPRESSED % 2 == 1 then NOT_COMPRESSED else 0) + SumOfSizes(words[1..])
  }

  lemma {:induction false} SumMore(words: seq<nat>, w: nat)
    ensures SumOfSizes(words + [w]) == SumOfSizes(words) + DataSize(w)
    decreases |words|
  {
    DataSizeClears(w);
    if words == [] {
      assert (words + [w])[1..] == [];
    } else {
      assert (words + [w])[1..] == words[1..] + [w];
      SumMore(words[1..], w);
    }
  }

  /** The blocks of a file lie one behind the other. */
  lemma {:induction false} AddrIsSum(img: Image, f: File, i: nat)
    ensures Addr(img, f, i) == f.inode.startBlock + SumOfSizes(SizeWords(img, f, i))
    decreases i
  {
    hide DataSize, Header;
    if i > 0 {
      AddrIsSum(img, f, i - 1);
      SumMore(SizeWords(img, f, i - 1), Header(img, f, i - 1));
    }
  }

  lemma CountIs(img: Image, f: File, k: nat)
    requires 0 < img.blockSize && k < f.inode.fileSize
    ensures k / img.blockSize < Count(img, f.inode) <==>
            f.inode.frag.None? || k / img.blockSize < f.inode.fileSize / img.blockSize
    ensures k / img.blockSize <= Count(img, f.inode)
  {
    hide Count, PosOf;
    var bs, n := img.blockSize, Count(img, f.inode);
    CountFacts(img, f.inode);
    BlockAt(k, bs);
    BlockAt(f.inode.fileSize, bs);
    PosOrder(n, k / bs, bs);
    PosOrder(n + 1, k / bs, bs);
    PosNextBlock(n, bs);
    CountOfTail(img, f);
  }

  lemma CountOfTail(img: Image, f: File)
    requires 0 < img.blockSize
    ensures f.inode.frag.Some? ==> Count(img, f.inode) == f.inode.fileSize / img.blockSize
  {
  }

  function ByteIn(block: seq<byte>, k: nat): Option<byte> {
    if k < |block| then Some(block[k]) else None
  }

  /**
   Where byte `k` of a file is: in block `k / block size`, which lies at the sum of the sizes before it, and is a zero
   when the word of the block is 0 or 2^24; behind the full blocks of a file with a fragment it is in the fragment.
   */
  function ByteOnDisk(img: Image, f: File, k: nat): Option<byte>
    requires 0 < img.blockSize
  {
    var bs, i := img.blockSize, k / img.blockSize;
    if f.inode.frag.Some? && i >= f.inode.fileSize / bs then
      var r := f.inode.frag.value;
      ByteIn(img.data(r.pos, r.header), r.offset + k % bs)
    else
      var word, sum := Header(img, f, i), SumOfSizes(SizeWords(img, f, i));
      if word == 0 || word == NOT_COMPRESSED then Some(0)
      else if f.inode.startBlock + sum < 0 then None
      else ByteIn(img.data(f.inode.startBlock + sum, word), k % bs)
  }

  /** Every byte of a file is where it belongs. */
  lemma FileByteAt(img: Image, f: File, k: nat)
    requires GoodFile(img, f) && k < f.inode.fileSize
    ensures 0 < img.blockSize && k < |FileBytes(img, f)| == f.inode.fileSize
    ensures Some(FileBytes(img, f)[k]) == ByteOnDisk(img, f, k)
  {
    hide GoodFile, Count, FileBytes, PosOf, BlockBytes, Header, Addr, SumOfSizes, SizeWords;
    BlockSizePositive(img, f);
    ContentsLength(img, f);
    CountIs(img, f, k);
    if k / img.blockSize < Count(img, f.inode) {
      AddrIsSum(img, f, k / img.blockSize);
      ByteOfBlock(img, f, k, k / img.blockSize);
    } else {
      ByteOfTail(img, f, k);
    }
  }

  lemma ByteOfBlock(img: Image, f: File, k: nat, i: nat)
    requires GoodFile(img, f) && k < f.inode.fileSize && i == k / img.blockSize && i < Count(img, f.inode)
    ensures 0 < img.blockSize && k < |FileBytes(img, f)|
    ensures Some(FileBytes(img, f)[k]) ==
            if Header(img, f, i) == 0 || Header(img, f, i) == NOT_COMPRESSED then Some(0)
            else ByteIn(img.data(Addr(img, f, i), Header(img, f, i)), k % img.blockSize)
  {
    hide GoodFile, Count, FileBytes, PosOf, Header, Addr, DataSize;
    BlockSizePositive(img, f);
    var off := k % img.blockSize;
    ContentsLength(img, f);
    BlockAt(k, img.blockSize);
    BlockFacts(img, f, i);
    BlockPiece(img, f, i, off, 1);
    HoleIff(Header(img, f, i));
    assert FileBytes(img, f)[k] == FileBytes(img, f)[k..k + 1][0] == BlockBytes(img, f, i)[off..off + 1][0];
  }

  lemma ByteOfTail(img: Image, f: File, k: nat)
    requires GoodFile(img, f) && k < f.inode.fileSize && k / img.blockSize == Count(img, f.inode) && f.inode.frag.Some?
    ensures 0 < img.blockSize && k < |FileBytes(img, f)|
    ensures var r := f.inode.frag.value;
            Some(FileBytes(img, f)[k]) == ByteIn(img.data(r.pos, r.header), r.offset + k % img.blockSize)
  {
    hide GoodFile, Count, FileBytes, PosOf;
    BlockSizePositive(img, f);
    var off, r := k % img.blockSize, f.inode.frag.value;
    ContentsLength(img, f);
    CountFacts(img, f.inode);
    BlockAt(k, img.blockSize);
    TailPiece(img, f, off, 1);
    assert FileBytes(img, f)[k] == FileBytes(img, f)[k..k + 1][0];
    var block := img.data(r.pos, r.header);
    assert block[r.offset + off..r.offset + off + 1][0] == block[r.offset + off];
  }

  lemma PieceBehind(a: seq<byte>, block: seq<byte>, from: nat, len: nat, off: nat, n: nat)
    requires from + len <= |block| && off + n <= len
    ensures (a + block[from..from + len])[|a| + off..|a| + off + n] == block[from + off..from + off + n]
  {
    var tail := block[from..from + len];
    assert (a + tail)[|a| + off..|a| + off + n] == tail[off..off + n];
    var l, r := tail[off..off + n], block[from + off..from + off + n];
    forall k | 0 <= k < n
      ensures l[k] == r[k]
    {
      assert tail[off + k] == block[from + (off + k)];
    }
  }

  // ----- the loop -----

  /**
   Between two rounds: `buf` is the file from `start` on; either no block with bytes to copy was reached yet, or the
   next block continues `buf` where it ends.
   */
  ghost predicate Reading(img: Image, f: File, start: nat, buf: seq<byte>, readOff: nat, i: nat, size: nat)
    requires 0 < img.blockSize
  {
    && start + |buf| <= |FileBytes(img, f)| && buf == FileBytes(img, f)[start..start + |buf|]
    && (|| (buf == [] && readOff == start % img.blockSize && i <= start / img.blockSize)
        || (readOff == 0 && i > start / img.blockSize
            && (size > 0 ==> start + |buf| == Min(PosOf(i, img.blockSize), f.inode.fileSize))))
  }

  /** The place of the next byte is its offset in block `i` once that block reaches behind `start`. */
  lemma InBlock(img: Image, f: File, start: nat, buf: seq<byte>, readOff: nat, i: nat, size: nat)
    requires GoodFile(img, f) && i < Count(img, f.inode) && start < f.inode.fileSize
    requires Reading(img, f, start, buf, readOff, i, size) && size > 0
    requires PosOf(i, img.blockSize) + img.blockSize > start
    ensures readOff < BlockLen(img, f, i) && start + |buf| == PosOf(i, img.blockSize) + readOff
    ensures i >= start / img.blockSize
  {
    hide GoodFile, Count, FileBytes;
    BlockSizePositive(img, f);
    BlockAt(start, img.blockSize);
    BlockFacts(img, f, i);
    if i < start / img.blockSize { PosGrows(i, start / img.blockSize, img.blockSize); }
  }

  lemma PosOrder(i: nat, j: nat, size: nat)
    ensures i <= j ==> PosOf(i, size) <= PosOf(j, size)
  {
    if i < j { PosGrows(i, j, size); }
  }

  /** A block that ends at or before `start` lies before the block of `start`. */
  lemma BeforeStart(start: nat, i: nat, size: nat)
    requires 0 < size && PosOf(i, size) + size <= start
    ensures i < start / size
  {
    BlockAt(start, size);
    PosOrder(start / size, i, size);
  }

  lemma SlicesJoin(s: seq<byte>, a: nat, b: nat, c: nat)
    requires a <= b <= c <= |s|
    ensures s[a..b] + s[b..c] == s[a..c]
  {
  }

  /** Copying `take` bytes of block `i` keeps the invariant. */
  lemma TakeBlock(img: Image, f: File, start: nat, buf: seq<byte>, readOff: nat, i: nat, size: nat, take: nat)
    requires GoodFile(img, f) && i < Count(img, f.inode) && start < f.inode.fileSize
    requires Reading(img, f, start, buf, readOff, i, size) && size > 0
    requires PosOf(i, img.blockSize) + img.blockSize > start
    requires readOff <= BlockLen(img, f, i) && take == Min(BlockLen(img, f, i) - readOff, size)
    ensures |BlockBytes(img, f, i)| == BlockLen(img, f, i)
    ensures Reading(img, f, start, buf + BlockBytes(img, f, i)[readOff..readOff + take], 0, i + 1, size - take)
  {
    hide GoodFile, Count, FileBytes, PosOf, BlockBytes;
    InBlock(img, f, start, buf, readOff, i, size);
    BlockFacts(img, f, i);
    BlockPiece(img, f, i, readOff, take);
    PosNextBlock(i, img.blockSize);
    StillReading(img, f, start, buf, BlockBytes(img, f, i)[readOff..readOff + take], i + 1, size - take);
  }

  lemma StillReading(img: Image, f: File, start: nat, buf: seq<byte>, piece: seq<byte>, i: nat, size: nat)
    requires 0 < img.blockSize && start / img.blockSize < i && start + |buf| + |piece| <= |FileBytes(img, f)|
    requires buf == FileBytes(img, f)[start..start + |buf|]
    requires piece == FileBytes(img, f)[start + |buf|..start + |buf| + |piece|]
    requires size > 0 ==> start + |buf| + |piece| == Min(PosOf(i, img.blockSize), f.inode.fileSize)
    ensures Reading(img, f, start, buf + piece, 0, i, size)
  {
    hide FileBytes, PosOf;
    SlicesJoin(FileBytes(img, f), start, start + |buf|, start + |buf| + |piece|);
  }

  /** Behind the last block, what is left of the file is the tail. */
  lemma AtTail(img: Image, f: File, start: nat, buf: seq<byte>, readOff: nat, size: nat)
    requires GoodFile(img, f) && start < f.inode.fileSize && size > 0
    requires Reading(img, f, start, buf, readOff, Count(img, f.inode), size)
    ensures f.inode.frag.None? ==> start + |buf| == f.inode.fileSize
    ensures f.inode.frag.Some? ==> readOff <= f.inode.fileSize % img.blockSize &&
                                   start + |buf| == PosOf(Count(img, f.inode), img.blockSize) + readOff
  {
    hide GoodFile, Count, FileBytes, PosOf;
    BlockSizePositive(img, f);
    var n, bs := Count(img, f.inode), img.blockSize;
    BlockAt(start, bs);
    CountFacts(img, f.inode);
    PosOrder(n, start / bs, bs);
    PosOrder(n + 1, start / bs, bs);
    PosNextBlock(n, bs);
  }

  /** Copying `take` bytes of the tail. */
  lemma TakeTail(img: Image, f: File, start: nat, buf: seq<byte>, readOff: nat, size: nat, take: nat)
    requires GoodFile(img, f) && start < f.inode.fileSize && size > 0 && f.inode.frag.Some?
    requires Reading(img, f, start, buf, readOff, Count(img, f.inode), size)
    requires readOff <= f.inode.fileSize % img.blockSize && take ==
             Min(f.inode.fileSize % img.blockSize - readOff, size)
    ensures var r := f.inode.frag.value; var block, from := img.data(r.pos, r.header), r.offset + readOff;
            && from + take <= |block| && start + |buf| + take <= |FileBytes(img, f)|
            && buf + block[from..from + take] == FileBytes(img, f)[start..start + |buf| + take]
            && (take < size ==> start + |buf| + take == f.inode.fileSize)
  {
    hide GoodFile, Count, FileBytes, PosOf, Reading;
    BlockSizePositive(img, f);
    ReadSoFar(img, f, start, buf, readOff, Count(img, f.inode), size);
    AtTail(img, f, start, buf, readOff, size);
    CountFacts(img, f.inode);
    TailPiece(img, f, readOff, take);
    SlicesJoin(FileBytes(img, f), start, start + |buf|, start + |buf| + take);
  }

  /** The body of the loop for a listed block: a hole, or a block from the cache; `None` stands for a hole. */
  method Fetch(img: Image, f: File, ghost i: nat, bl: Blocklist, data: Cache<seq<byte>>)
    returns (block: Option<seq<byte>>, dataSize: nat)
    requires GoodFile(img, f) && i < Count(img, f.inode)
    requires bl.pos == PosOf(i, img.blockSize) && bl.block == Addr(img, f, i)
    requires bl.header == Header(img, f, i) && bl.inputSize == DataSize(bl.header)
    requires data.Valid() && DataCoherent(img, img.dataHeader, data.View())
    modifies data, data.slots
    ensures data.Valid() && DataCoherent(img, img.dataHeader, data.View())
    ensures dataSize == BlockLen(img, f, i)
    ensures BlockBytes(img, f, i) == if block.Some? then block.value else Zeros(dataSize)
  {
    hide GoodFile, Count, PosOf, Addr, Header, DataSize, DataCoherent, Zeros;
    BlockFacts(img, f, i);
    if bl.inputSize == 0 {
      dataSize := f.inode.fileSize - bl.pos;
      if dataSize > img.blockSize {
        dataSize := img.blockSize;
      }
      block := None;
    } else {
      Listed(img, f, i);
      var b := DataCache(img, img.dataHeader, data, bl.block, bl.header);
      block, dataSize := Some(b), |b|;
    }
  }

  lemma Listed(img: Image, f: File, i: nat)
    requires GoodFile(img, f) && i < Count(img, f.inode) && DataSize(Header(img, f, i)) != 0
    ensures Addr(img, f, i) != INVALID && img.dataHeader(Addr(img, f, i)) == Header(img, f, i)
  {
    hide Count, PosOf, Addr, Header, DataSize, OnDisk, Pos, Total, CursorAt, BlockLen;
    assert GoodBlock(img, f, i);
  }

  lemma ZeroPiece(n: nat, off: nat, take: nat)
    requires off + take <= n
    ensures Zeros(n)[off..off + take] == Zeros(take)
  {
  }

  lemma FragmentListed(img: Image, f: File)
    requires GoodFile(img, f) && f.inode.frag.Some?
    ensures f.inode.frag.value.pos != INVALID && img.fragHeader(f.inode.frag.value.pos) == f.inode.frag.value.header
  {
    hide Count, OnDisk, Pos, Total, CursorAt, GoodBlock;
  }

  lemma NotYet(img: Image, f: File, start: nat, buf: seq<byte>, readOff: nat, i: nat, size: nat)
    requires GoodFile(img, f) && Reading(img, f, start, buf, readOff, i, size) && i < Count(img, f.inode)
    requires PosOf(i, img.blockSize) + img.blockSize <= start
    ensures Reading(img, f, start, buf, readOff, i + 1, size)
  {
    hide GoodFile, Count, FileBytes, PosOf;
    BlockSizePositive(img, f);
    BeforeStart(start, i, img.blockSize);
  }

  /** The loop of `sqfs_read_range`. */
  method ReadBlocks(img: Image, f: File, start: nat, size0: nat, bl: Blocklist, ghost i0: nat,
                    md: Cache<MdBlock>, data: Cache<seq<byte>>, frags: Cache<seq<byte>>)
    returns (buf: seq<byte>)
    requires GoodFile(img, f) && start < f.inode.fileSize
    requires bl.Before(img, f, i0) && i0 <= start / img.blockSize
    requires md.Valid() && Coherent(img.md, md.View())
    requires data.Valid() && DataCoherent(img, img.dataHeader, data.View())
    requires frags.Valid() && DataCoherent(img, img.fragHeader, frags.View())
    requires data != frags && data.slots != frags.slots
    modifies bl, md, md.slots, data, data.slots, frags, frags.slots
    ensures md.Valid() && Coherent(img.md, md.View())
    ensures data.Valid() && DataCoherent(img, img.dataHeader, data.View())
    ensures frags.Valid() && DataCoherent(img, img.fragHeader, frags.View())
    ensures |FileBytes(img, f)| == f.inode.fileSize
    ensures buf == FileBytes(img, f)[start..Min(start + size0, f.inode.fileSize)]
  {
    hide GoodFile, Count, FileBytes, PosOf, Addr, Header, DataSize, DataCoherent, Zeros, BlockLen, BlockBytes, Reading,
      Coherent, CursorAt;
    BlockSizePositive(img, f);
    ContentsLength(img, f);
    var inode := f.inode;
    var readOff: nat, size: nat := start % img.blockSize, size0;
    ghost var i := i0;
    buf := [];
    StartReading(img, f, start, i, size);
    while size > 0
      invariant md.Valid() && Coherent(img.md, md.View())
      invariant data.Valid() && DataCoherent(img, img.dataHeader, data.View())
      invariant frags.Valid() && DataCoherent(img, img.fragHeader, frags.View())
      invariant bl.Before(img, f, i) && Reading(img, f, start, buf, readOff, i, size) && |buf| + size == size0
      decreases bl.remain, size
    {
      if bl.remain == 0 {
        AtTail(img, f, start, buf, readOff, size);
        if inode.frag.None? { break; }
        buf := ReadTail(img, f, start, size, readOff, frags, buf);
        return;
      }
      var ok := bl.Next(img, f, i, md);
      if bl.pos + img.blockSize <= start {
        NotYet(img, f, start, buf, readOff, i, size);
        i := i + 1;
        continue;
      }
      InBlock(img, f, start, buf, readOff, i, size);
      var block, dataSize := Fetch(img, f, i, bl, data);
      var take := Min(dataSize - readOff, size);
      TakeBlock(img, f, start, buf, readOff, i, size, take);
      ZeroPieces(block, dataSize, readOff, take);
      if block.Some? {
        buf := buf + block.value[readOff..readOff + take];
      } else {
        buf := buf + Zeros(take);
      }
      readOff := 0;
      size := size - take;
      i := i + 1;
    }
    ReadSoFar(img, f, start, buf, readOff, i, size);
  }

  /** The bytes of the fragment. */
  method ReadTail(img: Image, f: File, start: nat, size: nat, readOff: nat, frags: Cache<seq<byte>>, sofar: seq<byte>)
    returns (buf: seq<byte>)
    requires GoodFile(img, f) && start < f.inode.fileSize && size > 0 && f.inode.frag.Some?
    requires Reading(img, f, start, sofar, readOff, Count(img, f.inode), size)
    requires frags.Valid() && DataCoherent(img, img.fragHeader, frags.View())
    modifies frags, frags.slots
    ensures frags.Valid() && DataCoherent(img, img.fragHeader, frags.View())
    ensures start <= |FileBytes(img, f)| == f.inode.fileSize
    ensures buf == FileBytes(img, f)[start..Min(start + |sofar| + size, f.inode.fileSize)]
  {
    hide GoodFile, Count, FileBytes, PosOf, DataCoherent, Reading, CursorAt;
    BlockSizePositive(img, f);
    ContentsLength(img, f);
    AtTail(img, f, start, sofar, readOff, size);
    FragmentListed(img, f);
    var frag := f.inode.frag.value;
    var block := DataCache(img, img.fragHeader, frags, frag.pos, frag.header);
    var take := Min(f.inode.fileSize % img.blockSize - readOff, size);
    TakeTail(img, f, start, sofar, readOff, size, take);
    ReadSoFar(img, f, start, sofar, readOff, Count(img, f.inode), size);
    var from := frag.offset + readOff;
    buf := sofar + block[from..from + take];
  }

  lemma ReadSoFar(img: Image, f: File, start: nat, buf: seq<byte>, readOff: nat, i: nat, size: nat)
    requires 0 < img.blockSize && Reading(img, f, start, buf, readOff, i, size)
    ensures start + |buf| <= |FileBytes(img, f)| && buf == FileBytes(img, f)[start..start + |buf|]
  {
    hide FileBytes, PosOf;
  }

  lemma StartReading(img: Image, f: File, start: nat, i: nat, size: nat)
    requires 0 < img.blockSize && start <= |FileBytes(img, f)| && i <= start / img.blockSize
    ensures Reading(img, f, start, [], start % img.blockSize, i, size)
  {
    hide FileBytes, PosOf;
  }

  lemma ZeroPieces(block: Option<seq<byte>>, n: nat, off: nat, take: nat)
    requires block.None? ==> off + take <= n
    ensures block.None? ==> Zeros(n)[off..off + take] == Zeros(take) && |Zeros(n)| == n
  {
    if block.None? { ZeroPiece(n, off, take); }
  }

  /** What a read must answer, said on the file's bytes alone. */
  ghost function RangeOf(img: Image, f: File, start: nat, size: int): (Status, seq<byte>)
    requires 0 < img.blockSize
  {
    var all := FileBytes(img, f);
    if size < 0 || start > |all| then (Err, [])
    else if start == |all| then (Ok, [])
    else if size == 0 then (Err, [])
    else (Ok, all[start..Min(start + size, |all|)])
  }

  /**
   A read is refused exactly when its size is negative, it starts behind the end of the file, or it asks for nothing
   in front of the end. Otherwise it gives as many bytes as it asks for and the file still has, each from its place.
   */
  lemma RangeMeans(img: Image, f: File, start: nat, size: int)
    requires GoodFile(img, f)
    ensures 0 < img.blockSize
    ensures var (status, buf) := RangeOf(img, f, start, size); var n := f.inode.fileSize;
            && (status == Err <==> size < 0 || start > n || (start < n && size == 0))
            && (status == Err ==> buf == [])
            && (status == Ok ==> |buf| == (if start + size < n then size else n - start)
                                 && forall k :: 0 <= k < |buf| ==> Some(buf[k]) == ByteOnDisk(img, f, start + k))
  {
    hide GoodFile, FileBytes, ByteOnDisk;
    BlockSizePositive(img, f);
    ContentsLength(img, f);
    var (status, buf) := RangeOf(img, f, start, size);
    if status == Ok {
      forall k | 0 <= k < |buf| ensures Some(buf[k]) == ByteOnDisk(img, f, start + k) {
        FileByteAt(img, f, start + k);
      }
    }
  }

  /**
   `sqfs_read_range`: across full blocks, holes, a short last block and the fragment, a read gives exactly the bytes
   of the range, whatever the caches hold. It reads an index entry that was never recorded (`astray`) exactly when
   the start lies in the fragment and the block list ends where a metadata block does; the answer does not depend on
   what it finds there.
   */
  method ReadRange(img: Image, f: File, start: nat, size: int, md: Cache<MdBlock>, index: Cache<seq<Entry>>,
                   data: Cache<seq<byte>>, frags: Cache<seq<byte>>, unset: Entry)
    returns (status: Status, buf: seq<byte>, astray: bool)
    requires GoodFile(img, f) && f == img.files(f.inode.number)
    requires md.Valid() && Coherent(img.md, md.View()) && index.Valid() && IndexCoherent(img, index.View())
    requires data.Valid() && DataCoherent(img, img.dataHeader, data.View())
    requires frags.Valid() && DataCoherent(img, img.fragHeader, frags.View())
    requires data != frags && data.slots != frags.slots
    modifies md, md.slots, index, index.slots, data, data.slots, frags, frags.slots
    ensures md.Valid() && Coherent(img.md, md.View()) && index.Valid() && IndexCoherent(img, index.View())
    ensures data.Valid() && DataCoherent(img, img.dataHeader, data.View())
    ensures frags.Valid() && DataCoherent(img, img.fragHeader, frags.View())
    ensures (status, buf) == RangeOf(img, f, start, size)
    ensures astray <==> 0 <= size && start < f.inode.fileSize && EntryMissing(img, f.inode, start)
  {
    hide GoodFile, Count, FileBytes, PosOf, DataCoherent, Coherent, IndexCoherent, CursorAt, EntryMissing, Skips;
    BlockSizePositive(img, f);
    ContentsLength(img, f);
    var inode := f.inode;
    if size < 0 || start > inode.fileSize {
      return Err, [], false;
    }
    if start == inode.fileSize {
      return Ok, [], false;
    }
    var bl;
    ghost var i;
    astray, bl, i := FastForward(img, f, inode, start, md, index, unset);
    StartListed(img, f, start);
    buf := ReadBlocks(img, f, start, size, bl, i, md, data, frags);
    status := if |buf| > 0 then Ok else Err;
  }

  lemma StartListed(img: Image, f: File, start: nat)
    requires GoodFile(img, f) && start < f.inode.fileSize
    ensures start / img.blockSize <= Count(img, f.inode)
  {
    hide GoodFile, Count, PosOf;
    BlockSizePositive(img, f);
    var n, bs := Count(img, f.inode), img.blockSize;
    BlockAt(start, bs);
    CountFacts(img, f.inode);
    PosOrder(n + 1, start / bs, bs);
    PosNextBlock(n, bs);
  }

  /** The exception is a real one: 2048 full blocks, listed from the start of a metadata block, and a one-byte tail. */
  lemma TailOfFullListIsMissed(img: Image, inode: Inode)
    requires img.blockSize == 0x1000 && inode.fileSize == 0x80_0001 && inode.frag.Some? && inode.next.offset == 0
    ensures EntryMissing(img, inode, 0x80_0000) && 0x80_0000 < inode.fileSize
  {
  }

  /** Without a fragment the exception does not occur, wherever a read starts. */
  lemma WithoutFragmentNoneIsMissed(img: Image, inode: Inode, start: nat)
    requires 0 < img.blockSize && inode.frag.None? && start < inode.fileSize
    ensures !EntryMissing(img, inode, start)
  {
    hide PosOf, Count;
    var n, bs := Count(img, inode), img.blockSize;
    BlockAt(start, bs);
    CountFacts(img, inode);
    PosOrder(n, start / bs, bs);
  }
}
