/** Reading metadata: a chain of blocks behind a FIFO cache, seen as one flat stream. */
module SqfsMetadata {
  import opened Types
  import opened SqfsCache

  const METADATA_SIZE := 8192

  /** An uncompressed metadata block, and how many bytes it takes on disk with its header. */
  datatype MdBlock = MdBlock(data: seq<byte>, size: nat)

  datatype Cursor = Cursor(block: nat, offset: nat)

  // ----- little-endian numbers -----

  function Half(s: seq<byte>, i: nat): half
    requires i + 2 <= |s|
  {
    s[i] as int + 0x100 * s[i + 1] as int
  }

  function Word(s: seq<byte>, i: nat): word
    requires i + 4 <= |s|
  {
    s[i] as int + 0x100 * s[i + 1] as int + 0x1_0000 * s[i + 2] as int + 0x100_0000 * s[i + 3] as int
  }

  // ----- tables -----

  /** A run of metadata blocks that lie one behind the other from `start`. */
  datatype Table = Table(start: nat, blocks: seq<MdBlock>)

  /** Where block `k` of a table starts on disk. */
  function Pos(t: Table, k: nat): (p: nat)
    ensures t.start <= p
  {
    if k == 0 then t.start else Pos(t, k - 1) + (if k - 1 < |t.blocks| then t.blocks[k - 1].size else 0)
  }

  lemma PosNext(t: Table, k: nat)
    requires k < |t.blocks|
    ensures Pos(t, k + 1) == Pos(t, k) + t.blocks[k].size
  {
  }

  /** What reading the disk at a position gives; only the last block of a table is shorter than 8192 bytes. */
  ghost predicate OnDisk(disk: nat -> MdBlock, t: Table) {
    && 0 < t.start
    && (forall k :: 0 <= k < |t.blocks| ==> 0 < |t.blocks[k].data| <= METADATA_SIZE)
    && (forall k :: 0 <= k < |t.blocks| - 1 ==> |t.blocks[k].data| == METADATA_SIZE)
    && (forall k :: 0 <= k < |t.blocks| ==> disk(Pos(t, k)) == t.blocks[k])
  }

  function Total(t: Table): nat {
    if t.blocks == [] then 0 else METADATA_SIZE * (|t.blocks| - 1) + |t.blocks[|t.blocks| - 1].data|
  }

  /** Every entry of the cache is what a read of its position would give. */
  ghost predicate Coherent(disk: nat -> MdBlock, c: Contents<MdBlock>) {
    forall i :: 0 <= i < |c.slots| && c.slots[i].idx != INVALID ==> c.slots[i].value == disk(c.slots[i].idx)
  }

  /** The block a byte of the flat stream lies in, and where in the block. */
  function BlockOf(f: nat): nat {
    f / METADATA_SIZE
  }

  function OffsetOf(f: nat): nat {
    f % METADATA_SIZE
  }

  lemma Places(f: nat, k: nat, off: nat)
    requires f == METADATA_SIZE * k + off && off < METADATA_SIZE
    ensures BlockOf(f) == k && OffsetOf(f) == off
  {
  }

  lemma Replace(f: nat)
    ensures f == METADATA_SIZE * BlockOf(f) + OffsetOf(f) && OffsetOf(f) < METADATA_SIZE
  {
  }

  /** Byte `f` of the flat stream. */
  function ByteAt(t: Table, f: nat): byte {
    var k, off := BlockOf(f), OffsetOf(f);
    if k < |t.blocks| && off < |t.blocks[k].data| then t.blocks[k].data[off] else 0
  }

  function Bytes(t: Table, f: nat, n: nat): (r: seq<byte>)
    ensures |r| == n
    decreases n
  {
    if n == 0 then [] else Bytes(t, f, n - 1) + [ByteAt(t, f + n - 1)]
  }

  /** The cursor that stands at byte `f`; at the end of the table it stands behind the last block. */
  function CursorAt(t: Table, f: nat): Cursor {
    if f < Total(t) then Cursor(Pos(t, BlockOf(f)), OffsetOf(f)) else Cursor(Pos(t, |t.blocks|), 0)
  }

  /** Reading `n` bytes and then `m` is reading `n + m`. */
  lemma {:induction false} BytesJoin(t: Table, f: nat, n: nat, m: nat)
    ensures Bytes(t, f, n + m) == Bytes(t, f, n) + Bytes(t, f + n, m)
    decreases m
  {
    if m > 0 {
      BytesJoin(t, f, n, m - 1);
      assert f + n + (m - 1) == f + (n + m) - 1;
    }
  }

  /** Inside one block the stream is the block's data. */
  lemma {:induction false} BytesInBlock(t: Table, f: nat, n: nat)
    requires BlockOf(f) < |t.blocks| && |t.blocks[BlockOf(f)].data| <= METADATA_SIZE
    requires OffsetOf(f) + n <= |t.blocks[BlockOf(f)].data|
    ensures Bytes(t, f, n) == t.blocks[BlockOf(f)].data[OffsetOf(f)..OffsetOf(f) + n]
    decreases n
  {
    if n > 0 {
      hide BlockOf, OffsetOf;
      BytesInBlock(t, f, n - 1);
      Replace(f);
      Places(f + n - 1, BlockOf(f), OffsetOf(f) + n - 1);
    }
  }

  /** Where a byte below the total lies. */
  lemma InsideTable(disk: nat -> MdBlock, t: Table, f: nat)
    requires OnDisk(disk, t) && f < Total(t)
    ensures BlockOf(f) < |t.blocks| && OffsetOf(f) < |t.blocks[BlockOf(f)].data| <= METADATA_SIZE
    ensures Pos(t, BlockOf(f)) != INVALID && disk(Pos(t, BlockOf(f))) == t.blocks[BlockOf(f)]
  {
    hide Pos, BlockOf, OffsetOf;
    Replace(f);
  }

  lemma BlockEnd(disk: nat -> MdBlock, t: Table, k: nat)
    requires OnDisk(disk, t) && k < |t.blocks|
    ensures |t.blocks[k].data| <= METADATA_SIZE
    ensures k < |t.blocks| - 1 ==> |t.blocks[k].data| == METADATA_SIZE && METADATA_SIZE * (k + 1) < Total(t)
    ensures k == |t.blocks| - 1 ==> METADATA_SIZE * k + |t.blocks[k].data| == Total(t)
  {
    hide Pos;
  }

  /** Taking `n` bytes from the block the cursor stands in moves it as the source does. */
  lemma CursorMoves(disk: nat -> MdBlock, t: Table, f: nat, n: nat)
    requires OnDisk(disk, t) && f < Total(t) && BlockOf(f) < |t.blocks|
    requires 0 < n && OffsetOf(f) + n <= |t.blocks[BlockOf(f)].data|
    ensures var k, off := BlockOf(f), OffsetOf(f) + n;
            && f + n <= Total(t)
            && CursorAt(t, f + n) == if off == |t.blocks[k].data| then Cursor(Pos(t, k) + t.blocks[k].size, 0)
                                     else Cursor(Pos(t, k), off)
  {
    hide Pos, BlockOf, OffsetOf, OnDisk, Total;
    var k, off := BlockOf(f), OffsetOf(f) + n;
    PosNext(t, k);
    BlockEnd(disk, t, k);
    Replace(f);
    if off < |t.blocks[k].data| {
      Places(f + n, k, off);
    } else if k < |t.blocks| - 1 {
      Places(f + n, k + 1, 0);
    }
  }

  /** `sqfs_md_cache`: through the cache, a block is what the disk holds. */
  method MdCache(disk: nat -> MdBlock, cache: Cache<MdBlock>, pos: nat) returns (b: MdBlock)
    requires cache.Valid() && Coherent(disk, cache.View()) && pos != INVALID
    modifies cache, cache.slots
    ensures cache.Valid() && Coherent(disk, cache.View())
    ensures b == disk(pos)
  {
    var entry := cache.Get(pos);
    if entry.None? {
      b := disk(pos);
      cache.Add(pos, b);
    } else {
      b := entry.value;
    }
  }

  /**
   `sqfs_md_read`: whatever the cache holds, reading `size` bytes from the cursor of byte `f` gives those bytes of
   the flat stream and leaves the cursor of byte `f + size`.
   */
  method MdRead(disk: nat -> MdBlock, cache: Cache<MdBlock>, t: Table, ghost f: nat, cur0: Cursor, size0: nat)
    returns (cur: Cursor, buf: seq<byte>)
    requires cache.Valid() && Coherent(disk, cache.View())
    requires OnDisk(disk, t) && f + size0 <= Total(t) && cur0 == CursorAt(t, f)
    modifies cache, cache.slots
    ensures cache.Valid() && Coherent(disk, cache.View())
    ensures buf == Bytes(t, f, size0) && cur == CursorAt(t, f + size0)
  {
    hide Pos, Bytes, Total, Coherent, OnDisk, BlockOf, OffsetOf;
    cur, buf := cur0, [];
    var size: nat, pos := size0, cur.block;
    ghost var at := f;
    EmptyBytes(t, f);
    while size > 0
      invariant f <= at && at + size == f + size0 && cur == CursorAt(t, at) && buf == Bytes(t, f, at - f)
      invariant size > 0 ==> pos == cur.block
      invariant cache.Valid() && Coherent(disk, cache.View())
      decreases size
    {
      InsideTable(disk, t, at);
      var block := MdCache(disk, cache, pos);
      pos := pos + block.size;
      var take := |block.data| - cur.offset;
      if take > size { take := size; }
      BytesInBlock(t, at, take);
      BytesJoin(t, f, at - f, take);
      CursorMoves(disk, t, at, take);
      buf := buf + block.data[cur.offset..cur.offset + take];
      size := size - take;
      cur := Cursor(cur.block, cur.offset + take);
      if cur.offset == |block.data| {
        cur := Cursor(pos, 0);
      }
      at := at + take;
    }
  }

  lemma EmptyBytes(t: Table, f: nat)
    ensures Bytes(t, f, 0) == []
  {
  }
}
