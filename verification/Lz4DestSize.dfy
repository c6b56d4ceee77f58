/** `LZ4_compress_destSize`: fill a given output as far as the source goes into it. */
module Lz4DestSize {
  import opened Types
  import opened Lz4Format
  import opened Lz4Count
  import opened Lz4Emit
  import opened Lz4Search
  import opened Lz4Parse
  import opened Lz4Compress
  import Lz4Decoder

  /**
   What has been written, and what it leaves room for: behind a match there is room for a token and five
   literals, and for eight literals unless the match is long, so the end-of-block restrictions can be kept
   wherever the output ends.
   */
  ghost predicate DestProgress(src: seq<byte>, ss: seq<Sequence>, anchor: nat, out: seq<byte>, target: nat) {
    && Written(src, ss, anchor, out) && SoundFrom(ss, 0)
    && |out| < target
    && (ss != [] ==>
          && anchor + LAST_LITERALS <= |src|
          && MF_LIMIT <= ss[|ss| - 1].matchLength + |src| - anchor
          && |out| + LAST_LITERALS + 1 <= target
          && (|out| + 9 <= target || 19 <= ss[|ss| - 1].matchLength))
  }

  /** An output is full but for one byte and a small fraction. */
  predicate Full(target: nat, r: nat) {
    target <= r + 1 + target / 65025
  }

  /** How many of `size` last literals go into `room` bytes together with their token and length. */
  function LastRun(size: nat, room: nat): (n: nat)
    requires 1 <= room
    ensures n <= size && 1 + (n + 240) / 255 + n <= room
    ensures n < size ==> room <= 1 + (n + 240) / 255 + n + 1 + room / 65025
    ensures n < size && 6 <= room ==> 5 <= n
    ensures n < size && 9 <= room ==> 8 <= n
  {
    if 1 + (size + 240) / 255 + size > room then (room - 1) - (room - 1 + 240) / 255 else size
  }

  /** The block that ends with as many last literals as there is room for. */
  lemma FinishedInRoom(src: seq<byte>, ss: seq<Sequence>, anchor: nat, out: seq<byte>, target: nat)
    requires DestProgress(src, ss, anchor, out, target)
    ensures var n := LastRun(|src| - anchor, target - |out|);
            var b := Block(ss, src[anchor..anchor + n], 0);
            && WellFormed(b) && Sound(b) && ExpandBlock(b) == src[..anchor + n]
            && EncodeBlock(b) == out + LiteralPart(src[anchor..anchor + n], 0)
  {
    hide Valid, Expand, EncodeSequences, LiteralPart;
    var n := LastRun(|src| - anchor, target - |out|);
    assert src[..anchor + n] == src[..anchor] + src[anchor..anchor + n];
  }

  /** The match length as written: cut when its description would run into the last literals. */
  function CutMatch(code: nat, op: nat, target: nat): (cut: nat)
    requires op + 9 <= target
    ensures cut <= code && op + (cut + 240) / 255 + LAST_LITERALS + 1 <= target
    ensures cut < code ==> op + (cut + 241) / 255 + LAST_LITERALS + 1 > target && 14 <= cut
  {
    var oMaxMatch := target - (LAST_LITERALS + 1);
    if op + (code + 240) / 255 > oMaxMatch then 14 + (oMaxMatch - op) * 255 else code
  }

  /** Offset and match length, the match cut to what the output has room for. */
  method EncodeCutMatch(src: seq<byte>, dst: array<byte>, ghost anchor: nat, ip0: nat, m: nat, tok: nat, op0: nat,
                        ghost ss0: seq<Sequence>)
    returns (ip: nat, op: nat, ghost ss: seq<Sequence>)
    requires op0 + 2 + 9 <= dst.Length && RunWritten(src, anchor, ip0, m, tok, dst[..op0]) && m < ip0
    requires DestProgress(src, ss0, anchor, dst[..op0][..tok], dst.Length)
    modifies dst
    ensures ip0 + MIN_MATCH <= ip <= MatchEnd(src, m, ip0) && op <= dst.Length
    ensures op + 12 <= dst.Length ==> ip == MatchEnd(src, m, ip0)
    ensures DestProgress(src, ss, ip, dst[..op], dst.Length)
    ensures ss == ss0 + [Sequence(src[anchor..ip0], ip0 - m, ip - ip0)]
    ensures forall job: Job :: job.src == src && job.room == Some(dst.Length) ==>
              Longest(job, op0 + 2, ip0, m, ip - ip0 - MIN_MATCH)
  {
    hide Valid, Expand, EncodeSequences, Common, LiteralPart, Extension;
    ghost var before, literals := dst[..op0][..tok], src[anchor..ip0];
    op := EmitOffset(dst, op0, ip0 - m);
    var code := Count(src, m + MIN_MATCH, ip0 + MIN_MATCH, |src| - LAST_LITERALS);
    var matchLength := CutMatch(code, op, dst.Length);
    WriteSequence(src, ss0, anchor, before, m, ip0, matchLength);
    ip := ip0 + MIN_MATCH + matchLength;
    op := EmitMatchLength(dst, tok, op, matchLength, false, before, literals, ip0 - m);
    ss := ss0 + [Sequence(literals, ip0 - m, matchLength + MIN_MATCH)];
  }

  /** `_next_match` in this compressor: it also stops when the output has no room for another sequence. */
  method EncodeCutMatches(src: seq<byte>, dst: array<byte>, table: array<nat>, t: TableType, hash: nat -> nat,
                          ghost anchor0: nat, ip0: nat, m0: nat, tok0: nat, op0: nat, ghost ss0: seq<Sequence>,
                          ghost job: Job)
    returns (ip: nat, op: nat, more: bool, ghost ss: seq<Sequence>)
    requires dst as object != table && Fits(t, |src|) && HashInto(hash, table.Length)
    requires job == Job(src, t, hash, job.acceleration, Some(dst.Length))
    requires Reaches(job, table.Length, Matching(table[..], anchor0, ip0, m0, ss0))
    requires op0 + 2 + 9 <= dst.Length && RunWritten(src, anchor0, ip0, m0, tok0, dst[..op0]) && m0 < ip0
    requires DestProgress(src, ss0, anchor0, dst[..op0][..tok0], dst.Length)
    requires AllBefore(table, MatchEnd(src, m0, ip0) - 1)
    modifies dst, table
    ensures ip0 < ip && op <= dst.Length && DestProgress(src, ss, ip, dst[..op], dst.Length)
    ensures more ==> ip + MF_LIMIT <= |src| && AllBefore(table, ip + 1)
    ensures Reaches(job, table.Length, if more then Searching(table[..], ip, ip + 1, ss) else Ended(ip, ss))
  {
    hide DestProgress, Common, Extension, Reaches, EncodeSequences, Behind, LiteralPart, Longest;
    ghost var anchor := anchor0;
    var tok: nat, m: nat := tok0, m0;
    ip, op, ss := ip0, op0, ss0;
    while true
      invariant ip0 <= ip && op + 2 + 9 <= dst.Length && RunWritten(src, anchor, ip, m, tok, dst[..op])
      invariant m < ip
      invariant DestProgress(src, ss, anchor, dst[..op][..tok], dst.Length)
      invariant AllBefore(table, MatchEnd(src, m, ip) - 1)
      invariant Reaches(job, table.Length, Matching(table[..], anchor, ip, m, ss))
      decreases |src| - ip
    {
      ghost var p := Matching(table[..], anchor, ip, m, ss);
      ghost var at := op;
      WrittenSize(src, ss, anchor, dst[..op][..tok], dst.Length);
      ip, op, ss := EncodeCutMatch(src, dst, anchor, ip, m, tok, op, ss);
      CutGoesOn(job, table.Length, p, at, ip - p.ip - MIN_MATCH);
      WrittenSize(src, ss, ip, dst[..op], dst.Length);
      anchor := ip;
      var oMaxSeq := dst.Length - 2 - 8 - 1 - 1;
      if ip > |src| - MF_LIMIT || op > oMaxSeq {
        BehindIs(job, table[..], ip, ss);
        return ip, op, false, ss;
      }
      var again;
      again, m := TestNext(src, table, t, hash, ip, job, ss);
      if !again {
        return ip, op, true, ss;
      }
      tok := op;
      op := EmitNoLiterals(dst, op, src, ip);
    }
  }

  lemma WrittenSize(src: seq<byte>, ss: seq<Sequence>, anchor: nat, out: seq<byte>, target: nat)
    requires DestProgress(src, ss, anchor, out, target)
    ensures |EncodeSequences(ss)| == |out|
  {
  }

  /** A match that was cut is the next step of the parse. */
  lemma CutGoesOn(job: Job, entries: nat, p: Point, op: nat, code: nat)
    requires p.Matching? && |p.table| == entries && HashInto(job.hash, entries) && Reaches(job, entries, p)
    requires p.anchor <= p.ip && Accepted(job.src, p.m, p.ip)
    requires op == |EncodeSequences(p.ss)| + |LiteralPart(job.src[p.anchor..p.ip], 0)|
    requires Longest(job, op + 2, p.ip, p.m, code)
    ensures Reaches(job, entries, Behind(job, p.table, p.ip + MIN_MATCH + code,
                                         p.ss + [Sequence(job.src[p.anchor..p.ip], p.ip - p.m, code + MIN_MATCH)]))
  {
    hide Longest, Reaches, EncodeSequences, LiteralPart, Behind;
    MatchGoesOn(job, entries, p, code);
  }

  /** The search, the catch-up and the literals, unless these leave no room for a match. */
  method BeginInRoom(src: seq<byte>, dst: array<byte>, table: array<nat>, t: TableType, hash: nat -> nat,
                     anchor: nat, ip0: nat, op0: nat, ghost ss: seq<Sequence>)
    returns (found: bool, ip: nat, m: nat, op: nat)
    requires dst as object != table && Fits(t, |src|) && MIN_LENGTH <= |src| && HashInto(hash, table.Length)
    requires anchor < ip0 <= |src| && op0 <= dst.Length && DestProgress(src, ss, anchor, dst[..op0], dst.Length)
    requires AllBefore(table, ip0)
    modifies dst, table
    ensures !found ==> dst[..op0] == old(dst[..op0])
    ensures found ==> op + 2 + 9 <= dst.Length && RunWritten(src, anchor, ip, m, op0, dst[..op]) && m < ip
    ensures found ==> DestProgress(src, ss, anchor, dst[..op][..op0], dst.Length)
    ensures found ==> AllBefore(table, MatchEnd(src, m, ip) - 1)
    ensures Follows(Job(src, t, hash, 1, Some(dst.Length)), Searching(old(table[..]), anchor, ip0, ss),
                    if found then Matching(table[..], anchor, ip, m, ss) else Ended(anchor, ss))
  {
    hide Common, Extension, LiteralPart, DestProgress, Follows, MatchEnd, EncodeSequences;
    ghost var job := Job(src, t, hash, 1, Some(dst.Length));
    NeverItself(src, t, hash, table[..], 1, ip0);
    WrittenSize(src, ss, anchor, dst[..op0], dst.Length);
    found, ip, m := Locate(src, table, t, hash, 1, anchor, ip0, job, ss);
    op := op0;
    if found {
      var litLength := ip - anchor;
      var oMaxLit := dst.Length - 2 - 8 - 1;
      if op + 1 + (litLength + 240) / 255 + litLength > oMaxLit {
        return false, ip, m, op;
      }
      ghost var out := dst[..op];
      op := EmitLiterals(dst, op, src, anchor, litLength);
      assert dst[..op][..op0] == out;
    }
  }

  method FillSequences(src: seq<byte>, dst: array<byte>, table: array<nat>, t: TableType, hash: nat -> nat)
    returns (anchor: nat, op: nat, ghost ss: seq<Sequence>)
    requires dst as object != table && Fits(t, |src|) && MIN_LENGTH <= |src| && HashInto(hash, table.Length)
    requires 1 <= dst.Length
    requires forall i :: 0 <= i < table.Length ==> table[i] == 0
    modifies dst, table
    ensures op <= dst.Length && DestProgress(src, ss, anchor, dst[..op], dst.Length)
    ensures Reaches(Job(src, t, hash, 1, Some(dst.Length)), table.Length, Ended(anchor, ss))
  {
    hide DestProgress, Common, LiteralPart, Follows, Reaches;
    ghost var job := Job(src, t, hash, 1, Some(dst.Length));
    StartIsReached(job, table.Length);
    StartInRoom(src, dst.Length);
    ss, op, anchor := [], 0, 0;
    assert dst[..0] == [];
    PutPosition(table, hash(0), 0, t, |src|);
    assert table[..] == seq(table.Length, _ => 0);
    var ip: nat := 1;
    while true
      invariant Reaches(job, table.Length, Searching(table[..], anchor, ip, ss))
      invariant anchor < ip <= |src| && op <= dst.Length && DestProgress(src, ss, anchor, dst[..op], dst.Length)
      invariant AllBefore(table, ip)
      decreases |src| - anchor
    {
      var found, m, tok, more := false, 0, op, false;
      ghost var p := Searching(table[..], anchor, ip, ss);
      found, ip, m, op := BeginInRoom(src, dst, table, t, hash, anchor, ip, op, ss);
      GoesOn(job, table.Length, p, if found then Matching(table[..], anchor, ip, m, ss) else Ended(anchor, ss));
      if !found { return anchor, tok, ss; }
      anchor, op, more, ss := EncodeCutMatches(src, dst, table, t, hash, anchor, ip, m, tok, op, ss, job);
      if !more { return; }
      ip := anchor + 1;
    }
  }

  /**
   `LZ4_compress_destSize_generic`, the output being all of `dst`: a well-formed block for the first
   `consumed` bytes of the source, and all of the source or a full output.
   */
  method FillGeneric(src: seq<byte>, dst: array<byte>, table: array<nat>, t: TableType, hash: nat -> nat)
    returns (consumed: nat, r: nat, ghost b: Block)
    requires dst as object != table && HashInto(hash, table.Length)
    requires forall i :: 0 <= i < table.Length ==> table[i] == 0
    modifies dst, table
    ensures dst.Length < 1 || !Fits(t, |src|) ==> r == 0 && consumed == |src|
    ensures 1 <= dst.Length && Fits(t, |src|) ==>
              && consumed <= |src| && r <= dst.Length && dst[..r] == EncodeBlock(b)
              && WellFormed(b) && Sound(b) && ExpandBlock(b) == src[..consumed] && b.unread == 0
              && (consumed == |src| || Full(dst.Length, r))
              && Filled(Job(src, t, hash, 1, Some(dst.Length)), table.Length, consumed, b)
  {
    hide WellFormed, ExpandBlock, EncodeBlock, DestProgress, Reaches, Full, LastRun, EncodeSequences, Filled;
    b := Block([], [], 0);
    if dst.Length < 1 || |src| > MAX_INPUT_SIZE || (t.ByU16? && |src| >= LIMIT_64K) {
      return |src|, 0, b;
    }
    var anchor, op := 0, 0;
    ghost var ss := [];
    StartInRoom(src, dst.Length);
    assert dst[..0] == [];
    if |src| >= MIN_LENGTH {
      anchor, op, ss := FillSequences(src, dst, table, t, hash);
    }
    consumed, r, b := FillLast(src, dst, anchor, op, ss);
    FilledIs(Job(src, t, hash, 1, Some(dst.Length)), table.Length, anchor, consumed, b);
  }

  lemma FilledIs(job: Job, entries: nat, anchor: nat, consumed: nat, b: Block)
    requires job.room.Some? && |EncodeSequences(b.sequences)| < job.room.value && anchor <= |job.src|
    requires Greedy(job, entries, anchor, b.sequences) && anchor <= consumed <= |job.src|
    requires |b.lastLiterals| == consumed - anchor
    requires |b.lastLiterals| == LastRun(|job.src| - anchor, job.room.value - |EncodeSequences(b.sequences)|)
    ensures Filled(job, entries, consumed, b)
  {
    hide Greedy, LastRun, EncodeSequences;
  }

  lemma FillsUp(size: nat, room: nat, target: nat, op: nat)
    requires 1 <= room && op + room == target
    ensures var n := LastRun(size, room); n < size ==> Full(target, op + 1 + (n + 240) / 255 + n)
  {
    hide LastRun;
    assert room / 65025 <= target / 65025;
  }

  /** The greedy parse into the room there is, and then as many last literals as still fit. */
  ghost predicate Filled(job: Job, entries: nat, consumed: nat, b: Block)
    requires job.room.Some?
  {
    && |b.lastLiterals| <= consumed <= |job.src|
    && Greedy(job, entries, consumed - |b.lastLiterals|, b.sequences)
    && var anchor, op := consumed - |b.lastLiterals|, |EncodeSequences(b.sequences)|;
       op < job.room.value && |b.lastLiterals| == LastRun(|job.src| - anchor, job.room.value - op)
  }

  /** The last literals, as many as there is room for. */
  method FillLast(src: seq<byte>, dst: array<byte>, anchor: nat, op: nat, ghost ss: seq<Sequence>)
    returns (consumed: nat, r: nat, ghost b: Block)
    requires op <= dst.Length && DestProgress(src, ss, anchor, dst[..op], dst.Length)
    modifies dst
    ensures consumed <= |src| && r <= dst.Length && dst[..r] == EncodeBlock(b)
    ensures WellFormed(b) && Sound(b) && ExpandBlock(b) == src[..consumed] && b.unread == 0
    ensures consumed == |src| || Full(dst.Length, r)
    ensures b.sequences == ss && |EncodeSequences(ss)| < dst.Length && anchor <= |src|
    ensures |b.lastLiterals| == LastRun(|src| - anchor, dst.Length - |EncodeSequences(ss)|) == consumed - anchor
  {
    hide WellFormed, ExpandBlock, EncodeBlock, LiteralPart, Extension, Written, LastRun, Full, EncodeSequences, Sound;
    WrittenSize(src, ss, anchor, dst[..op], dst.Length);
    FinishedInRoom(src, ss, anchor, dst[..op], dst.Length);
    var lastRunSize := LastRun(|src| - anchor, dst.Length - op);
    FillsUp(|src| - anchor, dst.Length - op, dst.Length, op);
    b := Block(ss, src[anchor..anchor + lastRunSize], 0);
    r := EmitLast(dst, op, src, anchor, lastRunSize);
    consumed := anchor + lastRunSize;
  }

  lemma StartInRoom(src: seq<byte>, target: nat)
    requires 1 <= target
    ensures DestProgress(src, [], 0, [], target)
  {
  }

  /**
   `LZ4_compress_destSize`: a well-formed block for a prefix of the source that is all of it or fills the output. It is
   the greedy parse into the room there is; of a source of one byte, 255 bytes more go into every byte of output.
   */
  method CompressDestSize(src: seq<byte>, dst: array<byte>, hash: nat -> nat)
    returns (consumed: nat, r: nat, ghost b: Block)
    requires HashInto(hash, Entries(TableFor(|src|)))
    modifies dst
    ensures dst.Length < 1 || |src| > MAX_INPUT_SIZE ==> r == 0
    ensures 1 <= dst.Length && |src| <= MAX_INPUT_SIZE ==>
              && consumed <= |src| && 0 < r <= dst.Length
              && WellFormed(b) && Sound(b) && EncodeBlock(b) == dst[..r] && ExpandBlock(b) == src[..consumed]
              && ReferenceDecode(dst[..r]) == Some(src[..consumed])
              && (consumed == 0 ==> dst[..r] == [0])
              && (consumed == |src| || Full(dst.Length, r))
              && (dst.Length < CompressBound(|src|) ==>
                    Filled(JobFor(src, hash, 1, Some(dst.Length)), Entries(TableFor(|src|)), consumed, b))
              && (OneByte(src) ==> consumed == OneByteFill(|src|, dst.Length))
  {
    hide WellFormed, EncodeBlock, ExpandBlock, ReferenceDecode, Sound, Filled, Greedy;
    if dst.Length >= CompressBound(|src|) {
      consumed := |src|;
      ghost var lost, from;
      r, b, lost, from := CompressFast(src, dst, hash, 1);
      if |src| <= MAX_INPUT_SIZE { Lz4Decoder.WellFormedBytes(dst[..r], b); }
      assert src[..consumed] == src;
    } else {
      var t := TableFor(|src|);
      var table := new nat[Entries(t)](_ => 0);
      consumed, r, b := FillGeneric(src, dst, table, t, hash);
      if 1 <= dst.Length && |src| <= MAX_INPUT_SIZE {
        Lz4Decoder.WellFormedBytes(dst[..r], b);
        if OneByte(src) { OneByteFilled(JobFor(src, hash, 1, Some(dst.Length)), Entries(t), consumed, b); }
      }
    }
  }

  /** How much of a source of one byte goes into an output. */
  function OneByteFill(size: nat, target: nat): int {
    if target < 13 then target - 1 else if size < 24 + 255 * (target - 10) then size else 24 + 255 * (target - 10)
  }

  lemma OneByteFilled(job: Job, entries: nat, consumed: nat, b: Block)
    requires OneByte(job.src) && HashInto(job.hash, entries) && job.room.Some? && Filled(job, entries, consumed, b)
    ensures consumed == OneByteFill(|job.src|, job.room.value)
  {
    hide Greedy, LiteralPart, MatchPart;
    var anchor := consumed - |b.lastLiterals|;
    OneByteGreedy(job, entries);
    if LiteralsFit(job, 0, 1) {
      var code := OneByteCode(job);
      var s: Sequence := Sequence(job.src[..1], 1, code + MIN_MATCH);
      GreedyIsUnique(job, entries, 5 + code, [s], anchor, b.sequences);
      OneEncoded(s);
    } else {
      GreedyIsUnique(job, entries, 0, [], anchor, b.sequences);
    }
  }

  /** ... and `LZ4_decompress_safe` with room for exactly what was consumed: it gives back exactly that prefix. */
  method PrefixRoundTrip(src: seq<byte>, packed: array<byte>, hash: nat -> nat) returns (consumed: nat, text: seq<byte>)
    requires 1 <= packed.Length && |src| <= MAX_INPUT_SIZE && HashInto(hash, Entries(TableFor(|src|)))
    modifies packed
    ensures consumed <= |src| && text == src[..consumed]
  {
    var size;
    ghost var b;
    consumed, size, b := CompressDestSize(src, packed, hash);
    var out := new byte[consumed];
    var r := Lz4Decoder.DecompressSafe(packed[..size], out, b);
    text := out[..r];
  }
}
