/** `LZ4_compress_generic` without dictionary and without output limit, and its entry point. */
module Lz4Compress {
  import opened Types
  import opened Lz4Format
  import opened Lz4Count
  import opened Lz4Emit
  import opened Lz4Search
  import opened Lz4Parse
  import Lz4Decoder

  /** `LZ4_compressBound`. */
  function CompressBound(size: nat): (r: nat)
    ensures size > MAX_INPUT_SIZE ==> r == 0
    ensures size <= MAX_INPUT_SIZE ==> 255 * (r - size - 16) <= size < 255 * (r - size - 15)
  {
    if size > MAX_INPUT_SIZE then 0 else size + size / 255 + 16
  }

  // ----- how much a sequence costs -----

  /** Every sequence, however its lengths are spread, costs at most 256 bytes for 255 of text. */
  lemma SequenceCost(literals: seq<byte>, offset: nat, code: nat)
    requires offset <= MAX_DISTANCE
    ensures 255 * |SequenceBytes(literals, offset, code)| <= 256 * (|literals| + code + MIN_MATCH)
  {
    hide LiteralPart, MatchPart;
  }

  lemma RoomForLiterals(size: nat, anchor: nat, n: nat, op: nat)
    requires size <= MAX_INPUT_SIZE && 255 * op <= 256 * anchor && anchor + n + MF_LIMIT <= size
    ensures op + 1 + (n + 240) / 255 + n + WILD_COPY_LENGTH <= CompressBound(size)
  {
  }

  lemma RoomForMatch(size: nat, anchor: nat, op: nat)
    requires size <= MAX_INPUT_SIZE && 255 * op <= 256 * anchor && anchor + LAST_LITERALS <= size
    ensures op + 3 <= CompressBound(size)
  {
  }

  lemma RoomForLast(size: nat, anchor: nat, op: nat)
    requires size <= MAX_INPUT_SIZE && 255 * op <= 256 * anchor && anchor <= size
    ensures op + 1 + (size - anchor + 240) / 255 + (size - anchor) <= CompressBound(size)
  {
  }

  // ----- what has been written -----

  /** The output so far is the encoding of sequences that stand for the source up to `anchor`. */
  ghost predicate Written(src: seq<byte>, ss: seq<Sequence>, anchor: nat, out: seq<byte>) {
    && Valid(ss)
    && anchor <= |src|
    && Expand(ss) == src[..anchor]
    && EncodeSequences(ss) == out
  }

  /** ... cheaply enough, and with the last match clear of the end of the block. */
  ghost predicate Progress(src: seq<byte>, ss: seq<Sequence>, anchor: nat, out: seq<byte>) {
    && Written(src, ss, anchor, out)
    && 255 * |out| <= 256 * anchor
    && (ss != [] ==>
          && anchor + LAST_LITERALS <= |src|
          && MF_LIMIT <= ss[|ss| - 1].matchLength + |src| - anchor)
  }

  /** A source of which the bytes from `from` to `to` have been wiped out. */
  function Wiped(src: seq<byte>, from: nat, to: nat): (r: seq<byte>)
    requires from <= to <= |src|
    ensures |r| == |src|
  {
    src[..from] + seq(to - from, _ => 0) + src[to..]
  }

  /** The source, or, when a search has met itself at `from`, the source without what lies behind it. */
  ghost function Kept(src: seq<byte>, lost: bool, from: nat): (r: seq<byte>)
    requires lost ==> from + LAST_LITERALS <= |src|
    ensures |r| == |src|
  {
    if lost then Wiped(src, from, |src| - LAST_LITERALS) else src
  }

  /**
   What has been written stands for the source. When a search has met itself, the last sequence has offset 0 and
   reaches to the last five bytes, and what has been written stands for a source that is wiped out from `from` on.
   */
  ghost predicate Standing(src: seq<byte>, ss: seq<Sequence>, lost: bool, from: nat, anchor: nat, out: seq<byte>) {
    && (lost ==> from <= anchor == |src| - LAST_LITERALS)
    && (lost <==> !SoundFrom(ss, 0))
    && Progress(Kept(src, lost, from), ss, anchor, out)
  }

  /** Writing one more sequence, its match cut to any length up to the common one. */
  lemma WriteSequence(src: seq<byte>, ss: seq<Sequence>, anchor: nat, out: seq<byte>, m: nat, ip: nat, code: nat)
    requires Written(src, ss, anchor, out) && anchor <= ip && Candidate(src, m, ip)
    requires code <= Common(src, m + MIN_MATCH, ip + MIN_MATCH, |src| - LAST_LITERALS)
    ensures var s := Sequence(src[anchor..ip], ip - m, code + MIN_MATCH);
            && ip + MIN_MATCH + code + LAST_LITERALS <= |src|
            && Written(src, ss + [s], ip + MIN_MATCH + code, out + EncodeSequence(s))
  {
    hide Valid, Expand, EncodeSequences, EncodeSequence, CopyMatch;
    var s := Sequence(src[anchor..ip], ip - m, code + MIN_MATCH);
    assert src[..anchor] + s.literals == src[..ip];
    AppendSequence(ss, s);
    MatchReproduces(src, m, ip, |src| - LAST_LITERALS, code);
  }

  lemma ExtendProgress(src: seq<byte>, ss: seq<Sequence>, anchor: nat, out: seq<byte>, m: nat, ip: nat, code: nat)
    requires Progress(src, ss, anchor, out) && anchor <= ip && Candidate(src, m, ip)
    requires code <= Common(src, m + MIN_MATCH, ip + MIN_MATCH, |src| - LAST_LITERALS)
    ensures var s := Sequence(src[anchor..ip], ip - m, code + MIN_MATCH);
            && ip + MIN_MATCH + code + LAST_LITERALS <= |src|
            && Progress(src, ss + [s], ip + MIN_MATCH + code, out + EncodeSequence(s))
  {
    hide Valid, Expand, EncodeSequences, SequenceBytes, Common;
    WriteSequence(src, ss, anchor, out, m, ip, code);
    SequenceCost(src[anchor..ip], ip - m, code);
  }

  // ----- the compressor -----

  /** The literals up to `ip` are written at `tok`, and a match with `m` is next. */
  ghost predicate RunWritten(src: seq<byte>, anchor: nat, ip: nat, m: nat, tok: nat, out: seq<byte>) {
    && tok <= |out|
    && anchor <= ip && Accepted(src, m, ip)
    && out == out[..tok] + LiteralPart(src[anchor..ip], 0)
  }

  ghost predicate LiteralsWritten(src: seq<byte>, ss: seq<Sequence>, anchor: nat, ip: nat, m: nat, tok: nat,
                                  out: seq<byte>) {
    RunWritten(src, anchor, ip, m, tok, out) && Progress(src, ss, anchor, out[..tok]) && SoundFrom(ss, 0)
  }

  /** Offset and match length behind a run of literals that has just been written. */
  method EncodeMatch(src: seq<byte>, dst: array<byte>, ghost anchor: nat, ip0: nat, m: nat, tok: nat, op0: nat,
                     ghost ss0: seq<Sequence>)
    returns (ip: nat, op: nat, ghost ss: seq<Sequence>)
    requires |src| <= MAX_INPUT_SIZE && CompressBound(|src|) <= dst.Length
    requires op0 <= dst.Length && LiteralsWritten(src, ss0, anchor, ip0, m, tok, dst[..op0])
    modifies dst
    ensures ip == MatchEnd(src, m, ip0) && op <= dst.Length
    ensures ss == ss0 + [Sequence(src[anchor..ip0], ip0 - m, ip - ip0)]
    ensures Standing(src, ss, m == ip0, ip0, ip, dst[..op])
  {
    hide Valid, Expand, EncodeSequences, Common, LiteralPart, Extension, CompressBound, Standing, SequenceBytes;
    ghost var before, literals := dst[..op0][..tok], src[anchor..ip0];
    ghost var code := Common(src, m + MIN_MATCH, ip0 + MIN_MATCH, |src| - LAST_LITERALS);
    ss := OneMore(src, ss0, anchor, before, m, ip0, code);
    MatchRoom(src, before, anchor, ip0, ip0 - m, code);
    op := EmitOffset(dst, op0, ip0 - m);
    var matchCode := Count(src, m + MIN_MATCH, ip0 + MIN_MATCH, |src| - LAST_LITERALS);
    ip := ip0 + MIN_MATCH + matchCode;
    op := EmitMatchLength(dst, tok, op, matchCode, true, before, literals, ip0 - m);
  }

  lemma MatchRoom(src: seq<byte>, before: seq<byte>, anchor: nat, ip: nat, offset: nat, code: nat)
    requires |src| <= MAX_INPUT_SIZE && anchor <= ip && ip + MIN_MATCH + code + LAST_LITERALS <= |src|
    requires 255 * |before| <= 256 * anchor && offset <= MAX_DISTANCE
    ensures |before| + |LiteralPart(src[anchor..ip], 0)| + 2 + |Extension(code)| + 3 <= CompressBound(|src|)
  {
    hide CompressBound;
    SequenceCost(src[anchor..ip], offset, code);
    RoomForMatch(|src|, ip + MIN_MATCH + code, |before| + |SequenceBytes(src[anchor..ip], offset, code)|);
  }

  /** Behind the sequence that is written next: a match extends what has been written, a match with itself wipes. */
  lemma OneMore(src: seq<byte>, ss: seq<Sequence>, anchor: nat, out: seq<byte>, m: nat, ip: nat, code: nat)
    returns (ss': seq<Sequence>)
    requires Progress(src, ss, anchor, out) && SoundFrom(ss, 0) && anchor <= ip && Accepted(src, m, ip)
    requires code == Common(src, m + MIN_MATCH, ip + MIN_MATCH, |src| - LAST_LITERALS)
    ensures ip + MIN_MATCH + code + LAST_LITERALS <= |src| && 255 * |out| <= 256 * anchor
    ensures ss' == ss + [Sequence(src[anchor..ip], ip - m, code + MIN_MATCH)]
    ensures Standing(src, ss', m == ip, ip, ip + MIN_MATCH + code, out + SequenceBytes(src[anchor..ip], ip - m, code))
  {
    hide Valid, Expand, EncodeSequences, Common, SequenceBytes, Written, Wiped;
    ss' := ss + [Sequence(src[anchor..ip], ip - m, code + MIN_MATCH)];
    if m < ip {
      ExtendProgress(src, ss, anchor, out, m, ip, code);
    } else {
      assert ss'[|ss|].offset == 0;
      CommonWithItself(src, ip + MIN_MATCH, |src| - LAST_LITERALS);
      WriteZeros(src, ss, anchor, out, ip, code);
      SequenceCost(src[anchor..ip], 0, code);
    }
  }

  /** A sequence with offset 0 stands for zeros. */
  lemma WriteZeros(src: seq<byte>, ss: seq<Sequence>, anchor: nat, out: seq<byte>, ip: nat, code: nat)
    requires Written(src, ss, anchor, out) && anchor <= ip && ip + MIN_MATCH + code + LAST_LITERALS == |src|
    ensures var s, end := Sequence(src[anchor..ip], 0, code + MIN_MATCH), |src| - LAST_LITERALS;
            Written(Wiped(src, ip, end), ss + [s], end, out + SequenceBytes(src[anchor..ip], 0, code))
  {
    hide Valid, Expand, EncodeSequences, SequenceBytes, CopyMatch;
    var s, end := Sequence(src[anchor..ip], 0, code + MIN_MATCH), |src| - LAST_LITERALS;
    assert src[..anchor] + s.literals == src[..ip];
    AppendSequence(ss, s);
    ZerosAreCopyMatch(Wiped(src, ip, end)[..end], src[..ip], code + MIN_MATCH);
  }

  lemma {:induction false} CommonWithItself(src: seq<byte>, ip: nat, limit: nat)
    requires ip <= limit <= |src|
    ensures Common(src, ip, ip, limit) == limit - ip
    decreases limit - ip
  {
    if ip < limit { CommonWithItself(src, ip + 1, limit); }
  }

  /**
   `_next_match`: a match, and then again, with an empty run of literals, for as long as the next
   position matches at once.
   */
  method EncodeMatches(src: seq<byte>, dst: array<byte>, table: array<nat>, t: TableType, hash: nat -> nat,
                       ghost anchor0: nat, ip0: nat, m0: nat, tok0: nat, op0: nat, ghost ss0: seq<Sequence>,
                       ghost job: Job)
    returns (ip: nat, op: nat, more: bool, ghost ss: seq<Sequence>)
    requires dst as object != table && Fits(t, |src|) && HashInto(hash, table.Length)
    requires CompressBound(|src|) <= dst.Length && job == Job(src, t, hash, job.acceleration, None)
    requires Reaches(job, table.Length, Matching(table[..], anchor0, ip0, m0, ss0))
    requires op0 <= dst.Length && LiteralsWritten(src, ss0, anchor0, ip0, m0, tok0, dst[..op0])
    requires AllBefore(table, MatchEnd(src, m0, ip0) - 1)
    modifies dst, table
    ensures ip0 < ip && op <= dst.Length && Standing(src, ss, m0 == ip0, ip0, ip, dst[..op])
    ensures more ==> m0 < ip0 && ip + MF_LIMIT <= |src| && AllBefore(table, ip + 1)
    ensures Reaches(job, table.Length, if more then Searching(table[..], ip, ip + 1, ss) else Ended(ip, ss))
  {
    hide Progress, Standing, Common, Extension, Reaches, EncodeSequences, Behind, Accepted, LiteralPart,
      LiteralsWritten, MatchEnd, SoundFrom;
    ghost var anchor: nat := anchor0;
    var tok: nat, m: nat := tok0, m0;
    ip, op, ss := ip0, op0, ss0;
    LiteralsMean(src, ss, anchor, ip, m, tok, dst[..op]);
    while true
      invariant ip0 <= ip && op <= dst.Length && LiteralsWritten(src, ss, anchor, ip, m, tok, dst[..op])
      invariant anchor <= ip && Accepted(src, m, ip) && if m0 == ip0 then m == ip == ip0 else m < ip
      invariant AllBefore(table, MatchEnd(src, m, ip) - 1)
      invariant Reaches(job, table.Length, Matching(table[..], anchor, ip, m, ss))
      decreases |src| - ip
    {
      ghost var lost, from := m == ip, ip;
      GreedyMatch(job, table.Length, Matching(table[..], anchor, ip, m, ss));
      ip, op, ss := EncodeMatch(src, dst, anchor, ip, m, tok, op, ss);
      anchor := ip;
      StandingMeans(src, ss, lost, from, ip, dst[..op]);
      if ip > |src| - MF_LIMIT {
        BehindIs(job, table[..], ip, ss);
        return ip, op, false, ss;
      }
      var again;
      again, m := TestNext(src, table, t, hash, ip, job, ss);
      if !again {
        return ip, op, true, ss;
      }
      RoomForToken(src, ss, ip, dst[..op]);
      tok := op;
      ghost var out := dst[..op];
      op := EmitNoLiterals(dst, op, src, ip);
      TokenWritten(src, ss, ip, m, out, dst[..op]);
    }
  }

  lemma LiteralsMean(src: seq<byte>, ss: seq<Sequence>, anchor: nat, ip: nat, m: nat, tok: nat, out: seq<byte>)
    requires LiteralsWritten(src, ss, anchor, ip, m, tok, out)
    ensures anchor <= ip && m <= ip && Accepted(src, m, ip)
  {
    hide Progress, SoundFrom, LiteralPart;
  }

  lemma TokenWritten(src: seq<byte>, ss: seq<Sequence>, ip: nat, m: nat, before: seq<byte>, out: seq<byte>)
    requires Progress(src, ss, ip, before) && SoundFrom(ss, 0) && Accepted(src, m, ip) && |out| == |before| + 1
    requires out[..|before|] == before && out == out[..|before|] + LiteralPart(src[ip..ip], 0)
    ensures LiteralsWritten(src, ss, ip, ip, m, |before|, out)
  {
    hide Progress, SoundFrom, LiteralPart;
  }

  /** Without a limit to the output, a match is taken as far as it goes. */
  lemma GreedyMatch(job: Job, entries: nat, p: Point)
    requires p.Matching? && |p.table| == entries && HashInto(job.hash, entries) && job.room == None
    requires p.anchor <= p.ip && Accepted(job.src, p.m, p.ip) && Reaches(job, entries, p)
    ensures var end := MatchEnd(job.src, p.m, p.ip);
            Reaches(job, entries, Behind(job, p.table, end,
                                         p.ss + [Sequence(job.src[p.anchor..p.ip], p.ip - p.m, end - p.ip)]))
  {
    hide Common, Reaches, EncodeSequences;
    MatchGoesOn(job, entries, p, MatchEnd(job.src, p.m, p.ip) - p.ip - MIN_MATCH);
  }

  lemma StandingMeans(src: seq<byte>, ss: seq<Sequence>, lost: bool, from: nat, anchor: nat, out: seq<byte>)
    requires Standing(src, ss, lost, from, anchor, out)
    ensures lost ==> from <= anchor == |src| - LAST_LITERALS
    ensures if lost then !SoundFrom(ss, 0) else SoundFrom(ss, 0) && Progress(src, ss, anchor, out)
    ensures !lost ==> forall other: nat :: Standing(src, ss, lost, other, anchor, out)
  {
    hide Progress;
  }

  lemma RoomForToken(src: seq<byte>, ss: seq<Sequence>, anchor: nat, out: seq<byte>)
    requires Progress(src, ss, anchor, out) && |src| <= MAX_INPUT_SIZE && anchor + MF_LIMIT <= |src|
    ensures |out| < CompressBound(|src|)
  {
    RoomForMatch(|src|, anchor, |out|);
  }

  /** The source as one run of literals after what has been written: a finished block. */
  ghost function Finished(src: seq<byte>, ss: seq<Sequence>, anchor: nat): Block
    requires anchor <= |src|
  {
    Block(ss, src[anchor..], 0)
  }

  lemma FinishedBlock(src: seq<byte>, ss: seq<Sequence>, lost: bool, from: nat, anchor: nat, out: seq<byte>)
    requires Standing(src, ss, lost, from, anchor, out)
    ensures anchor <= |src| && (lost ==> from + LAST_LITERALS <= |src|)
    ensures var b := Finished(src, ss, anchor);
            && WellFormed(b) && ExpandBlock(b) == Kept(src, lost, from) && (Sound(b) <==> !lost)
            && EncodeBlock(b) == out + LiteralPart(src[anchor..], 0)
  {
    hide Valid, Expand, EncodeSequences, LiteralPart;
    var text := Kept(src, lost, from);
    assert text[anchor..] == src[anchor..];
    assert text == text[..anchor] + text[anchor..];
  }

  /** The search, the catch-up and the literals in front of a match. */
  method BeginSequence(src: seq<byte>, dst: array<byte>, table: array<nat>, t: TableType, hash: nat -> nat,
                       acceleration: nat, anchor: nat, ip0: nat, op0: nat, ghost ss: seq<Sequence>)
    returns (found: bool, ip: nat, m: nat, op: nat)
    requires dst as object != table && Fits(t, |src|) && MIN_LENGTH <= |src| && HashInto(hash, table.Length)
    requires CompressBound(|src|) <= dst.Length
    requires anchor < ip0 <= |src| && op0 <= dst.Length && Progress(src, ss, anchor, dst[..op0]) && SoundFrom(ss, 0)
    requires AllBefore(table, ip0)
    modifies dst, table
    ensures !found ==> dst[..op0] == old(dst[..op0])
    ensures found ==> op <= dst.Length && LiteralsWritten(src, ss, anchor, ip, m, op0, dst[..op])
    ensures found ==> AllBefore(table, MatchEnd(src, m, ip) - 1)
    ensures found && m == ip <==> MeetsItself(src, t, hash, old(table[..]), acceleration, ip0)
    ensures found && m == ip ==> ip == anchor
    ensures Follows(Job(src, t, hash, acceleration, None), Searching(old(table[..]), anchor, ip0, ss),
                    if found then Matching(table[..], anchor, ip, m, ss) else Ended(anchor, ss))
  {
    hide Common, Extension, LiteralPart, Written, MeetsItself, Follows, EncodeSequences, MatchEnd;
    ghost var job := Job(src, t, hash, acceleration, None);
    found, ip, m := Locate(src, table, t, hash, acceleration, anchor, ip0, job, ss);
    op := op0;
    if found {
      RoomForLiterals(|src|, anchor, ip - anchor, op);
      ghost var out := dst[..op];
      op := EmitLiterals(dst, op, src, anchor, ip - anchor);
      assert dst[..op][..op0] == out;
    }
  }

  /** A step of 0 and a source whose first three bytes differ: the very first search meets itself. */
  ghost predicate LostAtOnce(src: seq<byte>, acceleration: nat) {
    && acceleration % STEP_WRAP == 0
    && MIN_LENGTH < |src| && src[0] != src[1] && src[0] != src[2] && src[1] != src[2]
  }

  lemma FirstSearch(src: seq<byte>, t: TableType, hash: nat -> nat, table: seq<nat>, acceleration: nat)
    requires HashInto(hash, |table|) && (forall i :: 0 <= i < |table| ==> table[i] == 0)
    ensures LostAtOnce(src, acceleration) ==> MeetsItself(src, t, hash, table, acceleration, 1)
    ensures acceleration % STEP_WRAP != 0 ==> !MeetsItself(src, t, hash, table, acceleration, 1)
  {
    hide SameFour;
    if LostAtOnce(src, acceleration) {
      SameFirst(src, 0, 1);
      SameFirst(src, 0, 2);
      SameFirst(src, 1, 2);
    }
  }

  /** The main loop: everything up to the last literals. */
  method CompressSequences(src: seq<byte>, dst: array<byte>, table: array<nat>, t: TableType, hash: nat -> nat,
                           acceleration: nat)
    returns (anchor: nat, op: nat, ghost ss: seq<Sequence>, ghost lost: bool, ghost from: nat)
    requires dst as object != table && Fits(t, |src|) && MIN_LENGTH <= |src| && HashInto(hash, table.Length)
    requires CompressBound(|src|) <= dst.Length
    requires forall i :: 0 <= i < table.Length ==> table[i] == 0
    modifies dst, table
    ensures op <= dst.Length && Standing(src, ss, lost, from, anchor, dst[..op])
    ensures Reaches(Job(src, t, hash, acceleration, None), table.Length, Ended(anchor, ss))
    ensures lost ==> acceleration % STEP_WRAP == 0
    ensures LostAtOnce(src, acceleration) ==> lost && from == 0
  {
    hide Progress, Standing, Common, LiteralPart, MeetsItself, LostAtOnce, Reaches, Follows;
    ghost var job := Job(src, t, hash, acceleration, None);
    StartIsReached(job, table.Length);
    ss, op, anchor := [], 0, 0;
    assert dst[..0] == [];
    NothingWritten(src);
    PutPosition(table, hash(0), 0, t, |src|);
    assert table[..] == seq(table.Length, _ => 0);
    var ip: nat := 1;
    while true
      invariant Reaches(job, table.Length, Searching(table[..], anchor, ip, ss))
      invariant anchor < ip <= |src| && op <= dst.Length && Progress(src, ss, anchor, dst[..op]) && SoundFrom(ss, 0)
      invariant AllBefore(table, ip)
      invariant anchor == 0 ==> ip == 1 && forall i :: 0 <= i < table.Length ==> table[i] == 0
      invariant anchor > 0 ==> !LostAtOnce(src, acceleration)
      decreases |src| - anchor
    {
      if anchor == 0 {
        FirstSearch(src, t, hash, table[..], acceleration);
      } else if acceleration % STEP_WRAP != 0 {
        NeverItself(src, t, hash, table[..], acceleration, ip);
      }
      var found, m, tok, more := false, 0, op, false;
      ghost var p := Searching(table[..], anchor, ip, ss);
      found, ip, m, op := BeginSequence(src, dst, table, t, hash, acceleration, anchor, ip, op, ss);
      GoesOn(job, table.Length, p, if found then Matching(table[..], anchor, ip, m, ss) else Ended(anchor, ss));
      if !found {
        StillStanding(src, ss, anchor, dst[..tok]);
        return anchor, tok, ss, false, 0;
      }
      lost, from := m == ip, ip;
      anchor, op, more, ss := EncodeMatches(src, dst, table, t, hash, anchor, ip, m, tok, op, ss, job);
      if !more { return; }
      StandingMeans(src, ss, lost, from, anchor, dst[..op]);
      ip := anchor + 1;
    }
  }

  lemma StillStanding(src: seq<byte>, ss: seq<Sequence>, anchor: nat, out: seq<byte>)
    requires Progress(src, ss, anchor, out) && SoundFrom(ss, 0)
    ensures Standing(src, ss, false, 0, anchor, out)
  {
    hide Progress;
  }

  /**
   `LZ4_compress_generic`: a well-formed block, within the bound, that stands for the source. When a search has met
   itself at `from` (`lost`), which takes a step of 0, the block has an offset of 0 in it and stands for a source that
   is wiped out from there to the last five bytes.
   */
  method CompressGeneric(src: seq<byte>, dst: array<byte>, table: array<nat>, t: TableType, hash: nat -> nat,
                         acceleration: nat)
    returns (r: nat, ghost b: Block, ghost lost: bool, ghost from: nat)
    requires dst as object != table && HashInto(hash, table.Length)
    requires CompressBound(|src|) <= dst.Length
    requires forall i :: 0 <= i < table.Length ==> table[i] == 0
    modifies dst, table
    ensures lost ==> acceleration % STEP_WRAP == 0 && from + LAST_LITERALS <= |src|
    ensures !Fits(t, |src|) ==> r == 0
    ensures Fits(t, |src|) ==>
              && r <= CompressBound(|src|) && dst[..r] == EncodeBlock(b)
              && WellFormed(b) && ExpandBlock(b) == Kept(src, lost, from) && b.unread == 0
              && (Sound(b) <==> !lost)
              && |b.lastLiterals| <= |src|
              && Greedy(Job(src, t, hash, acceleration, None), table.Length, |src| - |b.lastLiterals|, b.sequences)
    ensures Fits(t, |src|) && LostAtOnce(src, acceleration) ==> lost && from == 0
  {
    hide Standing, EncodeBlock, ExpandBlock, WellFormed, LiteralPart, Extension, CompressBound, Valid, Kept, Progress,
      SoundFrom, Reaches;
    b, lost, from := Block([], [], 0), false, 0;
    if |src| > MAX_INPUT_SIZE { return 0, b, false, 0; }
    if t.ByU16? && |src| >= LIMIT_64K { return 0, b, false, 0; }
    var anchor, op := 0, 0;
    ghost var ss := [];
    NothingWritten(src);
    StillStanding(src, [], 0, []);
    assert dst[..0] == [];
    if |src| >= MIN_LENGTH {
      anchor, op, ss, lost, from := CompressSequences(src, dst, table, t, hash, acceleration);
    }
    FinishedBlock(src, ss, lost, from, anchor, dst[..op]);
    LastFits(src, ss, lost, from, anchor, dst[..op]);
    b := Finished(src, ss, anchor);
    assert src[anchor..] == src[anchor..anchor + (|src| - anchor)];
    r := EmitLast(dst, op, src, anchor, |src| - anchor);
  }

  lemma NothingWritten(src: seq<byte>)
    ensures Progress(src, [], 0, []) && SoundFrom([], 0)
  {
  }

  lemma LastFits(src: seq<byte>, ss: seq<Sequence>, lost: bool, from: nat, anchor: nat, out: seq<byte>)
    requires Standing(src, ss, lost, from, anchor, out) && |src| <= MAX_INPUT_SIZE
    ensures anchor <= |src|
    ensures |out| + 1 + |Extension(|src| - anchor)| + (|src| - anchor) <= CompressBound(|src|)
  {
    hide Extension, EncodeSequences, Valid, Expand;
    RoomForLast(|src|, anchor, |out|);
  }

  // ----- the entry points -----

  const TABLE_BYTES := 16384  // 1 << LZ4_MEMORY_USAGE

  /** The narrowest table width for an input, and how many such entries the state has room for. */
  function TableFor(size: nat): (t: TableType)
    ensures size <= MAX_INPUT_SIZE ==> Fits(t, size) && (t.ByU16? <==> Fits(ByU16, size))
  {
    if size < LIMIT_64K then ByU16 else ByU32
  }

  function Entries(t: TableType): (n: nat)
    ensures n * (match t case ByU16 => 2 case ByU32 => 4) == TABLE_BYTES
  {
    match t case ByU16 => 8192 case ByU32 => 4096
  }

  ghost function JobFor(src: seq<byte>, hash: nat -> nat, acceleration: nat, room: Option<nat>): Job {
    Job(src, TableFor(|src|), hash, acceleration, room)
  }

  /** The acceleration as it is used: anything below 1 means 1. */
  function Used(acceleration: int): (r: nat)
    ensures 1 <= r && acceleration <= r && (acceleration == r || r == 1)
  {
    if acceleration < 1 then 1 else acceleration
  }

  /**
   `LZ4_compress_fast` with room for the worst case: whatever the hash function, the result is a well-formed block that
   stands for the source, unless a search has met itself. That takes an acceleration that is a multiple of 2^26, and
   with such a one it happens to every source of at least 14 bytes whose first three bytes differ. The sequences are
   those of the greedy parse; a source of one byte is packed into about a 255th of it.
   */
  method CompressFast(src: seq<byte>, dst: array<byte>, hash: nat -> nat, acceleration: int)
    returns (r: nat, ghost b: Block, ghost lost: bool, ghost from: nat)
    requires HashInto(hash, Entries(TableFor(|src|))) && CompressBound(|src|) <= dst.Length
    modifies dst
    ensures lost ==> Used(acceleration) % STEP_WRAP == 0 && from + LAST_LITERALS <= |src|
    ensures |src| > MAX_INPUT_SIZE ==> r == 0
    ensures |src| <= MAX_INPUT_SIZE ==>
              && 0 < r <= CompressBound(|src|) && dst[..r] == EncodeBlock(b)
              && WellFormed(b) && ExpandBlock(b) == Kept(src, lost, from)
              && (ReferenceDecode(dst[..r]) == if lost then None else Some(src))
              && (!lost ==> Lz4Decoder.IsWellFormed(dst[..r]))
              && (src == [] ==> dst[..r] == [0])
              && |b.lastLiterals| <= |src|
              && Greedy(JobFor(src, hash, Used(acceleration), None), Entries(TableFor(|src|)),
                        |src| - |b.lastLiterals|, b.sequences)
    ensures |src| <= MAX_INPUT_SIZE && LostAtOnce(src, Used(acceleration)) ==> lost && from == 0
    ensures |src| <= MAX_INPUT_SIZE && OneByte(src) ==>
              b.sequences == [Sequence(src[..1], 1, |src| - 6)] && r == 10 + (|src| + 230) / 255
  {
    hide WellFormed, EncodeBlock, ExpandBlock, ReferenceDecode, Wiped, Sound, Greedy;
    var t := TableFor(|src|);
    var table := new nat[Entries(t)](_ => 0);
    r, b, lost, from := CompressGeneric(src, dst, table, t, hash, Used(acceleration));
    if |src| <= MAX_INPUT_SIZE {
      Lz4Decoder.WellFormedBytes(dst[..r], b);
      if OneByte(src) { OneByteBlock(JobFor(src, hash, Used(acceleration), None), Entries(t), b); }
    }
  }

  /** What a source of one byte is packed into. */
  lemma OneByteBlock(job: Job, entries: nat, b: Block)
    requires OneByte(job.src) && HashInto(job.hash, entries) && job.room.None? && |b.lastLiterals| <= |job.src|
    requires Greedy(job, entries, |job.src| - |b.lastLiterals|, b.sequences)
    ensures b.sequences == [Sequence(job.src[..1], 1, |job.src| - 6)]
    ensures |EncodeBlock(b)| == 10 + (|job.src| + 230) / 255
  {
    hide Greedy, LiteralPart, MatchPart;
    var s: Sequence := Sequence(job.src[..1], 1, |job.src| - 6);
    OneByteGreedy(job, entries);
    GreedyIsUnique(job, entries, |job.src| - 5, [s], |job.src| - |b.lastLiterals|, b.sequences);
    OneEncoded(s);
  }

  lemma OneEncoded(s: Sequence)
    ensures EncodeSequences([s]) == EncodeSequence(s)
  {
    assert [s][..0] == [] && [] + EncodeSequence(s) == EncodeSequence(s);
  }

  /**
   Compressing and decoding gives back as many bytes as the source has, and these are the source, for every
   acceleration that is not a multiple of 2^26. For the others, they are the source exactly when no search has met
   itself or what is then wiped out was zeros; sources of at least 14 bytes whose first three bytes differ never come
   back.
   */
  method RoundTrip(src: seq<byte>, packed: array<byte>, out: array<byte>, hash: nat -> nat, acceleration: int)
    returns (packedSize: nat, r: int, ghost lost: bool, ghost from: nat)
    requires packed != out && HashInto(hash, Entries(TableFor(|src|)))
    requires |src| <= MAX_INPUT_SIZE && CompressBound(|src|) <= packed.Length && |src| <= out.Length
    modifies packed, out
    ensures lost ==> Used(acceleration) % STEP_WRAP == 0 && from + LAST_LITERALS <= |src|
    ensures r == |src| && out[..r] == Kept(src, lost, from)
    ensures out[..r] == src <==> (lost ==> Zeros(src, from, |src| - LAST_LITERALS))
    ensures Used(acceleration) % STEP_WRAP != 0 ==> out[..r] == src
    ensures LostAtOnce(src, Used(acceleration)) ==> lost && from == 0 && out[..r] != src
  {
    hide ReferenceDecode, WellFormed, EncodeBlock, ExpandBlock, Lz4Decoder.IsWellFormed;
    ghost var b;
    packedSize, b, lost, from := CompressFast(src, packed, hash, acceleration);
    r := Lz4Decoder.DecompressSafe(packed[..packedSize], out, b);
    if lost { WipedIsSame(src, from, |src| - LAST_LITERALS); }
  }

  /** The bytes from `from` to `to` are zeros. */
  predicate Zeros(src: seq<byte>, from: nat, to: nat)
    requires to <= |src|
  {
    forall k :: from <= k < to ==> src[k] == 0
  }

  lemma WipedIsSame(src: seq<byte>, from: nat, to: nat)
    requires from <= to <= |src|
    ensures Wiped(src, from, to) == src <==> Zeros(src, from, to)
  {
    var w := Wiped(src, from, to);
    assert forall k :: 0 <= k < |src| ==> w[k] == if from <= k < to then 0 else src[k];
    if Zeros(src, from, to) {
      assert w == src;
    }
  }

  /** An input that is lost: with any hash and any multiple of 2^26, nine zeros and the last five bytes come back. */
  method AllDifferentIsLost(packed: array<byte>, out: array<byte>, hash: nat -> nat, acceleration: int) returns (r: int)
    requires packed != out && HashInto(hash, Entries(ByU16))
    requires CompressBound(|ALL_DIFFERENT|) <= packed.Length && |ALL_DIFFERENT| <= out.Length
    requires 1 <= acceleration && acceleration % STEP_WRAP == 0
    modifies packed, out
    ensures r == 14 && out[..r] == [0, 0, 0, 0, 0, 0, 0, 0, 0, 9, 10, 11, 12, 13]
  {
    var size;
    ghost var lost, from;
    size, r, lost, from := RoundTrip(ALL_DIFFERENT, packed, out, hash, acceleration);
    assert LostAtOnce(ALL_DIFFERENT, Used(acceleration));
    assert Wiped(ALL_DIFFERENT, 0, 9) == [0, 0, 0, 0, 0, 0, 0, 0, 0, 9, 10, 11, 12, 13];
  }
}
