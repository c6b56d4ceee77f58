/**
 `LZ4_decompress_safe`: the decoder with its 16/18-byte shortcut, its 8-byte copies that
 overshoot and its table-driven start for offsets below eight.
 */
module Lz4Decoder {
  import opened Types
  import opened Lz4Format

  // ----- memory operations -----

  /** `memcpy` from the input. */
  method CopyIn(dst: array<byte>, d: nat, src: seq<byte>, s: nat, n: nat)
    requires d + n <= dst.Length && s + n <= |src|
    modifies dst
    ensures forall k :: 0 <= k < dst.Length ==> dst[k] == if d <= k < d + n then src[s + k - d] else old(dst[k])
    ensures dst[..d] == old(dst[..d]) && dst[d..d + n] == src[s..s + n]
  {
    forall i | 0 <= i < n { dst[d + i] := src[s + i]; }
  }

  /** `memcpy` inside the output; the source may not overlap the destination. */
  method CopyBack(dst: array<byte>, d: nat, s: nat, n: nat)
    requires s + n <= d && d + n <= dst.Length
    modifies dst
    ensures forall k :: 0 <= k < dst.Length ==> dst[k] == old(if d <= k < d + n then dst[s + k - d] else dst[k])
  {
    forall i | 0 <= i < n { dst[d + i] := dst[s + i]; }
  }

  /** `LZ4_wildCopy` from the input: whole words, up to eight bytes past `e`. */
  method WildCopyIn(dst: array<byte>, d0: nat, src: seq<byte>, s0: nat, e: nat)
    requires d0 <= e && e + WILD_COPY_LENGTH <= dst.Length && s0 + (e - d0) + WILD_COPY_LENGTH <= |src|
    modifies dst
    ensures dst[..d0] == old(dst[..d0])
    ensures dst[d0..e] == src[s0..s0 + (e - d0)]
    ensures dst[e + WILD_COPY_LENGTH..] == old(dst[e + WILD_COPY_LENGTH..])
  {
    CopyIn(dst, d0, src, s0, 8);
    var d, s := d0 + 8, s0 + 8;
    while d < e
      invariant d0 + 8 <= d <= e + 8 && d - d0 == s - s0
      invariant forall k :: 0 <= k < dst.Length ==>
                              dst[k] == if d0 <= k < d then src[s0 + k - d0] else old(dst[k])
    {
      CopyIn(dst, d, src, s, 8);
      d, s := d + 8, s + 8;
    }
  }

  /** Copying from a whole number of periods back continues a repetition. */
  lemma ExtendRepeats(before: seq<byte>, after: seq<byte>, base: nat, d: nat, offset: nat, far: nat, n: nat)
    requires Repeats(before, base, d, offset) && base <= d
    requires |after| == |before| && d + n <= |before|
    requires 0 < far && Multiple(far, offset) && n <= far && base - offset <= d - far
    requires after[..d] == before[..d]
    requires forall k :: d <= k < d + n ==> after[k] == before[k - far]
    ensures Repeats(after, base, d + n, offset)
  {
    assert forall k :: 0 <= k < d ==> after[k] == after[..d][k] == before[..d][k] == before[k];
    forall k | base <= k < d + n ensures after[k] == after[k - offset] {
      if d <= k < d + offset {
        RepeatsMultiple(before, base, d, offset, k - far, k - offset);
      }
    }
  }

  /** `LZ4_wildCopy` inside the output, from a whole number of periods back. */
  method WildCopyBack(dst: array<byte>, d0: nat, s0: nat, e: nat, ghost base: nat, ghost offset: nat)
    requires base <= d0 < e && e + 7 <= dst.Length
    requires Repeats(dst[..], base, d0, offset)
    requires 8 <= d0 - s0 && Multiple(d0 - s0, offset) && base - offset <= s0
    modifies dst
    ensures dst[..d0] == old(dst[..d0])
    ensures Repeats(dst[..], base, e, offset)
  {
    var d, s := d0, s0;
    while d < e
      invariant d0 <= d <= e + 7 && d - s == d0 - s0 && s0 <= s
      invariant dst[..d0] == old(dst[..d0])
      invariant Repeats(dst[..], base, d, offset)
    {
      ghost var before := dst[..];
      CopyBack(dst, d, s, 8);
      assert dst[..d] == before[..d];
      ExtendRepeats(before, dst[..], base, d, offset, d - s, 8);
      assert dst[..d0] == before[..d0];
      d, s := d + 8, s + 8;
    }
  }

  // ----- copying a match -----

  const INC32 := [0, 1, 2, 1, 0, 4, 4, 4]
  const DEC64 := [0, 0, 0, -1, -4, 1, 2, 3]

  ghost predicate ZeroAt(text: seq<byte>, from: nat, to: nat) {
    to <= |text| && forall k :: from <= k < to ==> text[k] == 0
  }

  /** `LZ4_write32` of the offset at the place the match is about to overwrite. */
  method ScribbleOffset(dst: array<byte>, op: nat, offset: nat)
    requires op + 4 <= dst.Length && offset <= MAX_DISTANCE
    modifies dst
    ensures dst[..op] == old(dst[..op])
    ensures offset == 0 ==> ZeroAt(dst[..], op, op + 4)
  {
    dst[op], dst[op + 1], dst[op + 2], dst[op + 3] := offset % 256, offset / 256, 0, 0;
  }

  /** The tables step back by whole periods: at least four bytes first, at least eight afterwards. */
  lemma TablesAreMultiples(offset: nat)
    requires 1 <= offset < 8
    ensures Multiple(4 + offset - INC32[offset], offset)
    ensures Multiple(8 + offset - INC32[offset] + DEC64[offset], offset)
    ensures 4 <= 4 + offset - INC32[offset] && 8 <= 8 + offset - INC32[offset] + DEC64[offset] <= 8 + offset
  {
    assert Multiple(2 * offset, offset);
    assert Multiple(3 * offset, offset);
    if offset <= 2 {
      assert Multiple(4 * offset, offset);
      assert Multiple(5 * offset, offset);
      assert Multiple(6 * offset, offset);
      assert Multiple(7 * offset, offset);
      assert Multiple(8 * offset, offset);
    }
  }

  method FirstFourBytes(dst: array<byte>, op: nat, from: nat)
    requires from < op && op + 4 <= dst.Length
    modifies dst
    ensures dst[..op] == old(dst[..op])
    ensures Repeats(dst[..], op, op + 4, op - from)
  {
    dst[op] := dst[from];
    dst[op + 1] := dst[from + 1];
    dst[op + 2] := dst[from + 2];
    dst[op + 3] := dst[from + 3];
  }

  /**
   The first eight bytes of a match with an offset below eight. Four single bytes, then four more from
   further back; afterwards the source lies a whole number of periods, at least eight bytes, behind.
   */
  method StartSmallOffset(dst: array<byte>, op: nat, offset: nat) returns (from: nat)
    requires 1 <= offset < 8 && offset <= op && op + 8 <= dst.Length
    modifies dst
    ensures dst[..op] == old(dst[..op])
    ensures Repeats(dst[..], op, op + 8, offset)
    ensures 8 <= op + 8 - from && Multiple(op + 8 - from, offset) && op - offset <= from
  {
    hide Multiple;
    TablesAreMultiples(offset);
    from := op - offset;
    FirstFourBytes(dst, op, from);
    from := from + INC32[offset];
    ghost var before := dst[..];
    CopyBack(dst, op + 4, from, 4);
    assert dst[..op + 4] == before[..op + 4];
    ExtendRepeats(before, dst[..], op, op + 4, offset, op + 4 - from, 4);
    assert dst[..op] == before[..op];
    from := from - DEC64[offset];
  }

  /** The rest of a match that ends within twelve bytes of the end of the output. */
  method FinishNearEnd(dst: array<byte>, op0: nat, from0: nat, cpy: nat, ghost base: nat, ghost offset: nat)
    requires base <= op0 && 8 <= op0 - from0 && Multiple(op0 - from0, offset) && base - offset <= from0
    requires Repeats(dst[..], base, op0, offset) && cpy + LAST_LITERALS <= dst.Length
    modifies dst
    ensures dst[..op0] == old(dst[..op0])
    ensures Repeats(dst[..], base, cpy, offset)
  {
    var op, from := op0, from0;
    if op < dst.Length - (WILD_COPY_LENGTH - 1) {
      var oCopyLimit := dst.Length - (WILD_COPY_LENGTH - 1);
      WildCopyBack(dst, op, from, oCopyLimit, base, offset);
      from := from + (oCopyLimit - op);
      op := oCopyLimit;
    }
    while op < cpy
      invariant op0 <= op <= dst.Length && op - from == op0 - from0 && from0 <= from
      invariant dst[..op0] == old(dst[..op0])
      invariant Repeats(dst[..], base, op, offset)
    {
      ghost var before := dst[..];
      dst[op] := dst[from];
      assert dst[..op] == before[..op];
      ExtendRepeats(before, dst[..], base, op, offset, op - from, 1);
      assert dst[..op0] == before[..op0];
      op, from := op + 1, from + 1;
    }
  }

  /** The rest of a match with room to overshoot. */
  method FinishFast(dst: array<byte>, op0: nat, from0: nat, cpy: nat, length: nat, ghost base: nat, ghost offset: nat)
    requires base <= op0 == cpy - length + 8
    requires 8 <= op0 - from0 && Multiple(op0 - from0, offset) && base - offset <= from0
    requires Repeats(dst[..], base, op0, offset) && op0 + MIN_MATCH <= cpy + 8 && cpy + MF_LIMIT <= dst.Length
    modifies dst
    ensures dst[..op0] == old(dst[..op0])
    ensures Repeats(dst[..], base, cpy, offset)
  {
    ghost var before := dst[..];
    CopyBack(dst, op0, from0, 8);
    assert dst[..op0] == before[..op0];
    ExtendRepeats(before, dst[..], base, op0, offset, op0 - from0, 8);
    if length > 16 {
      ghost var middle := dst[..op0 + 8];
      WildCopyBack(dst, op0 + 8, from0 + 8, cpy, base, offset);
      assert dst[..op0] == dst[..op0 + 8][..op0] == middle[..op0];
    }
  }

  /** Zeros go on as a repetition with period 1 goes on. */
  lemma {:induction false} ZerosGoOn(text: seq<byte>, from: nat, end: nat)
    requires ZeroAt(text, from, from + 1) && end <= |text| && Repeats(text, from + 1, end, 1)
    ensures ZeroAt(text, from, end)
    decreases end
  {
    if end > from + 1 {
      ZerosGoOn(text, from, end - 1);
      assert text[end - 1] == text[end - 1 - 1];
    }
  }

  /** With an offset of 0 the match starts on the four zeros that have just been written, and copies these. */
  method StartZeros(dst: array<byte>, op: nat) returns (from: nat)
    requires op + 8 <= dst.Length && ZeroAt(dst[..], op, op + 4)
    modifies dst
    ensures dst[..op] == old(dst[..op])
    ensures ZeroAt(dst[..], op, op + 8) && from == op
  {
    from := op - 0;
    dst[op] := dst[from];
    dst[op + 1] := dst[from + 1];
    dst[op + 2] := dst[from + 2];
    dst[op + 3] := dst[from + 3];
    from := from + INC32[0];
    CopyBack(dst, op + 4, from, 4);
    from := from - DEC64[0];
  }

  lemma OnesAreMultiples()
    ensures Multiple(8, 1)
  {
    assert Multiple(4, 1);
  }

  /**
   The first eight bytes of any match. What follows repeats with period `period` from `base` on: the offset from the
   start, or, for an offset of 0, one zero after the other.
   */
  method StartMatch(dst: array<byte>, op: nat, offset: nat) returns (from: nat, ghost base: nat, ghost period: nat)
    requires offset <= op && op + 8 <= dst.Length && (offset == 0 ==> ZeroAt(dst[..], op, op + 4))
    modifies dst
    ensures dst[..op] == old(dst[..op])
    ensures if offset == 0 then base == op + 1 && period == 1 && ZeroAt(dst[..], op, op + 1)
            else base == op && period == offset
    ensures Repeats(dst[..], base, op + 8, period)
    ensures 8 <= op + 8 - from && Multiple(op + 8 - from, period) && base - period <= from
  {
    base, period := op, offset;
    if offset == 0 {
      from := StartZeros(dst, op);
      base, period := op + 1, 1;
      OnesAreMultiples();
    } else if offset < 8 {
      from := StartSmallOffset(dst, op, offset);
    } else {
      ghost var before := dst[..];
      CopyBack(dst, op, op - offset, 8);
      assert Multiple(offset, offset) && dst[..op] == before[..op];
      ExtendRepeats(before, dst[..], op, op, offset, offset, 8);
      from := op - offset + 8;
    }
  }

  /** Copies a match: the bytes up to `op + length` are those of the one-byte-at-a-time copy. */
  method CopyMatchInto(dst: array<byte>, op: nat, offset: nat, length: nat)
    requires offset <= op && MIN_MATCH <= length && (offset == 0 ==> ZeroAt(dst[..], op, op + 4))
    requires op + MF_LIMIT <= dst.Length && op + length + LAST_LITERALS <= dst.Length
    modifies dst
    ensures dst[..op + length] == CopyMatch(old(dst[..op]), offset, length)
  {
    hide Multiple, CopyMatch;
    var cpy := op + length;
    ghost var text := dst[..op];
    var from;
    ghost var base, period;
    from, base, period := StartMatch(dst, op, offset);
    ghost var first := dst[..op + 8];
    assert first[..op] == text;
    if cpy > dst.Length - MF_LIMIT {
      FinishNearEnd(dst, op + 8, from, cpy, base, period);
    } else {
      FinishFast(dst, op + 8, from, cpy, length, base, period);
    }
    assert dst[..cpy][..op] == dst[..op + 8][..op] == text;
    IsTheCopy(dst[..cpy], dst[..], first, text, offset, length);
  }

  lemma IsTheCopy(r: seq<byte>, all: seq<byte>, first: seq<byte>, text: seq<byte>, offset: nat, length: nat)
    requires |r| == |text| + length <= |all| && r == all[..|r|] && text <= r && offset <= |text| && MIN_MATCH <= length
    requires |first| == |text| + 8 <= |all| && first == all[..|first|]
    requires if offset == 0 then ZeroAt(first, |text|, |text| + 1) && Repeats(all, |text| + 1, |r|, 1)
             else Repeats(all, |text|, |r|, offset)
    ensures r == CopyMatch(text, offset, length)
  {
    hide CopyMatch;
    if offset == 0 {
      assert all[|text|] == first[|text|] == 0;
      ZerosGoOn(all, |text|, |r|);
      ZerosAreCopyMatch(r, text, length);
    } else {
      RepeatsIsCopyMatch(r, text, offset, length);
    }
  }

  /** The shortcut: 16 bytes of literals and 18 of match, whatever the lengths, then back up. */
  method ShortcutCopy(dst: array<byte>, op: nat, src: seq<byte>, ip: nat, ll: nat, offset: nat, ml: nat)
    requires ll <= 14 && ml <= 18 <= offset <= op + ll
    requires ip + 16 <= |src| && op + 14 + 18 <= dst.Length
    modifies dst
    ensures dst[..op + ll + ml] == CopyMatch(old(dst[..op]) + src[ip..ip + ll], offset, ml)
  {
    ghost var text := dst[..op] + src[ip..ip + ll];
    CopyIn(dst, op, src, ip, 16);
    assert dst[..op + ll] == text;
    CopyBack(dst, op + ll, op + ll - offset, 18);
    ghost var r := dst[..op + ll + ml];
    assert r[..op + ll] == text;
    RepeatsIsCopyMatch(r, text, offset, ml);
  }

  // ----- reading lengths -----

  /** The literal-length loop; its extra stop fifteen bytes before the end never comes too early. */
  method ReadLiteralLength(src: seq<byte>, ip0: nat, ghost n: nat) returns (length: nat, ip: nat)
    requires At(src, ip0, LengthBytes(n)) && ip0 + |LengthBytes(n)| + n + RUN_MASK <= |src|
    ensures length == RUN_MASK + n && ip == ip0 + |LengthBytes(n)|
  {
    ghost var m := n;
    var s := src[ip0];
    assert src[ip0] == LengthBytes(n)[0];
    ip, length := ip0 + 1, RUN_MASK + s;
    if s == 255 { AtParts(src, ip0, [255], LengthBytes(n - 255)); m := n - 255; }
    while ip < |src| - RUN_MASK && s == 255
      invariant 0 <= m <= n && ip0 < ip <= |src|
      invariant s != 255 ==> length == RUN_MASK + n && ip == ip0 + |LengthBytes(n)|
      invariant s == 255 ==> m + 255 <= n && length + m == RUN_MASK + n && At(src, ip, LengthBytes(m))
                             && ip + |LengthBytes(m)| == ip0 + |LengthBytes(n)|
      decreases |src| - ip
    {
      s := src[ip];
      assert src[ip] == LengthBytes(m)[0];
      if s == 255 { AtParts(src, ip, [255], LengthBytes(m - 255)); m := m - 255; }
      ip, length := ip + 1, length + s;
    }
  }

  /** The match-length loop; None when it runs into the last literals. */
  method ReadMatchLength(src: seq<byte>, ip0: nat, ghost n: nat) returns (length: Option<nat>, ip: nat)
    requires At(src, ip0, LengthBytes(n)) && ip0 + |LengthBytes(n)| + LAST_LITERALS <= |src|
    ensures length == Some(ML_MASK + n) && ip == ip0 + |LengthBytes(n)|
  {
    ghost var m := n;
    ip := ip0;
    var total, s := ML_MASK, 255;
    while s == 255
      invariant 0 <= m <= n && ip0 <= ip
      invariant s == 255 ==> At(src, ip, LengthBytes(m)) && total + m == ML_MASK + n
                             && ip + |LengthBytes(m)| == ip0 + |LengthBytes(n)|
      invariant s != 255 ==> total == ML_MASK + n && ip == ip0 + |LengthBytes(n)|
      decreases |src| - ip
    {
      assert src[ip] == LengthBytes(m)[0];
      s := src[ip];
      ip := ip + 1;
      if ip > |src| - LAST_LITERALS {
        assert false;
        return None, ip;
      }
      total := total + s;
      if s == 255 {
        AtParts(src, ip - 1, [255], LengthBytes(m - 255));
        m := m - 255;
      }
    }
    length := Some(total);
  }

  // ----- the decoder -----

  /** Everything the decoder meets while it works on sequence number `k`. */
  lemma SequenceFacts(b: Block, k: nat)
    requires WellFormed(b) && k < |b.sequences|
    ensures Valid(b.sequences[..k]) && Valid(b.sequences[..k + 1])
    ensures var src, s := EncodeBlock(b), b.sequences[k];
            var ip := |EncodeSequences(b.sequences[..k])|;
            var n, code := |s.literals|, s.matchLength - MIN_MATCH;
            var at := ip + 1 + |Extension(n)|;
            && at + n + 2 + |Extension(code)| == |EncodeSequences(b.sequences[..k + 1])|
            && at + n + 2 + |Extension(code)| + 1 + LAST_LITERALS <= |src|
            && src[ip] / 16 == Nibble(n) && src[ip] % 16 == Nibble(code)
            && At(src, ip + 1, Extension(n)) && At(src, at, s.literals)
            && src[at + n] as int + 256 * (src[at + n + 1] as int) == s.offset
            && At(src, at + n + 2, Extension(code))
  {
    hide Extension, Nibble, Valid, Expand, LiteralPart, MatchPart, EncodeSequences, EncodeBlock, At;
    var src, s := EncodeBlock(b), b.sequences[k];
    var ip := |EncodeSequences(b.sequences[..k])|;
    var code := s.matchLength - MIN_MATCH;
    SequenceText(b.sequences, k);
    TwoParts(b, k);
    LiteralsAt(src, ip, s.literals, Nibble(code));
    MatchAt(src, ip + 1 + |Extension(|s.literals|)| + |s.literals|, s.offset, code);
  }

  /** The two parts of sequence `k`, and where the next one starts. */
  lemma TwoParts(b: Block, k: nat)
    requires Valid(b.sequences) && k < |b.sequences|
    ensures var src, s := EncodeBlock(b), b.sequences[k];
            var ip, code := |EncodeSequences(b.sequences[..k])|, s.matchLength - MIN_MATCH;
            var at := ip + 1 + |Extension(|s.literals|)| + |s.literals|;
            && At(src, ip, LiteralPart(s.literals, Nibble(code))) && At(src, at, MatchPart(s.offset, code))
            && at + 2 + |Extension(code)| == |EncodeSequences(b.sequences[..k + 1])|
            && at + 2 + |Extension(code)| + 1 + |b.lastLiterals| <= |src|
  {
    hide Extension, Nibble, Valid, LiteralPart, MatchPart, EncodeSequences, EncodeBlock, At;
    var s := b.sequences[k];
    var code := s.matchLength - MIN_MATCH;
    SequenceAt(b, k);
    AtParts(EncodeBlock(b), |EncodeSequences(b.sequences[..k])|, LiteralPart(s.literals, Nibble(code)),
            MatchPart(s.offset, code));
  }

  /** The output positions of sequence number `k` respect the end-of-block restrictions. */
  lemma SequenceRoom(b: Block, k: nat)
    requires WellFormed(b) && k < |b.sequences|
    ensures Valid(b.sequences[..k]) && Valid(b.sequences[..k + 1])
    ensures var s, op := b.sequences[k], |Expand(b.sequences[..k])|;
            && s.offset <= op + |s.literals|
            && op + |s.literals| + MF_LIMIT <= |ExpandBlock(b)|
            && op + |s.literals| + s.matchLength + LAST_LITERALS <= |ExpandBlock(b)|
            && Expand(b.sequences[..k + 1]) == CopyMatch(Expand(b.sequences[..k]) + s.literals, s.offset, s.matchLength)
  {
    hide Valid, Expand, CopyMatch, WellFormed, ExpandBlock;
    WellFormedMeans(b);
    SequenceText(b.sequences, k);
    LastRoom(b);
    Shorter(b.sequences, k + 1, |b.sequences|);
    assert b.sequences[..|b.sequences|] == b.sequences;
    if k < |b.sequences| - 1 { Shorter(b.sequences, k + 1, |b.sequences| - 1); }
  }

  lemma Shorter(ss: seq<Sequence>, i: nat, j: nat)
    requires Valid(ss) && i <= j <= |ss|
    ensures Valid(ss[..i]) && Valid(ss[..j]) && |Expand(ss[..i])| <= |Expand(ss[..j])|
  {
    hide Valid, Expand;
    ValidPrefix(ss, j);
    ValidPrefix(ss[..j], i);
    assert ss[..j][..i] == ss[..i];
  }

  /** Behind the last sequence, and in front of its match. */
  lemma LastRoom(b: Block)
    requires WellFormed(b) && b.sequences != []
    ensures var last := |b.sequences| - 1;
            && Valid(b.sequences[..last])
            && |Expand(b.sequences[..last])| + |b.sequences[last].literals| + MF_LIMIT <= |ExpandBlock(b)|
            && |Expand(b.sequences)| + LAST_LITERALS <= |ExpandBlock(b)|
  {
    hide Valid, Expand, CopyMatch;
    var last := |b.sequences| - 1;
    SequenceText(b.sequences, last);
    assert b.sequences[..last + 1] == b.sequences;
  }
  /** What the decoder meets after the last match. */
  lemma LastFacts(b: Block)
    requires Valid(b.sequences)
    ensures var src, n := EncodeBlock(b), |b.lastLiterals|;
            var ip := |EncodeSequences(b.sequences)|;
            var at := ip + 1 + |Extension(n)|;
            && at + n == |src|
            && src[ip] / 16 == Nibble(n)
            && At(src, ip + 1, Extension(n)) && At(src, at, b.lastLiterals)
  {
    hide Extension, Nibble, LiteralPart, EncodeSequences;
    LiteralsAt(EncodeBlock(b), |EncodeSequences(b.sequences)|, b.lastLiterals, b.unread);
  }

  /** The literal run in front of the decoder: its length and where its bytes start. */
  method LiteralRun(src: seq<byte>, ip0: nat, token: byte, ghost n: nat) returns (length: nat, ip: nat)
    requires token / 16 == Nibble(n) && At(src, ip0, Extension(n)) && ip0 + |Extension(n)| + n <= |src|
    ensures length == n && ip == ip0 + |Extension(n)|
  {
    length, ip := token / 16, ip0;
    if length == RUN_MASK {
      length, ip := ReadLiteralLength(src, ip, n - RUN_MASK);
    }
  }

  method MatchRun(src: seq<byte>, ip0: nat, token: byte, ghost n: nat) returns (length: Option<nat>, ip: nat)
    requires token % 16 == Nibble(n) && At(src, ip0, Extension(n)) && ip0 + |Extension(n)| + LAST_LITERALS <= |src|
    ensures length == Some(n + MIN_MATCH) && ip == ip0 + |Extension(n)|
  {
    var low := token % 16;
    length, ip := Some(low + MIN_MATCH), ip0;
    if low == ML_MASK {
      length, ip := ReadMatchLength(src, ip, n - ML_MASK);
      if length.Some? { length := Some(length.value + MIN_MATCH); }
    }
  }

  /**
   One sequence without the shortcut: the literals with an overshooting copy, then the match.
   */
  method DecodeSequence(src: seq<byte>, dst: array<byte>, ip0: nat, op0: nat, token: byte, length0: nat,
                        ghost s: Sequence)
    returns (ok: bool, ip: nat, op: nat)
    requires length0 == |s.literals| && At(src, ip0, s.literals) && s.offset <= op0 + length0
    requires ip0 + length0 + 2 + |Extension(s.matchLength - MIN_MATCH)| + 1 + LAST_LITERALS <= |src|
    requires src[ip0 + length0] as int + 256 * (src[ip0 + length0 + 1] as int) == s.offset
    requires token % 16 == Nibble(s.matchLength - MIN_MATCH)
    requires At(src, ip0 + length0 + 2, Extension(s.matchLength - MIN_MATCH))
    requires op0 + length0 + MF_LIMIT <= dst.Length && op0 + length0 + s.matchLength + LAST_LITERALS <= dst.Length
    modifies dst
    ensures ok && op == op0 + length0 + s.matchLength
    ensures ip == ip0 + length0 + 2 + |Extension(s.matchLength - MIN_MATCH)|
    ensures dst[..op] == CopyMatch(old(dst[..op0]) + s.literals, s.offset, s.matchLength)
  {
    hide Extension, Nibble, CopyMatch;
    ghost var text := dst[..op0] + s.literals;
    var cpy := op0 + length0;
    WildCopyIn(dst, op0, src, ip0, cpy);
    assert dst[..cpy] == dst[..op0] + dst[op0..cpy] == text;
    ip, op := ip0 + length0, cpy;
    var offset: nat := src[ip] as int + 256 * (src[ip + 1] as int);
    ip := ip + 2;
    if op < offset {
      assert false;
      return false, ip, op;
    }
    ScribbleOffset(dst, op, offset);
    var length;
    length, ip := MatchRun(src, ip, token, s.matchLength - MIN_MATCH);
    if length.None? || op + length.value > dst.Length - LAST_LITERALS {
      assert false;
      return false, ip, op;
    }
    CopyMatchInto(dst, op, offset, length.value);
    op, ok := op + length.value, true;
  }

  /** Little-endian `LZ4_readLE16`. */
  function Read16(src: seq<byte>, i: nat): nat
    requires i + 1 < |src|
  {
    src[i] as int + 256 * (src[i + 1] as int)
  }

  /** The decoder stands in front of sequence `k`; everything before it has been written. */
  ghost predicate InFrontOf(b: Block, k: nat, ip: nat, out: seq<byte>) {
    && WellFormed(b)
    && k <= |b.sequences|
    && Valid(b.sequences[..k])
    && ip == |EncodeSequences(b.sequences[..k])| < |EncodeBlock(b)|
    && out == Expand(b.sequences[..k])
  }

  /** A token with two short lengths and sixteen bytes after it belongs to a sequence with a match. */
  lemma ShortSequence(b: Block, k: nat, ip: nat, out: seq<byte>)
    requires InFrontOf(b, k, ip, out)
    requires ip + 1 + 14 + 2 <= |EncodeBlock(b)|
    requires EncodeBlock(b)[ip] < 15 * 16 && EncodeBlock(b)[ip] % 16 != ML_MASK
    ensures k < |b.sequences| && Valid(b.sequences[..k + 1])
    ensures var src, s, ll := EncodeBlock(b), b.sequences[k], EncodeBlock(b)[ip] / 16;
            && s == Sequence(src[ip + 1..ip + 1 + ll], Read16(src, ip + 1 + ll), src[ip] % 16 + MIN_MATCH)
            && ip + 1 + ll + 2 == |EncodeSequences(b.sequences[..k + 1])| < |src|
            && s.offset <= |out| + ll
            && Expand(b.sequences[..k + 1]) == CopyMatch(out + s.literals, s.offset, s.matchLength)
  {
    hide Extension, Nibble, CopyMatch, Valid, Expand, EncodeBlock, EncodeSequences, WellFormed;
    WellFormedMeans(b);
    if k == |b.sequences| {
      assert b.sequences[..k] == b.sequences;
      LastFacts(b);
      ShortLength(|b.lastLiterals|);
      assert false;
    }
    SequenceFacts(b, k);
    SequenceRoom(b, k);
    ShortLength(|b.sequences[k].literals|);
    ShortLength(b.sequences[k].matchLength - MIN_MATCH);
  }

  /** The shortcut is only taken in front of a match, and then does the whole sequence. */
  method TryShortcut(src: seq<byte>, dst: array<byte>, ip0: nat, op0: nat, ghost b: Block, ghost k: nat)
    returns (taken: bool, ip: nat, op: nat)
    requires src == EncodeBlock(b) && op0 <= dst.Length && InFrontOf(b, k, ip0, dst[..op0])
    modifies dst
    ensures !taken ==> ip == ip0 + 1 && op == op0 && dst[..] == old(dst[..])
    ensures taken ==> k < |b.sequences| && op <= dst.Length && InFrontOf(b, k + 1, ip, dst[..op])
  {
    hide CopyMatch, Valid, Expand, EncodeBlock, EncodeSequences;
    var token := src[ip0];
    taken, ip, op := false, ip0 + 1, op0;
    if ip + 14 + 2 <= |src| && op + 14 + 18 <= dst.Length && token < 15 * 16 && token % 16 != ML_MASK {
      ShortSequence(b, k, ip0, dst[..op]);
      var ll := token / 16;
      var offset := Read16(src, ip + ll);
      if offset >= 18 && op + ll >= offset {
        var ml := token % 16 + MIN_MATCH;
        ShortcutCopy(dst, op, src, ip, ll, offset, ml);
        taken, op, ip := true, op + ll + ml, ip + ll + 2;
      }
    }
  }

  /** The `memcpy` of the last literals. */
  method CopyLast(dst: array<byte>, op: nat, src: seq<byte>, ip: nat, length: nat, ghost literals: seq<byte>)
    requires At(src, ip, literals) && length == |literals| && op + length <= dst.Length
    modifies dst
    ensures dst[..op + length] == old(dst[..op]) + literals
  {
    CopyIn(dst, op, src, ip, length);
  }

  /** The main loop of `LZ4_decompress_generic` over the encoding of a well-formed block. */
  method DecodeBlock(src: seq<byte>, dst: array<byte>, ghost b: Block) returns (r: int)
    requires WellFormed(b) && src == EncodeBlock(b)
    requires 0 < dst.Length && |ExpandBlock(b)| <= dst.Length
    modifies dst
    ensures r == |ExpandBlock(b)|
    ensures dst[..r] == ExpandBlock(b)
  {
    hide Extension, Nibble, CopyMatch, Valid, Expand, EncodeBlock, EncodeSequences, At, WellFormed;
    ghost var k: nat := 0;
    var ip: nat, op: nat := 0, 0;
    StartFacts(b);
    WellFormedMeans(b);
    while true
      invariant op <= dst.Length && InFrontOf(b, k, ip, dst[..op])
      decreases |b.sequences| - k
    {
      var token := src[ip];
      var taken;
      taken, ip, op := TryShortcut(src, dst, ip, op, b, k);
      if taken {
        k := k + 1;
        continue;
      }
      if k < |b.sequences| {
        SequenceFacts(b, k);
        SequenceRoom(b, k);
      } else {
        assert b.sequences[..k] == b.sequences;
        LastFacts(b);
      }
      ghost var n := if k < |b.sequences| then |b.sequences[k].literals| else |b.lastLiterals|;
      var length;
      length, ip := LiteralRun(src, ip, token, n);
      var stop: int := ip;
      if op + length > dst.Length - MF_LIMIT || ip + length > |src| - (2 + 1 + LAST_LITERALS) {
        if ip + length != |src| || op + length > dst.Length {
          assert false;
          return -stop - 1;
        }
        CopyLast(dst, op, src, ip, length, b.lastLiterals);
        return op + length;
      }
      var ok;
      ok, ip, op := DecodeSequence(src, dst, ip, op, token, length, b.sequences[k]);
      if !ok {
        assert false;
        return -stop - 1;
      }
      k := k + 1;
    }
  }

  lemma StartFacts(b: Block)
    requires WellFormed(b)
    ensures InFrontOf(b, 0, 0, [])
  {
    assert b.sequences[..0] == [];
  }

  lemma WellFormedMeans(b: Block)
    requires WellFormed(b)
    ensures Valid(b.sequences)
  {
    hide Valid;
  }

  lemma ShortLength(n: nat)
    ensures Nibble(n) < 15 ==> Nibble(n) == n && Extension(n) == []
  {
  }

  /** The bytes are the encoding of a block that keeps the end-of-block restrictions. */
  ghost predicate IsWellFormed(src: seq<byte>) {
    exists b: Block :: WellFormed(b) && Sound(b) && EncodeBlock(b) == src
  }

  /** Such bytes are never empty, and a lone byte means the empty text. */
  lemma WellFormedBytes(src: seq<byte>, b: Block)
    requires WellFormed(b) && EncodeBlock(b) == src
    ensures |src| > 0 && ReferenceDecode(src) == if Sound(b) then Some(ExpandBlock(b)) else None
    ensures ExpandBlock(b) == [] ==> src == [b.unread]
  {
    ReferenceDecodesEncoding(b);
  }

  /**
   `LZ4_decompress_safe`. On every block that keeps the end-of-block restrictions, and with room for its text, it
   writes exactly that text and returns its length. For a block of the format this is what the byte-at-a-time decoder
   produces; for one with an offset of 0, which that decoder rejects, it has zeros for the match. The one case it turns
   down is an output of size zero for a last token other than 0.
   */
  method DecompressSafe(src: seq<byte>, dst: array<byte>, ghost b: Block) returns (r: int)
    requires WellFormed(b) && EncodeBlock(b) == src && |ExpandBlock(b)| <= dst.Length
    modifies dst
    ensures dst.Length == 0 && src != [0] ==> r == -1
    ensures dst.Length > 0 || src == [0] ==>
              && 0 <= r <= dst.Length && dst[..r] == ExpandBlock(b)
              && (ReferenceDecode(src) == if Sound(b) then Some(dst[..r]) else None)
  {
    hide ExpandBlock, EncodeBlock, WellFormed, ReferenceDecode;
    WellFormedBytes(src, b);
    if dst.Length == 0 {
      return if |src| == 1 && src[0] == 0 then 0 else -1;
    }
    r := DecodeBlock(src, dst, b);
  }
}
