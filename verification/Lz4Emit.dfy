/** How both compressors write a sequence: token, lengths, literals by wild copy, offset. */
module Lz4Emit {
  import opened Types
  import opened Lz4Format
  import Lz4Decoder

  /** The bytes that continue a length, as the two loops that write them see it. */
  lemma {:induction false} LengthBytesShape(n: nat)
    ensures var r := LengthBytes(n);
            r[n / 255] == n % 255 && forall i :: 0 <= i < n / 255 ==> r[i] == 255
    decreases n
  {
    if n >= 255 {
      LengthBytesShape(n - 255);
      assert n / 255 == (n - 255) / 255 + 1;
    }
  }

  /** The rest of a length: bytes of 255 for as long as 255 or more is left, then what is left. */
  method EmitLength(dst: array<byte>, op0: nat, n: nat) returns (op: nat)
    requires op0 + |LengthBytes(n)| <= dst.Length
    modifies dst
    ensures op == op0 + |LengthBytes(n)|
    ensures dst[..op] == old(dst[..op0]) + LengthBytes(n)
  {
    ghost var all := LengthBytes(n);
    var len: nat := n;
    op := op0;
    assert dst[..op0] + all == dst[..op] + LengthBytes(len);
    while len >= 255
      invariant op0 <= op && len <= n && op + |LengthBytes(len)| == op0 + |all|
      invariant dst[..op] + LengthBytes(len) == old(dst[..op0]) + all
    {
      ghost var before := dst[..op];
      dst[op] := 255;
      assert dst[..op + 1] == before + [255];
      assert before + ([255] + LengthBytes(len - 255)) == (before + [255]) + LengthBytes(len - 255);
      op, len := op + 1, len - 255;
    }
    ghost var before := dst[..op];
    dst[op] := len;
    op := op + 1;
    assert dst[..op] == before + [len];
  }

  /** The match-length loop of `LZ4_compress_generic`, which writes four bytes of 255 at a time, ahead of `op`. */
  method EmitLengthByFour(dst: array<byte>, op0: nat, n: nat) returns (op: nat)
    requires op0 + |LengthBytes(n)| + 3 <= dst.Length
    modifies dst
    ensures op == op0 + |LengthBytes(n)|
    ensures dst[..op] == old(dst[..op0]) + LengthBytes(n)
  {
    ghost var first := dst[..op0];
    var code := n;
    op := op0;
    Write32Ones(dst, op);
    while code >= 4 * 255
      invariant op0 <= op && code <= n && op + code / 255 == op0 + n / 255 && code % 255 == n % 255
      invariant op + 4 <= dst.Length && dst[..op0] == first
      invariant forall i :: op0 <= i < op + 4 ==> dst[i] == 255
    {
      op := op + 4;
      Write32Ones(dst, op);
      code := code - 4 * 255;
    }
    op := op + code / 255;
    dst[op] := code % 255;
    op := op + 1;
    LengthBytesShape(n);
    assert dst[..op] == first + LengthBytes(n);
  }

  method Write32Ones(dst: array<byte>, op: nat)
    requires op + 4 <= dst.Length
    modifies dst
    ensures forall i :: 0 <= i < dst.Length ==> dst[i] == if op <= i < op + 4 then 255 else old(dst[i])
  {
    dst[op], dst[op + 1], dst[op + 2], dst[op + 3] := 255, 255, 255, 255;
  }

  /** Token and literal length in front of a run of `n` literals. */
  method EmitRun(dst: array<byte>, op0: nat, n: nat) returns (op: nat)
    requires op0 + 1 + |Extension(n)| <= dst.Length
    modifies dst
    ensures op == op0 + 1 + |Extension(n)|
    ensures dst[..op] == old(dst[..op0]) + ([Nibble(n) * 16] + Extension(n))
  {
    ghost var first := dst[..op0];
    op := op0 + 1;
    if n >= RUN_MASK {
      dst[op0] := RUN_MASK * 16;
      assert dst[..op] == first + [RUN_MASK * 16];
      op := EmitLength(dst, op, n - RUN_MASK);
    } else {
      dst[op0] := n * 16;
    }
    assert dst[..op] == first + ([Nibble(n) * 16] + Extension(n));
  }

  lemma LiteralsJoin(first: seq<byte>, literals: seq<byte>)
    ensures first + LiteralPart(literals, 0) == (first + ([Nibble(|literals|) * 16] + Extension(|literals|))) + literals
  {
    var head: seq<byte> := [Nibble(|literals|) * 16];
    Associative(head, Extension(|literals|), literals);
    Associative(first, head + Extension(|literals|), literals);
  }

  lemma Associative(a: seq<byte>, b: seq<byte>, c: seq<byte>)
    ensures a + b + c == a + (b + c)
  {
  }

  /** Token, literal length and the literals, copied in words past their end. */
  method EmitLiterals(dst: array<byte>, op0: nat, src: seq<byte>, anchor: nat, n: nat) returns (op: nat)
    requires op0 + 1 + |Extension(n)| + n + WILD_COPY_LENGTH <= dst.Length
    requires anchor + n + WILD_COPY_LENGTH <= |src|
    modifies dst
    ensures op == op0 + 1 + |Extension(n)| + n
    ensures dst[..op] == old(dst[..op0]) + LiteralPart(src[anchor..anchor + n], 0)
  {
    hide Extension, LiteralPart, Nibble;
    ghost var first := dst[..op0];
    op := EmitRun(dst, op0, n);
    Lz4Decoder.WildCopyIn(dst, op, src, anchor, op + n);
    assert dst[..op + n] == dst[..op] + dst[op..op + n];
    LiteralsJoin(first, src[anchor..anchor + n]);
    op := op + n;
  }

  /** The last literals, copied exactly. */
  method EmitLast(dst: array<byte>, op0: nat, src: seq<byte>, anchor: nat, n: nat) returns (op: nat)
    requires op0 + 1 + |Extension(n)| + n <= dst.Length && anchor + n <= |src|
    modifies dst
    ensures op == op0 + 1 + |Extension(n)| + n
    ensures dst[..op] == old(dst[..op0]) + LiteralPart(src[anchor..anchor + n], 0)
  {
    hide Extension, LiteralPart, Nibble;
    ghost var first := dst[..op0];
    op := EmitRun(dst, op0, n);
    Lz4Decoder.CopyIn(dst, op, src, anchor, n);
    assert dst[..op + n] == dst[..op] + dst[op..op + n];
    LiteralsJoin(first, src[anchor..anchor + n]);
    op := op + n;
  }

  /** The token of a sequence without literals. */
  method EmitNoLiterals(dst: array<byte>, op0: nat, src: seq<byte>, ip: nat) returns (op: nat)
    requires op0 < dst.Length && ip <= |src|
    modifies dst
    ensures op == op0 + 1 && dst[..op][..op0] == old(dst[..op0])
    ensures dst[..op] == dst[..op][..op0] + LiteralPart(src[ip..ip], 0)
  {
    dst[op0] := 0;
    op := op0 + 1;
    assert LiteralPart(src[ip..ip], 0) == [0];
  }

  /** `LZ4_writeLE16` of the offset. */
  method EmitOffset(dst: array<byte>, op0: nat, offset: nat) returns (op: nat)
    requires op0 + 2 <= dst.Length && offset <= MAX_DISTANCE
    modifies dst
    ensures op == op0 + 2
    ensures dst[..op] == old(dst[..op0]) + [offset % 256, offset / 256]
  {
    dst[op0], dst[op0 + 1] := offset % 256, offset / 256;
    op := op0 + 2;
  }

  /** Adding the match code to the token of a run that has been written with 0 there. */
  lemma TokenGetsCode(before: seq<byte>, literals: seq<byte>, offset: nat, code: nat, tok: nat)
    requires offset <= MAX_DISTANCE && tok == |before|
    ensures var whole := before + LiteralPart(literals, 0) + [offset % 256, offset / 256];
            whole[tok] == Nibble(|literals|) * 16 &&
            whole[tok := whole[tok] + Nibble(code)]
            == before + LiteralPart(literals, Nibble(code)) + [offset % 256, offset / 256]
  {
    hide Extension;
    var off: seq<byte> := [offset % 256, offset / 256];
    var rest := Extension(|literals|) + literals + off;
    var whole := before + LiteralPart(literals, 0) + off;
    assert LiteralPart(literals, 0) == [Nibble(|literals|) * 16] + (Extension(|literals|) + literals);
    assert whole == before + [Nibble(|literals|) * 16] + rest;
    assert before + LiteralPart(literals, Nibble(code)) + off
        == before + [Nibble(|literals|) * 16 + Nibble(code)] + rest;
  }

  /**
   The match length behind an offset, with the token brought up to date; `byFour` is the form that
   `LZ4_compress_generic` uses, the other one that of `LZ4_compress_destSize_generic`.
   */
  method EmitCode(dst: array<byte>, tok: nat, op0: nat, code: nat, byFour: bool) returns (op: nat)
    requires tok < op0 && op0 + |Extension(code)| + (if byFour then 3 else 0) <= dst.Length
    requires dst[tok] <= 240
    modifies dst
    ensures op == op0 + |Extension(code)|
    ensures dst[..op] == old(dst[..op0])[tok := old(dst[tok]) + Nibble(code)] + Extension(code)
  {
    ghost var first := dst[..op0];
    if code >= ML_MASK {
      dst[tok] := dst[tok] + ML_MASK;
      assert dst[..op0] == first[tok := dst[tok]];
      if byFour {
        op := EmitLengthByFour(dst, op0, code - ML_MASK);
      } else {
        op := EmitLength(dst, op0, code - ML_MASK);
      }
    } else {
      dst[tok] := dst[tok] + code;
      op := op0;
    }
  }

  method EmitMatchLength(dst: array<byte>, tok: nat, op0: nat, code: nat, byFour: bool,
                         ghost before: seq<byte>, ghost literals: seq<byte>, ghost offset: nat)
    returns (op: nat)
    requires offset <= MAX_DISTANCE && tok == |before|
    requires op0 + |Extension(code)| + (if byFour then 3 else 0) <= dst.Length
    requires dst[..op0] == before + LiteralPart(literals, 0) + [offset % 256, offset / 256]
    modifies dst
    ensures op == op0 + |Extension(code)|
    ensures dst[..op] == before + SequenceBytes(literals, offset, code)
  {
    hide LiteralPart, Extension;
    TokenGetsCode(before, literals, offset, code, tok);
    ghost var whole := dst[..op0];
    assert whole[tok] == dst[tok];
    op := EmitCode(dst, tok, op0, code, byFour);
    assert SequenceBytes(literals, offset, code)
        == LiteralPart(literals, Nibble(code)) + [offset % 256, offset / 256] + Extension(code);
  }
}
