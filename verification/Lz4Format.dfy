/**
 The LZ4 block format: sequences of literals and matches, their byte encoding,
 the text they stand for, and a byte-at-a-time reference decoder.
 */
module Lz4Format {
  import opened Types

  const MIN_MATCH := 4
  const WILD_COPY_LENGTH := 8
  const LAST_LITERALS := 5
  const MF_LIMIT := WILD_COPY_LENGTH + MIN_MATCH
  const MIN_LENGTH := MF_LIMIT + 1
  const MAX_DISTANCE := 65535
  const MAX_INPUT_SIZE := 0x7E000000
  const RUN_MASK := 15
  const ML_MASK := 15

  datatype RawSequence = Sequence(literals: seq<byte>, offset: nat, matchLength: nat)

  /** What a sequence can hold: a two-byte offset, a match of at least four bytes. */
  type Sequence = s: RawSequence | s.offset <= MAX_DISTANCE && MIN_MATCH <= s.matchLength
    witness Sequence([], 1, MIN_MATCH)

  type nibble = n: int | 0 <= n < 16

  /** `unread` is the low nibble of the last token: there is no match after it, so no decoder looks at it. */
  datatype Block = Block(sequences: seq<Sequence>, lastLiterals: seq<byte>, unread: nibble)

  // ----- encoding -----

  /** The bytes that continue a length of which 15 is already in the token. */
  function LengthBytes(n: nat): (r: seq<byte>)
    ensures |r| == n / 255 + 1
  {
    if n < 255 then [n] else [255] + LengthBytes(n - 255)
  }

  function Extension(n: nat): (r: seq<byte>)
    ensures |r| == (n + 240) / 255
  {
    if n < 15 then [] else LengthBytes(n - 15)
  }

  function Nibble(n: nat): nibble {
    if n < 15 then n else 15
  }

  function LiteralPart(literals: seq<byte>, low: nibble): (r: seq<byte>)
    ensures |r| == 1 + (|literals| + 240) / 255 + |literals|
  {
    [Nibble(|literals|) * 16 + low] + Extension(|literals|) + literals
  }

  function MatchPart(offset: nat, code: nat): (r: seq<byte>)
    requires offset <= MAX_DISTANCE
    ensures |r| == 2 + (code + 240) / 255
  {
    [offset % 256, offset / 256] + Extension(code)
  }

  /** The bytes of literals and a match, `code` being the match length less four. */
  function SequenceBytes(literals: seq<byte>, offset: nat, code: nat): seq<byte>
    requires offset <= MAX_DISTANCE
  {
    LiteralPart(literals, Nibble(code)) + MatchPart(offset, code)
  }

  function EncodeSequence(s: Sequence): seq<byte> {
    SequenceBytes(s.literals, s.offset, s.matchLength - MIN_MATCH)
  }

  function EncodeSequences(ss: seq<Sequence>): seq<byte> {
    if ss == [] then [] else EncodeSequences(ss[..|ss| - 1]) + EncodeSequence(ss[|ss| - 1])
  }

  function EncodeBlock(b: Block): seq<byte> {
    EncodeSequences(b.sequences) + LiteralPart(b.lastLiterals, b.unread)
  }

  // ----- meaning -----

  /**
   The overlapping copy, one byte at a time: every new byte is the one `offset` back. The format has no offset of 0;
   what the decoder makes of one is zeros.
   */
  function CopyMatch(text: seq<byte>, offset: nat, length: nat): (r: seq<byte>)
    requires offset <= |text|
    ensures |r| == |text| + length
    ensures text <= r
    decreases length
  {
    if length == 0 then text
    else
      var shorter := CopyMatch(text, offset, length - 1);
      shorter + [if offset == 0 then 0 else shorter[|shorter| - offset]]
  }

  /** Every offset reaches back into text that has already been produced. */
  predicate Valid(ss: seq<Sequence>)
    decreases |ss|, 0
  {
    ss == [] ||
    (&& Valid(ss[..|ss| - 1])
     && ss[|ss| - 1].offset <= |Expand(ss[..|ss| - 1])| + |ss[|ss| - 1].literals|)
  }

  /** No offset is 0, from sequence `k` on: what the format demands besides. */
  predicate SoundFrom(ss: seq<Sequence>, k: nat) {
    forall i :: k <= i < |ss| ==> ss[i].offset != 0
  }

  predicate Sound(b: Block) {
    SoundFrom(b.sequences, 0)
  }

  function Expand(ss: seq<Sequence>): (text: seq<byte>)
    requires Valid(ss)
    decreases |ss|, 1
  {
    if ss == [] then []
    else
      var s := ss[|ss| - 1];
      CopyMatch(Expand(ss[..|ss| - 1]) + s.literals, s.offset, s.matchLength)
  }

  function ExpandBlock(b: Block): seq<byte>
    requires Valid(b.sequences)
  {
    Expand(b.sequences) + b.lastLiterals
  }

  /**
   The end-of-block restrictions: when there is a match at all, the last five bytes are
   literals and the last match starts at least twelve bytes before the end.
   */
  predicate WellFormed(b: Block) {
    && Valid(b.sequences)
    && (b.sequences != [] ==>
          && LAST_LITERALS <= |b.lastLiterals|
          && MF_LIMIT <= b.sequences[|b.sequences| - 1].matchLength + |b.lastLiterals|)
  }

  // ----- the reference decoder, straight from the bytes -----

  /** Adds up the bytes that continue a length; None when the input ends inside it. */
  function ReadRun(src: seq<byte>, ip: nat, sum: nat): (r: Option<(nat, nat)>)
    requires ip <= |src|
    ensures r.Some? ==> ip < r.value.1 <= |src|
    decreases |src| - ip
  {
    if ip == |src| then None
    else if src[ip] == 255 then ReadRun(src, ip + 1, sum + 255)
    else Some((sum + src[ip], ip + 1))
  }

  function ReadLength(src: seq<byte>, ip: nat, nibble: nat): (r: Option<(nat, nat)>)
    requires ip <= |src|
    ensures r.Some? ==> ip <= r.value.1 <= |src|
  {
    if nibble == 15 then ReadRun(src, ip, 15) else Some((nibble, ip))
  }

  /** One sequence read from the bytes: `n` literals from `from`, then either the end or a match. */
  datatype Parsed =
    | Malformed
    | Final(from: nat, n: nat)
    | Step(from: nat, n: nat, offset: nat, matchLength: nat, next: nat)

  function ParseAt(src: seq<byte>, ip: nat): (p: Parsed)
    requires ip <= |src|
    ensures p.Final? ==> p.from + p.n == |src|
    ensures p.Step? ==> ip < p.from <= p.from + p.n < p.next <= |src|
    ensures p.Step? ==> 1 <= p.offset <= MAX_DISTANCE && MIN_MATCH <= p.matchLength
  {
    if ip == |src| then Malformed
    else
      var lits := ReadLength(src, ip + 1, src[ip] / 16);
      if lits.None? || lits.value.1 + lits.value.0 > |src| then Malformed
      else
        var (n, from) := lits.value;
        var at := from + n;
        if at == |src| then Final(from, n)
        else if at + 2 > |src| then Malformed
        else
          var offset: nat := src[at] as int + 256 * (src[at + 1] as int);
          var len := ReadLength(src, at + 2, src[ip] % 16);
          if len.None? || offset == 0 then Malformed
          else Step(from, n, offset, len.value.0 + MIN_MATCH, len.value.1)
  }

  function ReferenceRun(src: seq<byte>, ip: nat, text: seq<byte>): Option<seq<byte>>
    requires ip <= |src|
    decreases |src| - ip
  {
    match ParseAt(src, ip)
    case Malformed => None
    case Final(from, n) => Some(text + src[from..])
    case Step(from, n, offset, matchLength, next) =>
      if offset > |text| + n then None
      else ReferenceRun(src, next, CopyMatch(text + src[from..from + n], offset, matchLength))
  }

  function ReferenceDecode(src: seq<byte>): Option<seq<byte>> {
    ReferenceRun(src, 0, [])
  }

  // ----- facts about copies -----

  /** What `CopyMatch` means: a text that repeats itself with period `offset`. */
  ghost predicate Repeats(text: seq<byte>, from: nat, to: nat, offset: nat) {
    1 <= offset <= from && to <= |text| && forall k :: from <= k < to ==> text[k] == text[k - offset]
  }

  lemma {:induction false} CopyMatchRepeats(text: seq<byte>, offset: nat, length: nat)
    requires 1 <= offset <= |text|
    ensures Repeats(CopyMatch(text, offset, length), |text|, |text| + length, offset)
    decreases length
  {
    if length > 0 { CopyMatchRepeats(text, offset, length - 1); }
  }

  /** A text that extends `text` and repeats it is the copy: the two descriptions agree. */
  lemma {:induction false} RepeatsIsCopyMatch(r: seq<byte>, text: seq<byte>, offset: nat, length: nat)
    requires 1 <= offset <= |text| && |r| == |text| + length && text <= r
    requires Repeats(r, |text|, |r|, offset)
    ensures r == CopyMatch(text, offset, length)
    decreases length
  {
    if length > 0 {
      RepeatsIsCopyMatch(r[..|r| - 1], text, offset, length - 1);
      assert r == r[..|r| - 1] + [r[|r| - 1]];
    }
  }

  /** Zeros behind a text are the copy with an offset of 0. */
  lemma {:induction false} ZerosAreCopyMatch(r: seq<byte>, text: seq<byte>, length: nat)
    requires |r| == |text| + length && text <= r && forall k :: |text| <= k < |r| ==> r[k] == 0
    ensures r == CopyMatch(text, 0, length)
    decreases length
  {
    if length > 0 {
      ZerosAreCopyMatch(r[..|r| - 1], text, length - 1);
      assert r == r[..|r| - 1] + [0];
    }
  }

  /** `far` is a whole number of periods. */
  ghost predicate Multiple(far: int, offset: nat)
    decreases far
  {
    far == 0 || (1 <= offset <= far && Multiple(far - offset, offset))
  }

  /** In a repeating text, places a whole number of periods apart hold the same byte. */
  lemma {:induction false} RepeatsMultiple(text: seq<byte>, from: nat, to: nat, offset: nat, i: nat, j: nat)
    requires Repeats(text, from, to, offset)
    requires from - offset <= i <= j < to && Multiple(j - i, offset)
    ensures text[i] == text[j]
    decreases j - i
  {
    if i < j {
      RepeatsMultiple(text, from, to, offset, i, j - offset);
    }
  }

  // ----- facts about sequences -----

  lemma {:induction false} ValidPrefix(ss: seq<Sequence>, k: nat)
    requires Valid(ss) && k <= |ss|
    ensures Valid(ss[..k])
    ensures Expand(ss[..k]) <= Expand(ss)
    ensures EncodeSequences(ss[..k]) <= EncodeSequences(ss)
    decreases |ss|
  {
    hide Valid, Expand, EncodeSequences;
    if k == |ss| {
      assert ss[..k] == ss;
    } else {
      var before := ss[..|ss| - 1];
      WithoutLast(ss);
      ValidPrefix(before, k);
      assert before[..k] == ss[..k];
    }
  }

  lemma WithoutLast(ss: seq<Sequence>)
    requires Valid(ss) && ss != []
    ensures var before := ss[..|ss| - 1];
            Valid(before) && Expand(before) <= Expand(ss) && EncodeSequences(before) <= EncodeSequences(ss)
  {
    hide CopyMatch, EncodeSequence;
  }

  /** Appending a sequence appends its bytes and extends the text by its literals and its match. */
  lemma AppendSequence(ss: seq<Sequence>, s: Sequence)
    requires Valid(ss) && s.offset <= |Expand(ss)| + |s.literals|
    ensures Valid(ss + [s])
    ensures Expand(ss + [s]) == CopyMatch(Expand(ss) + s.literals, s.offset, s.matchLength)
    ensures EncodeSequences(ss + [s]) == EncodeSequences(ss) + EncodeSequence(s)
  {
    assert (ss + [s])[..|ss + [s]| - 1] == ss;
  }

  // ----- where the parts of a block lie in its bytes -----

  ghost predicate At(src: seq<byte>, ip: nat, part: seq<byte>) {
    ip + |part| <= |src| && src[ip..ip + |part|] == part
  }

  lemma AtParts(src: seq<byte>, ip: nat, a: seq<byte>, b: seq<byte>)
    requires At(src, ip, a + b)
    ensures At(src, ip, a) && At(src, ip + |a|, b)
  {
    var s := src[ip..ip + |a + b|];
    assert s[..|a|] == a && s[|a|..] == b;
    assert src[ip..ip + |a|] == s[..|a|];
    assert src[ip + |a|..ip + |a| + |b|] == s[|a|..];
  }

  lemma {:induction false} RunAt(src: seq<byte>, ip: nat, n: nat, sum: nat)
    requires At(src, ip, LengthBytes(n))
    ensures ReadRun(src, ip, sum) == Some((sum + n, ip + |LengthBytes(n)|))
    decreases n
  {
    assert src[ip] == LengthBytes(n)[0];
    if n >= 255 {
      AtParts(src, ip, [255], LengthBytes(n - 255));
      RunAt(src, ip + 1, n - 255, sum + 255);
    }
  }

  /** The reader of a length undoes its encoding. */
  lemma LengthAt(src: seq<byte>, ip: nat, n: nat)
    requires At(src, ip, Extension(n))
    ensures ReadLength(src, ip, Nibble(n)) == Some((n, ip + |Extension(n)|))
  {
    if n >= 15 { RunAt(src, ip, n - 15, 15); }
  }

  lemma LiteralParts(literals: seq<byte>, low: nibble)
    ensures LiteralPart(literals, low) == [Nibble(|literals|) * 16 + low] + (Extension(|literals|) + literals)
  {
    hide Extension, Nibble;
  }

  lemma TokenAt(src: seq<byte>, ip: nat, token: byte)
    requires At(src, ip, [token])
    ensures src[ip] == token
  {
    assert src[ip..ip + 1][0] == token;
  }

  /** Where the token, the literal length and the literals of a sequence lie. */
  lemma LiteralsAt(src: seq<byte>, ip: nat, literals: seq<byte>, low: nibble)
    requires At(src, ip, LiteralPart(literals, low))
    ensures src[ip] / 16 == Nibble(|literals|) && src[ip] % 16 == low
    ensures ReadLength(src, ip + 1, Nibble(|literals|)) == Some((|literals|, ip + 1 + |Extension(|literals|)|))
    ensures At(src, ip + 1, Extension(|literals|))
    ensures At(src, ip + 1 + |Extension(|literals|)|, literals)
  {
    hide Extension, Nibble, ReadLength, LiteralPart, At;
    var token: byte := Nibble(|literals|) * 16 + low;
    LiteralParts(literals, low);
    AtParts(src, ip, [token], Extension(|literals|) + literals);
    TokenAt(src, ip, token);
    AtParts(src, ip + 1, Extension(|literals|), literals);
    LengthAt(src, ip + 1, |literals|);
  }

  /** Where the offset and the match length of a sequence lie. */
  lemma MatchAt(src: seq<byte>, ip: nat, offset: nat, code: nat)
    requires offset <= MAX_DISTANCE && At(src, ip, MatchPart(offset, code))
    ensures src[ip] as int + 256 * (src[ip + 1] as int) == offset
    ensures ReadLength(src, ip + 2, Nibble(code)) == Some((code, ip + 2 + |Extension(code)|))
    ensures At(src, ip + 2, Extension(code))
  {
    var head: seq<byte> := [offset % 256, offset / 256];
    AtParts(src, ip, head, Extension(code));
    assert src[ip] == src[ip..ip + 2][0] && src[ip + 1] == src[ip..ip + 2][1];
    LengthAt(src, ip + 2, code);
  }

  /** Sequence number `k` starts where the encoding of its predecessors ends. */
  lemma SequenceAt(b: Block, k: nat)
    requires Valid(b.sequences) && k < |b.sequences|
    ensures At(EncodeBlock(b), |EncodeSequences(b.sequences[..k])|, EncodeSequence(b.sequences[k]))
    ensures |EncodeSequences(b.sequences[..k + 1])|
         == |EncodeSequences(b.sequences[..k])| + |EncodeSequence(b.sequences[k])|
    ensures |EncodeSequences(b.sequences[..k + 1])| + 1 + |b.lastLiterals| <= |EncodeBlock(b)|
  {
    hide EncodeSequence, Extension, Valid, Nibble, MatchPart, LiteralPart;
    var ss := b.sequences;
    ValidPrefix(ss, k + 1);
    assert ss[..k + 1][..k] == ss[..k];
    var pre := EncodeSequences(ss[..k]);
    assert EncodeSequences(ss[..k + 1]) == pre + EncodeSequence(ss[k]);
    assert pre + EncodeSequence(ss[k]) <= EncodeBlock(b);
    assert EncodeBlock(b)[|pre|..|pre| + |EncodeSequence(ss[k])|] == EncodeSequence(ss[k]);
  }

  /** What sequence number `k` adds to the text. */
  lemma SequenceText(ss: seq<Sequence>, k: nat)
    requires Valid(ss) && k < |ss|
    ensures Valid(ss[..k]) && Valid(ss[..k + 1])
    ensures ss[k].offset <= |Expand(ss[..k])| + |ss[k].literals|
    ensures Expand(ss[..k + 1]) == CopyMatch(Expand(ss[..k]) + ss[k].literals, ss[k].offset, ss[k].matchLength)
    ensures Expand(ss[..k + 1]) <= Expand(ss)
  {
    hide EncodeSequences;
    ValidPrefix(ss, k);
    ValidPrefix(ss, k + 1);
    assert ss[..k + 1][..k] == ss[..k];
  }

  // ----- the reference decoder and the encoding -----

  /** Parsing undoes the encoding of one sequence. */
  lemma ParseSequence(src: seq<byte>, ip: nat, s: Sequence)
    requires At(src, ip, EncodeSequence(s)) && ip + |EncodeSequence(s)| < |src|
    ensures var from := ip + 1 + |Extension(|s.literals|)|;
            && (ParseAt(src, ip) ==
                if s.offset == 0 then Malformed
                else Step(from, |s.literals|, s.offset, s.matchLength, ip + |EncodeSequence(s)|))
            && At(src, from, s.literals)
  {
    hide ReadLength, Extension, Nibble, LiteralPart, MatchPart;
    var code := s.matchLength - MIN_MATCH;
    var front := LiteralPart(s.literals, Nibble(code));
    AtParts(src, ip, front, MatchPart(s.offset, code));
    LiteralsAt(src, ip, s.literals, Nibble(code));
    MatchAt(src, ip + |front|, s.offset, code);
  }

  lemma ParseLast(src: seq<byte>, ip: nat, literals: seq<byte>, low: nibble)
    requires ip <= |src| && src[ip..] == LiteralPart(literals, low)
    ensures var from := ip + 1 + |Extension(|literals|)|;
            ParseAt(src, ip) == Final(from, |literals|) && src[from..] == literals
  {
    hide ReadLength, Extension, Nibble, LiteralPart;
    LiteralsAt(src, ip, literals, low);
  }

  lemma {:induction false} ReferenceFrom(b: Block, k: nat)
    requires Valid(b.sequences) && k <= |b.sequences|
    ensures Valid(b.sequences[..k])
    ensures |EncodeSequences(b.sequences[..k])| <= |EncodeBlock(b)|
    ensures ReferenceRun(EncodeBlock(b), |EncodeSequences(b.sequences[..k])|, Expand(b.sequences[..k])) ==
            if SoundFrom(b.sequences, k) then Some(ExpandBlock(b)) else None
    decreases |b.sequences| - k
  {
    hide EncodeSequence, EncodeSequences, ParseAt, Valid, Expand, CopyMatch, Extension, Nibble, LiteralPart;
    var src := EncodeBlock(b);
    if k == |b.sequences| {
      assert b.sequences[..k] == b.sequences;
      var ip := |EncodeSequences(b.sequences)|;
      assert src[ip..] == LiteralPart(b.lastLiterals, b.unread);
      ParseLast(src, ip, b.lastLiterals, b.unread);
    } else {
      SequenceAt(b, k);
      SequenceText(b.sequences, k);
      ParseSequence(src, |EncodeSequences(b.sequences[..k])|, b.sequences[k]);
      ReferenceFrom(b, k + 1);
    }
  }

  /** Encoding and then decoding one byte at a time gives the text back, exactly when no offset is 0. */
  lemma ReferenceDecodesEncoding(b: Block)
    requires Valid(b.sequences)
    ensures ReferenceDecode(EncodeBlock(b)) == if Sound(b) then Some(ExpandBlock(b)) else None
  {
    ReferenceFrom(b, 0);
    assert b.sequences[..0] == [];
  }

  // ----- every input the reference decoder accepts is an encoding -----

  lemma ByteAt(src: seq<byte>, ip: nat)
    requires ip < |src|
    ensures At(src, ip, [src[ip]])
  {
    var one := src[ip..ip + 1];
    assert |one| == 1 && one[0] == src[ip];
  }

  lemma {:induction false} RunIsEncoded(src: seq<byte>, ip: nat, sum: nat)
    requires ip <= |src| && ReadRun(src, ip, sum).Some?
    ensures var (total, next) := ReadRun(src, ip, sum).value;
            sum <= total && next == ip + |LengthBytes(total - sum)| && At(src, ip, LengthBytes(total - sum))
    decreases |src| - ip
  {
    if src[ip] == 255 {
      RunIsEncoded(src, ip + 1, sum + 255);
      var n := ReadRun(src, ip, sum).value.0 - sum;
      ByteAt(src, ip);
      JoinParts(src, ip, [255], LengthBytes(n - 255));
    } else {
      ByteAt(src, ip);
    }
  }

  lemma LengthIsEncoded(src: seq<byte>, ip: nat, nibble: nibble)
    requires ip <= |src| && ReadLength(src, ip, nibble).Some?
    ensures var (n, next) := ReadLength(src, ip, nibble).value;
            Nibble(n) == nibble && next == ip + |Extension(n)| && At(src, ip, Extension(n))
  {
    if nibble == 15 { RunIsEncoded(src, ip, 15); }
  }

  lemma JoinParts(src: seq<byte>, ip: nat, a: seq<byte>, b: seq<byte>)
    requires At(src, ip, a) && At(src, ip + |a|, b)
    ensures At(src, ip, a + b)
  {
    assert src[ip..ip + |a + b|] == src[ip..ip + |a|] + src[ip + |a|..ip + |a| + |b|];
  }

  lemma LiteralsParsed(src: seq<byte>, ip: nat)
    requires ip <= |src| && !ParseAt(src, ip).Malformed?
    ensures var p := ParseAt(src, ip);
            && ip < |src| && p.from + p.n <= |src| && ReadLength(src, ip + 1, src[ip] / 16) == Some((p.n, p.from))
            && At(src, ip, [src[ip]]) && At(src, p.from, src[p.from..p.from + p.n])
  {
    hide ReadLength;
  }

  lemma LiteralsAreEncoded(src: seq<byte>, ip: nat)
    requires ip <= |src| && !ParseAt(src, ip).Malformed?
    ensures var p := ParseAt(src, ip);
            && p.from + p.n <= |src|
            && p.from == ip + 1 + |Extension(p.n)|
            && At(src, ip, LiteralPart(src[p.from..p.from + p.n], src[ip] % 16))
  {
    hide ReadLength, Extension, Nibble, LiteralPart, ParseAt, At;
    var p := ParseAt(src, ip);
    LiteralsParsed(src, ip);
    LengthIsEncoded(src, ip + 1, src[ip] / 16);
    var literals := src[p.from..p.from + p.n];
    JoinParts(src, ip + 1, Extension(p.n), literals);
    JoinParts(src, ip, [src[ip]], Extension(p.n) + literals);
    LiteralParts(literals, src[ip] % 16);
    assert src[ip] == src[ip] / 16 * 16 + src[ip] % 16;
  }

  lemma MatchIsEncoded(src: seq<byte>, ip: nat)
    requires ip <= |src| && ParseAt(src, ip).Step?
    ensures var p := ParseAt(src, ip);
            var code := p.matchLength - MIN_MATCH;
            && Nibble(code) == src[ip] % 16
            && At(src, p.from + p.n, MatchPart(p.offset, code))
            && p.next == p.from + p.n + |MatchPart(p.offset, code)|
  {
    hide ReadLength, Extension, Nibble;
    var p := ParseAt(src, ip);
    var at := p.from + p.n;
    LengthIsEncoded(src, at + 2, src[ip] % 16);
    assert src[at..at + 2] == [p.offset % 256, p.offset / 256];
    JoinParts(src, at, [p.offset % 256, p.offset / 256], Extension(p.matchLength - MIN_MATCH));
  }

  /** A step the parser reads is the encoding of the sequence it reads. */
  lemma StepIsEncoded(src: seq<byte>, ip: nat) returns (s: Sequence)
    requires ip <= |src| && ParseAt(src, ip).Step?
    ensures var p := ParseAt(src, ip);
            && s == Sequence(src[p.from..p.from + p.n], p.offset, p.matchLength)
            && At(src, ip, EncodeSequence(s))
            && p.next == ip + |EncodeSequence(s)|
  {
    hide ParseAt, Extension, Nibble, LiteralPart, MatchPart;
    var p := ParseAt(src, ip);
    s := Sequence(src[p.from..p.from + p.n], p.offset, p.matchLength);
    LiteralsAreEncoded(src, ip);
    MatchIsEncoded(src, ip);
    JoinParts(src, ip, LiteralPart(s.literals, src[ip] % 16), MatchPart(p.offset, p.matchLength - MIN_MATCH));
  }

  lemma {:induction false} AcceptedFrom(src: seq<byte>, ip: nat, ss: seq<Sequence>) returns (b: Block)
    requires Valid(ss) && SoundFrom(ss, 0) && ip <= |src| && src[..ip] == EncodeSequences(ss)
    requires ReferenceRun(src, ip, Expand(ss)).Some?
    ensures Valid(b.sequences) && Sound(b) && EncodeBlock(b) == src
    ensures ReferenceRun(src, ip, Expand(ss)) == Some(ExpandBlock(b))
    decreases |src| - ip
  {
    hide CopyMatch, LiteralPart, EncodeSequence, EncodeSequences, Extension, ParseAt, Valid, Expand;
    var p := ParseAt(src, ip);
    if p.Final? {
      LiteralsAreEncoded(src, ip);
      assert src[p.from..] == src[p.from..p.from + p.n];
      b := Block(ss, src[p.from..], src[ip] % 16);
      assert src == src[..ip] + src[ip..ip + |LiteralPart(src[p.from..], src[ip] % 16)|];
    } else {
      var s := StepIsEncoded(src, ip);
      AppendSequence(ss, s);
      assert src[..p.next] == src[..ip] + src[ip..p.next];
      b := AcceptedFrom(src, p.next, ss + [s]);
    }
  }

  /** The reference decoder accepts exactly the encodings of valid, sound blocks, and yields their text. */
  lemma ReferenceAcceptsExactlyEncodings(src: seq<byte>, text: seq<byte>)
    ensures ReferenceDecode(src) == Some(text)
        <==> exists b: Block :: Valid(b.sequences) && Sound(b) && EncodeBlock(b) == src && ExpandBlock(b) == text
  {
    if ReferenceDecode(src) == Some(text) {
      var b := AcceptedFrom(src, 0, []);
    }
    forall b: Block | Valid(b.sequences) && Sound(b) && EncodeBlock(b) == src
      ensures ReferenceDecode(src) == Some(ExpandBlock(b))
    {
      ReferenceDecodesEncoding(b);
    }
  }
}
