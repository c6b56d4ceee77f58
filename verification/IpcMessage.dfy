/** `ipc_pack_message` and `ipc_unpack`: a message written as words is read back. */
module IpcMessage {
  import opened Types
  import opened Bits
  import opened IpcFormat
  import opened IpcPack
  import opened IpcWrite

  /** `ipc_pack_message_t`. */
  datatype Msg = Msg(kind: half, buffers: seq<Buffer>, copies: seq<word>, moves: seq<word>, pid: bool, data: seq<word>)

  predicate Enabled(m: Msg) {
    m.copies != [] || m.moves != [] || m.pid
  }

  /** Where the parts of a message lie, in words. */
  datatype Layout = Layout(
    copies: nat, moves: nat, x: nat, a: nat, b: nat, before: nat, data: nat, lengths: nat, c: nat, end: nat)

  function Align(h: nat): (r: nat)
    ensures h <= r < h + 4 && r % 4 == 0
  {
    (h + 3) / 4 * 4
  }

  function LayoutOf(m: Msg): Layout {
    var g := Grouped(m.buffers);
    var copies := if Enabled(m) then 3 + (if m.pid then 2 else 0) else 2;
    var moves := copies + |m.copies|;
    var x := moves + |m.moves|;
    var a := x + 2 * |g.x|;
    var b := a + 3 * |g.a|;
    var before := b + 3 * |g.b|;
    var lengths := before + |m.data| + 4;
    var c := lengths + (|Lengths(g.c)| + 1) / 2;
    Layout(copies, moves, x, a, b, before, Align(before), lengths, c, c + 2 * |g.c|)
  }

  /** The first thing that is wrong with a message, in the order the source looks. */
  function PackError(m: Msg): Option<Error> {
    var g := Grouped(m.buffers);
    if GroupError(m.buffers).Some? then GroupError(m.buffers)
    else if |m.copies| >= 16 || |m.moves| >= 16 then Some(TooManyHandles)
    else if FirstError(g.x, XError).Some? then FirstError(g.x, XError)
    else if FirstError(g.a + g.b, ABError).Some? then FirstError(g.a + g.b, ABError)
    else if FirstError(g.c, LengthError).Some? then FirstError(g.c, LengthError)
    else FirstError(g.c, CError)
  }

  /** The headers and the handles. */
  ghost predicate HeadIs(s: seq<word>, m: Msg, header1: word) {
    var g, l := Grouped(m.buffers), LayoutOf(m);
    && l.x <= |s|
    && s[0] == Header0(m.kind, |g.x|, |g.a|, |g.b|) % P32 && s[1] == header1
    && (Enabled(m) ==> s[2] == HandleWord(m.pid, |m.copies|, |m.moves|) % P32)
    && s[l.copies..l.moves] == m.copies && s[l.moves..l.x] == m.moves
  }

  ghost predicate Packed(s: seq<word>, m: Msg) {
    var g, l := Grouped(m.buffers), LayoutOf(m);
    && PackError(m) == None && |g.x| <= 16 && l.end <= |s| && l.data + |m.data| <= l.lengths
    && FrontIs(s, m, Or(Header1(CFlags(|g.c|), Enabled(m)), l.c - l.before) % P32)
    && BackIs(s, m) && s[l.c..l.end] == CAll(g.c)
  }

  /** The data and the list of lengths. */
  ghost predicate BackIs(s: seq<word>, m: Msg) {
    var g, l := Grouped(m.buffers), LayoutOf(m);
    && l.c <= |s| && l.data + |m.data| <= |s| && s[l.data..l.data + |m.data|] == m.data
    && (forall k :: 0 <= k < |Lengths(g.c)| ==> HalfAt(s, l.lengths, k) == Lengths(g.c)[k])
  }

  lemma LayoutFacts(m: Msg)
    ensures var l, g := LayoutOf(m), Grouped(m.buffers);
            && 2 <= l.copies <= l.moves <= l.x <= l.a <= l.b <= l.before <= l.data < l.before + 4
            && l.data + |m.data| <= l.lengths <= l.c <= l.end && l.data % 4 == 0
            && l.moves == l.copies + |m.copies| && l.x == l.moves + |m.moves|
            && l.a == l.x + 2 * |g.x| && l.b == l.a + 3 * |g.a| && l.before == l.b + 3 * |g.b|
            && l.before == l.a + 3 * |g.a + g.b| && l.end == l.c + 2 * |g.c|
            && l.lengths == l.before + |m.data| + 4 && l.c == l.lengths + (|Lengths(g.c)| + 1) / 2
            && (Enabled(m) ==> 3 <= l.copies)
  {
    hide Grouped, Lengths, Align;
  }

  /** What the head says depends on its own words only. */
  lemma HeadKept(s: seq<word>, t: seq<word>, m: Msg, header1: word)
    requires HeadIs(s, m, header1) && |s| == |t| && s[..LayoutOf(m).x] == t[..LayoutOf(m).x]
    ensures HeadIs(t, m, header1)
  {
    hide Grouped, Header0, HandleWord, LayoutOf;
    LayoutFacts(m);
    var l := LayoutOf(m);
    assert forall i :: 0 <= i < l.x ==> s[i] == s[..l.x][i] && t[i] == t[..l.x][i];
    assert s[l.copies..l.moves] == s[..l.x][l.copies..l.moves] && t[l.copies..l.moves] == t[..l.x][l.copies..l.moves];
    assert s[l.moves..l.x] == s[..l.x][l.moves..] && t[l.moves..l.x] == t[..l.x][l.moves..];
  }

  /** The headers and the handle descriptor. */
  method WriteHead(buffer: array<word>, m: Msg, g: Groups) returns (error: Option<Error>, h: nat)
    requires g == Grouped(m.buffers) && LayoutOf(m).x <= buffer.Length
    modifies buffer
    ensures error == if |m.copies| >= 16 || |m.moves| >= 16 then Some(TooManyHandles) else None
    ensures error == None ==> h == LayoutOf(m).x && HeadIs(buffer[..], m, Header1(CFlags(|g.c|), Enabled(m)) % P32)
  {
    hide Grouped, Header0, HandleWord, Header1, LayoutOf, Lengths;
    LayoutFacts(m);
    ghost var l := LayoutOf(m);
    error := None;
    buffer[0] := Header0(m.kind, |g.x|, |g.a|, |g.b|) % P32;
    buffer[1] := Header1(CFlags(|g.c|), Enabled(m)) % P32;
    h := 2;
    CopiesAt(m);
    if Enabled(m) {
      if |m.copies| >= 16 || |m.moves| >= 16 {
        return Some(TooManyHandles), h;
      }
      buffer[2] := HandleWord(m.pid, |m.copies|, |m.moves|) % P32;
      h := 3 + (if m.pid then 2 else 0);
      ghost var s := buffer[..];
      h := WriteWords(buffer, h, m.copies);
      PutKeeps(s, l.copies, m.copies, 0, l.copies);
      ghost var t := buffer[..];
      assert t[l.copies..l.moves] == m.copies && t[0..l.copies] == s[0..l.copies];
      h := WriteWords(buffer, h, m.moves);
      PutKeeps(t, l.moves, m.moves, 0, l.copies);
      PutKeeps(t, l.moves, m.moves, l.copies, l.moves);
      FirstThree(s, buffer[..], l.copies);
    }
  }

  lemma CopiesAt(m: Msg)
    ensures LayoutOf(m).copies == if Enabled(m) then 3 + (if m.pid then 2 else 0) else 2
  {
  }

  lemma FirstThree(s: seq<word>, t: seq<word>, n: nat)
    requires 3 <= n <= |s| == |t| && s[0..n] == t[0..n]
    ensures s[0] == t[0] && s[1] == t[1] && s[2] == t[2]
  {
    assert s[0..n][0] == t[0..n][0] && s[0..n][1] == t[0..n][1] && s[0..n][2] == t[0..n][2];
  }

  /** The parts before the data. */
  ghost predicate FrontIs(s: seq<word>, m: Msg, header1: word) {
    var g, l := Grouped(m.buffers), LayoutOf(m);
    && |g.x| <= 16 && FirstError(g.x, XError) == None && FirstError(g.a + g.b, ABError) == None && l.before <= |s|
    && HeadIs(s, m, header1) && s[l.x..l.a] == XAll(g.x) && s[l.a..l.before] == ABAll(g.a + g.b)
  }

  lemma PrefixSlices(s: seq<word>, t: seq<word>, n: nat, i: nat, j: nat)
    requires |s| == |t| && i <= j <= n <= |s| && s[..n] == t[..n]
    ensures s[i..j] == t[i..j] && s[..i] == t[..i]
  {
    forall k | 0 <= k < n ensures s[k] == t[k] {
      assert s[..n][k] == t[..n][k];
    }
  }

  lemma FrontKept(s: seq<word>, t: seq<word>, m: Msg, header1: word)
    requires FrontIs(s, m, header1) && |s| == |t| && s[..LayoutOf(m).before] == t[..LayoutOf(m).before]
    ensures FrontIs(t, m, header1)
  {
    hide Grouped, LayoutOf, HeadIs, XAll, ABAll, FirstError;
    LayoutFacts(m);
    var l := LayoutOf(m);
    PrefixSlices(s, t, l.before, l.x, l.a);
    PrefixSlices(s, t, l.before, l.a, l.before);
    HeadKept(s, t, m, header1);
  }

  /** Replacing header field 2 touches nothing else. */
  lemma HeaderReplaced(s: seq<word>, m: Msg, header1: word, header1': word)
    requires FrontIs(s, m, header1) && 2 <= |s|
    ensures FrontIs(s[1 := header1'], m, header1')
  {
    hide Grouped, LayoutOf, XAll, ABAll, FirstError, Header0, HandleWord;
    LayoutFacts(m);
    var l, t := LayoutOf(m), s[1 := header1'];
    assert t[l.x..l.a] == s[l.x..l.a] && t[l.a..l.before] == s[l.a..l.before];
    assert t[l.copies..l.moves] == s[l.copies..l.moves] && t[l.moves..l.x] == s[l.moves..l.x];
  }

  lemma PutPrefix(s: seq<word>, h: nat, ws: seq<word>, n: nat)
    requires h + |ws| <= |s| && n <= h
    ensures Put(s, h, ws)[..n] == s[..n]
  {
  }

  /** Everything in front of the data. */
  method WriteFront(buffer: array<word>, m: Msg, g: Groups) returns (error: Option<Error>, h: nat)
    requires g == Grouped(m.buffers) && |g.x| <= 16 && LayoutOf(m).before <= buffer.Length
    modifies buffer
    ensures error == if |m.copies| >= 16 || |m.moves| >= 16 then Some(TooManyHandles)
                     else if FirstError(g.x, XError).Some? then FirstError(g.x, XError)
                     else FirstError(g.a + g.b, ABError)
    ensures error == None ==>
              h == LayoutOf(m).before && FrontIs(buffer[..], m, Header1(CFlags(|g.c|), Enabled(m)) % P32)
  {
    hide Grouped, LayoutOf, HeadIs, XAll, ABAll, FirstError, Header1, Put;
    LayoutFacts(m);
    ghost var l, header1 := LayoutOf(m), Header1(CFlags(|g.c|), Enabled(m)) % P32;
    error, h := WriteHead(buffer, m, g);
    if error.Some? { return; }
    ghost var s := buffer[..];
    error, h := WriteX(buffer, h, g.x);
    if error.Some? { return; }
    ghost var t := buffer[..];
    PutPrefix(s, l.x, XAll(g.x), l.x);
    PutKeeps(s, l.x, XAll(g.x), 0, 0);
    HeadKept(s, t, m, header1);
    error, h := WriteAB(buffer, h, g.a + g.b);
    if error.Some? { return; }
    PutPrefix(t, l.a, ABAll(g.a + g.b), l.x);
    PutKeeps(t, l.a, ABAll(g.a + g.b), l.x, l.a);
    HeadKept(t, buffer[..], m, header1);
  }

  lemma BackKept(s: seq<word>, t: seq<word>, m: Msg)
    requires BackIs(s, m) && |s| == |t| && s[2..LayoutOf(m).c] == t[2..LayoutOf(m).c]
    ensures BackIs(t, m)
  {
    hide Grouped, LayoutOf, Lengths;
    LayoutFacts(m);
    var l := LayoutOf(m);
    var u, v := s[2..l.c], t[2..l.c];
    forall i | 2 <= i < l.c
      ensures s[i] == t[i]
    {
      assert u[i - 2] == v[i - 2];
    }
    assert s[l.data..l.data + |m.data|] == t[l.data..l.data + |m.data|];
  }

  lemma Header1Small(c: nat, enabled: bool)
    requires c <= 16
    ensures Header1(CFlags(c), enabled) < P32
  {
    hide Or, Shl, Pow2;
    IpcPowers();
    ShlIsProduct(CFlags(c), 10);
    OrField(Shl(CFlags(c), 10), if enabled then 1 else 0, 31, 0x8000_0000);
  }

  /** The data between its paddings, and the list of lengths. */
  method WriteData(buffer: array<word>, m: Msg, g: Groups, h0: nat, ghost header1: word)
    returns (error: Option<Error>, h: nat)
    requires g == Grouped(m.buffers) && LayoutOf(m).end <= buffer.Length && h0 == LayoutOf(m).before
    requires FrontIs(buffer[..], m, header1)
    modifies buffer
    ensures error == FirstError(g.c, LengthError)
    ensures error == None ==> h == LayoutOf(m).c && FrontIs(buffer[..], m, header1) && BackIs(buffer[..], m)
  {
    hide Grouped, LayoutOf, FrontIs, FirstError, Put, Lengths, HalfAt, BackIs, Align;
    LayoutFacts(m);
    ghost var l := LayoutOf(m);
    ghost var s := buffer[..];
    h := Align(h0);
    AlignIs(m);
    var pre := h - h0;
    h := WriteWords(buffer, h, m.data);
    PutPrefix(s, l.data, m.data, l.before);
    PutKeeps(s, l.data, m.data, 0, 0);
    FrontKept(s, buffer[..], m, header1);
    h := h + 4 - pre;
    s := buffer[..];
    var count;
    error, count := WriteLengths(buffer, h, g.c);
    if error.Some? { return; }
    assert s[..l.lengths] == buffer[..][..l.lengths];
    PrefixSlices(s, buffer[..], l.lengths, l.before, l.before);
    PrefixSlices(s, buffer[..], l.lengths, l.data, l.data + |m.data|);
    FrontKept(s, buffer[..], m, header1);
    BackMade(buffer[..], m);
    h := h + (count + 1) / 2;
  }

  /** The size of the data section, which goes into header field 2, and the C descriptors. */
  method WriteEnd(buffer: array<word>, m: Msg, g: Groups, h0: nat, c: nat) returns (error: Option<Error>)
    requires g == Grouped(m.buffers) && |g.c| <= 16 && LayoutOf(m).end <= buffer.Length
    requires h0 == LayoutOf(m).before && c == LayoutOf(m).c
    requires FrontIs(buffer[..], m, Header1(CFlags(|g.c|), Enabled(m)) % P32) && BackIs(buffer[..], m)
    modifies buffer
    ensures error == FirstError(g.c, CError)
    ensures error == None ==>
              var s, l := buffer[..], LayoutOf(m);
              && FrontIs(s, m, Or(Header1(CFlags(|g.c|), Enabled(m)), l.c - l.before) % P32) && BackIs(s, m)
              && s[l.c..l.end] == CAll(g.c)
  {
    hide Grouped, LayoutOf, FrontIs, FirstError, Header1, Put, Lengths, CAll, Or, BackIs, CFlags, Enabled;
    LayoutFacts(m);
    Header1Small(|g.c|, Enabled(m));
    WriteSize(buffer, m, h0, c, Header1(CFlags(|g.c|), Enabled(m)));
    ghost var l, s := LayoutOf(m), buffer[..];
    ghost var header1 := Or(Header1(CFlags(|g.c|), Enabled(m)), c - h0) % P32;
    var h;
    error, h := WriteC(buffer, c, g.c);
    if error.Some? { return; }
    PutPrefix(s, l.c, CAll(g.c), l.before);
    PutKeeps(s, l.c, CAll(g.c), 2, l.c);
    FrontKept(s, buffer[..], m, header1);
    BackKept(s, buffer[..], m);
  }

  /** The size of the data section, into header field 2. */
  method WriteSize(buffer: array<word>, ghost m: Msg, h0: nat, c: nat, ghost header1: nat)
    requires LayoutOf(m).end <= buffer.Length && h0 == LayoutOf(m).before && c == LayoutOf(m).c && header1 < P32
    requires FrontIs(buffer[..], m, header1) && BackIs(buffer[..], m)
    modifies buffer
    ensures FrontIs(buffer[..], m, Or(header1, c - h0) % P32) && BackIs(buffer[..], m)
  {
    hide Grouped, LayoutOf, FrontIs, Or, BackIs;
    LayoutFacts(m);
    ghost var s := buffer[..];
    HeaderWord(s, m, header1);
    buffer[1] := Or(buffer[1], c - h0) % P32;
    HeaderReplaced(s, m, header1, buffer[1]);
    assert buffer[..] == s[1 := buffer[1]];
    BackKept(s, buffer[..], m);
  }

  /** `ipc_pack_message`: fails with the first thing that is wrong, or leaves the message in the buffer. */
  method PackMessage(buffer: array<word>, m: Msg) returns (error: Option<Error>)
    requires LayoutOf(m).end <= buffer.Length
    modifies buffer
    ensures error == PackError(m)
    ensures error == None ==> Packed(buffer[..], m)
  {
    hide Grouped, LayoutOf, HeadIs, FrontIs, FirstError, Header1, CAll, Or, BackIs, GroupError;
    LayoutFacts(m);
    var g, h, c;
    error, g := Group(m.buffers);
    if error.Some? { return; }
    GroupsBounded(m.buffers);
    error, h := WriteFront(buffer, m, g);
    if error.Some? { return; }
    FrontErrors(buffer[..], m, Header1(CFlags(|g.c|), Enabled(m)) % P32);
    error, c := WriteData(buffer, m, g, h, Header1(CFlags(|g.c|), Enabled(m)) % P32);
    if error.Some? { return; }
    error := WriteEnd(buffer, m, g, h, c);
  }

  lemma FrontErrors(s: seq<word>, m: Msg, header1: word)
    requires FrontIs(s, m, header1)
    ensures var g := Grouped(m.buffers);
            |g.x| <= 16 && FirstError(g.x, XError) == None && FirstError(g.a + g.b, ABError) == None
  {
    hide Grouped, LayoutOf, HeadIs, XAll, ABAll, FirstError;
  }

  lemma HeaderWord(s: seq<word>, m: Msg, header1: word)
    requires FrontIs(s, m, header1)
    ensures 2 <= |s| && s[1] == header1
  {
    hide Grouped, LayoutOf, XAll, ABAll, FirstError, Header0, HandleWord;
    LayoutFacts(m);
  }

  lemma AlignIs(m: Msg)
    ensures LayoutOf(m).data == Align(LayoutOf(m).before)
  {
    hide Align, Grouped, Lengths;
  }

  lemma BackMade(s: seq<word>, m: Msg)
    requires var g, l := Grouped(m.buffers), LayoutOf(m);
             && l.c <= |s| && l.data + |m.data| <= |s| && s[l.data..l.data + |m.data|] == m.data
             && forall k :: 0 <= k < |Lengths(g.c)| ==>
                  l.lengths + k / 2 < |s| && HalfAt(s, l.lengths, k) == Lengths(g.c)[k]
    ensures BackIs(s, m)
  {
  }

  // ----- unpacking -----

  /** `ipc_message_t`; pointers into the buffer are indices. */
  datatype Incoming = Incoming(
    kind: nat, x: nat, a: nat, b: nat, w: nat, section: nat, flags: nat,
    hasPid: bool, pid: nat, copies: nat, moves: nat, copiesAt: nat, movesAt: nat,
    xAt: nat, aAt: nat, bAt: nat, pre: nat, post: nat, dataAt: nat, cAt: nat)

  /** The counts and the size of the data section fit into their fields. */
  predicate Readable(m: Msg) {
    var g, l := Grouped(m.buffers), LayoutOf(m);
    |g.a| <= 15 && |g.b| <= 15 && |g.x| <= 15 && |g.c| <= 13 && l.c - l.before < 0x400
  }

  lemma HandleFields(pid: bool, copies: nat, moves: nat, h: nat)
    requires copies < 16 && moves < 16 && h == (if pid then 1 else 0) + copies * 2 + moves * 0x20
    ensures (h % 2 == 1) == pid && h / 2 % 16 == copies && h / 0x20 % 16 == moves && h < P32
  {
    assert h / 2 == copies + 16 * moves;
  }

  lemma ReadHandles(pid: bool, copies: nat, moves: nat, w: word)
    requires copies < 16 && moves < 16 && w == HandleWord(pid, copies, moves) % P32
    ensures (w % 2 == 1) == pid && w / 2 % 16 == copies && w / 0x20 % 16 == moves
  {
    hide HandleWord;
    HandleWordSum(pid, copies, moves);
    HandleFields(pid, copies, moves, w);
  }

  lemma HeadWords(s: seq<word>, m: Msg)
    requires Packed(s, m)
    ensures var g, l := Grouped(m.buffers), LayoutOf(m);
            && 2 <= l.x <= |s| && (Enabled(m) ==> 3 <= l.x) && |m.copies| < 16 && |m.moves| < 16
            && l.before <= l.c <= |s| && |g.x| <= 16 && |g.a| <= 16 && |g.b| <= 16 && |g.c| <= 16
            && s[0] == Header0(m.kind, |g.x|, |g.a|, |g.b|) % P32
            && s[1] == Or(Header1(CFlags(|g.c|), Enabled(m)), l.c - l.before) % P32
            && (Enabled(m) ==> s[2] == HandleWord(m.pid, |m.copies|, |m.moves|) % P32)
  {
    hide Grouped, LayoutOf, XAll, ABAll, FirstError, Header0, HandleWord, Header1, Or, BackIs, CAll, GroupError,
      Lengths;
    LayoutFacts(m);
    GroupsBounded(m.buffers);
  }

  /** The fields that say what a message consists of are read as they were meant. */
  predicate FieldsRead(s: seq<word>, m: Msg)
    requires 2 <= |s|
  {
    var g, l := Grouped(m.buffers), LayoutOf(m);
    CountsAre(s[0], |g.x|, |g.a|, |g.b|) && SizesAre(s[1], CFlags(|g.c|), l.c - l.before)
  }

  predicate CountsAre(w: word, x: nat, a: nat, b: nat) {
    w / P16 % 16 == x && w / 0x10_0000 % 16 == a && w / 0x100_0000 % 16 == b
  }

  predicate SizesAre(w: word, flags: nat, size: nat) {
    w % 0x400 == size && w / 0x400 % 16 == flags
  }

  lemma FirstWord(kind: nat, x: nat, a: nat, b: nat, w: word)
    requires kind < P16 && x <= 16 && a <= 16 && b <= 16 && w == Header0(kind, x, a, b) % P32
    ensures CountsAre(w, x, a, b) <==> x < 16 && a < 16 && b < 16
    ensures w % P16 == kind && (x < 16 && a < 16 && b < 16 ==> w / 0x1000_0000 == 0)
  {
    hide Header0;
    Header0Small(kind, x, a, b);
    assert w == Header0(kind, x, a, b);
    KindRecovered(kind, x, a, b);
    CountsRecovered(kind, x, a, b);
  }

  lemma SecondWord(flags: nat, enabled: bool, size: nat, w: word)
    requires flags < 0x20_0000 && size < 0x8000_0000 && w == Or(Header1(flags, enabled), size) % P32
    ensures SizesAre(w, flags, size) <==> size < 0x400 && flags < 16
    ensures w / 0x8000_0000 == if enabled then 1 else 0
  {
    hide Header1, Or;
    SizesRecovered(flags, enabled, size);
    assert w == Or(Header1(flags, enabled), size);
  }

  /**
   For every message that can be packed, the receiver reads the counts, the C flags and the size of the data section
   as the sender meant them exactly when they fit. The type and the handle descriptor are always read right.
   */
  lemma HeadRead(s: seq<word>, m: Msg)
    requires Packed(s, m) && |s| < 0x8000_0000
    ensures 2 <= |s| && (FieldsRead(s, m) <==> Readable(m))
    ensures s[0] % P16 == m.kind && (Readable(m) ==> s[0] / 0x1000_0000 == 0)
    ensures s[1] / 0x8000_0000 == if Enabled(m) then 1 else 0
    ensures Enabled(m) ==>
              3 <= |s| && (s[2] % 2 == 1) == m.pid && s[2] / 2 % 16 == |m.copies| && s[2] / 0x20 % 16 == |m.moves|
  {
    hide Grouped, LayoutOf, Packed, Header0, Header1, Or, HandleWord, CountsAre, SizesAre;
    HeadWords(s, m);
    var g, l := Grouped(m.buffers), LayoutOf(m);
    FirstWord(m.kind, |g.x|, |g.a|, |g.b|, s[0]);
    SecondWord(CFlags(|g.c|), Enabled(m), l.c - l.before, s[1]);
    if Enabled(m) { ReadHandles(m.pid, |m.copies|, |m.moves|, s[2]); }
  }

  /** The header words and the handle descriptor; `h` is where the descriptors start. */
  method UnpackHead(buffer: seq<word>, ghost m: Msg) returns (r: Incoming, h: nat)
    requires Packed(buffer, m) && |buffer| < 0x8000_0000
    ensures r.kind == m.kind && r.hasPid == m.pid && r.copies == |m.copies| && r.moves == |m.moves|
    ensures m.pid ==> 5 <= |buffer| && r.pid == buffer[3] as int + buffer[4] as int * P32
    ensures h == LayoutOf(m).x && (Enabled(m) ==> r.copiesAt == LayoutOf(m).copies && r.movesAt == LayoutOf(m).moves)
    ensures var g, l := Grouped(m.buffers), LayoutOf(m);
            Readable(m) <==>
              && r.x == |g.x| && r.a == |g.a| && r.b == |g.b|
              && r.section == l.c - l.before && r.flags == CFlags(|g.c|)
    ensures Readable(m) ==> r.w == 0
  {
    hide Grouped, LayoutOf, Packed, Readable, Counts;
    CountsMean(buffer, m);
    LayoutFacts(m);
    CopiesAt(m);
    var header0, header1 := buffer[0], buffer[1];
    h := 2;
    r := Counts(header0, header1);
    if header1 / 0x8000_0000 == 1 {
      r, h := UnpackHandles(buffer, m, r, h);
    }
  }

  /** What the two header fields say. */
  function Counts(header0: word, header1: word): Incoming {
    Incoming(header0 % P16, header0 / P16 % 16, header0 / 0x10_0000 % 16, header0 / 0x100_0000 % 16,
             header0 / 0x1000_0000 % 16, header1 % 0x400, header1 / 0x400 % 16,
             false, 0, 0, 0, 0, 0, 0, 0, 0, 0, 0, 0, 0)
  }

  lemma CountsMean(s: seq<word>, m: Msg)
    requires Packed(s, m) && |s| < 0x8000_0000
    ensures 2 <= |s| && s[1] / 0x8000_0000 == if Enabled(m) then 1 else 0
    ensures var r, g, l := Counts(s[0], s[1]), Grouped(m.buffers), LayoutOf(m);
            && r.kind == m.kind && !r.hasPid && r.copies == r.moves == 0 && (Readable(m) ==> r.w == 0)
            && (Readable(m) <==> r.x == |g.x| && r.a == |g.a| && r.b == |g.b|
                                 && r.section == l.c - l.before && r.flags == CFlags(|g.c|))
  {
    hide Grouped, LayoutOf, Packed, Readable;
    HeadRead(s, m);
  }

  /** The handle descriptor, the process id and the handles. */
  method UnpackHandles(buffer: seq<word>, ghost m: Msg, r0: Incoming, h0: nat) returns (r: Incoming, h: nat)
    requires Packed(buffer, m) && |buffer| < 0x8000_0000 && Enabled(m) && h0 == 2 && !r0.hasPid
    ensures r == r0.(hasPid := m.pid, pid := r.pid, copies := |m.copies|, moves := |m.moves|,
                     copiesAt := LayoutOf(m).copies, movesAt := LayoutOf(m).moves)
    ensures h == LayoutOf(m).x && (m.pid ==> 5 <= |buffer| && r.pid == buffer[3] as int + buffer[4] as int * P32)
  {
    hide Grouped, LayoutOf, Packed, Readable, FieldsRead;
    HeadRead(buffer, m);
    LayoutFacts(m);
    CopiesAt(m);
    PackedLength(buffer, m);
    r, h := r0, h0;
    var handles := buffer[h];
    h := h + 1;
    if handles % 2 == 1 {
      r := r.(hasPid := true, pid := buffer[h] as int + buffer[h + 1] as int * P32);
      h := h + 2;
    }
    r := r.(copies := handles / 2 % 16, moves := handles / 0x20 % 16);
    r := r.(copiesAt := h, movesAt := h + r.copies);
    h := h + r.copies + r.moves;
  }

  /**
   `ipc_unpack`: the type and the handles of every packed message are found again, and so are all its counts exactly
   when they fit into their fields; then every part of the message is found again.
   */
  method Unpack(buffer: seq<word>, ghost m: Msg) returns (r: Incoming)
    requires Packed(buffer, m) && |buffer| < 0x8000_0000
    ensures r.kind == m.kind && r.hasPid == m.pid && r.copies == |m.copies| && r.moves == |m.moves|
    ensures m.pid ==> 5 <= |buffer| && r.pid == buffer[3] as int + buffer[4] as int * P32
    ensures var l := LayoutOf(m);
            && (Enabled(m) ==> r.copiesAt == l.copies && r.movesAt == l.moves) && r.xAt == l.x
    ensures r.dataAt % 4 == 0 && r.pre + r.post == 4
    ensures var g, l := Grouped(m.buffers), LayoutOf(m);
            Readable(m) <==>
              && r.x == |g.x| && r.a == |g.a| && r.b == |g.b|
              && r.section == l.c - l.before && r.flags == CFlags(|g.c|)
    ensures var l := LayoutOf(m);
            Readable(m) ==>
              && r.w == 0 && r.aAt == l.a && r.bAt == l.b && r.dataAt == l.data && r.cAt == l.c
              && r.pre == l.data - l.before
  {
    hide Grouped, LayoutOf, Packed, Readable, Align;
    LayoutFacts(m);
    AlignIs(m);
    var h;
    r, h := UnpackHead(buffer, m);
    r := r.(xAt := h, aAt := h + r.x * 2, bAt := h + r.x * 2 + r.a * 3);
    h := h + r.x * 2 + r.a * 3 + r.b * 3 + r.w * 3;
    var before := h;
    h := Align(h);
    r := r.(pre := h - before, post := 4 - (h - before), dataAt := h);
    h := before + r.section;
    r := r.(cAt := h);
  }

  lemma PackedLength(s: seq<word>, m: Msg)
    requires Packed(s, m)
    ensures LayoutOf(m).end <= |s|
  {
    hide Grouped, LayoutOf, FrontIs, BackIs, CAll, FirstError, GroupError, Or, Header1;
  }

  // ----- C descriptors -----

  lemma {:induction false} CAllAt(cs: seq<Buffer>, i: nat)
    requires FirstError(cs, CError) == None && i < |cs|
    ensures CError(cs[i]) == None && CAll(cs)[2 * i..2 * i + 2] == CWords(cs[i])
    decreases |cs|
  {
    hide CWords, CError;
    var before := cs[..|cs| - 1];
    if i < |cs| - 1 {
      CAllAt(before, i);
      assert CAll(cs)[2 * i..2 * i + 2] == CAll(before)[2 * i..2 * i + 2];
    }
  }

  /** In every packed message, the words of C descriptor `i` give back its address and its size. */
  lemma CBufferAt(s: seq<word>, m: Msg, i: nat)
    requires Packed(s, m) && i < |Grouped(m.buffers).c|
    ensures var at, b := LayoutOf(m).c + 2 * i, Grouped(m.buffers).c[i];
            && at + 2 <= LayoutOf(m).end <= |s| && CError(b) == None
            && s[at] as int + s[at + 1] % P16 * P32 == b.addr && s[at + 1] / P16 == b.size
  {
    hide Grouped, LayoutOf, CWords, CError, CAll, FirstError, Packed;
    LayoutFacts(m);
    CPart(s, m);
    var l, cs := LayoutOf(m), Grouped(m.buffers).c;
    CAllAt(cs, i);
    CRead(cs[i]);
    var all, w := s[l.c..l.end], CAll(cs)[2 * i..2 * i + 2];
    assert all[2 * i] == w[0] && all[2 * i + 1] == w[1];
  }

  lemma CPart(s: seq<word>, m: Msg)
    requires Packed(s, m)
    ensures var l, cs := LayoutOf(m), Grouped(m.buffers).c;
            l.end <= |s| && FirstError(cs, CError) == None && l.c <= l.end && s[l.c..l.end] == CAll(cs)
  {
    hide Grouped, LayoutOf, FrontIs, BackIs, CAll, FirstError, GroupError, Or, Header1;
    LayoutFacts(m);
  }

  // ----- messages that are packed and not read right -----

  function Repeated(b: Buffer, n: nat): (r: seq<Buffer>)
    ensures |r| == n
  {
    if n == 0 then [] else Repeated(b, n - 1) + [b]
  }

  lemma PlainKind(b: Buffer)
    requires IsKind(b.kind, 1, 1) || IsKind(b.kind, 2, 2)
    ensures Supported(b.kind) && ToB(b) == ToX(b) == []
    ensures IsKind(b.kind, 1, 1) ==> ToA(b) == [b] && ToC(b) == []
    ensures !IsKind(b.kind, 1, 1) ==> ToA(b) == [] && ToC(b) == [b]
  {
    hide Flagged;
    FlaggedKinds();
  }

  lemma {:induction false} RepeatedGroups(b: Buffer, n: nat)
    requires n <= 16 && (IsKind(b.kind, 1, 1) || IsKind(b.kind, 2, 2))
    ensures GroupError(Repeated(b, n)) == None
    ensures Grouped(Repeated(b, n)) == if IsKind(b.kind, 1, 1) then Groups(Repeated(b, n), [], [], [])
                                       else Groups([], [], Repeated(b, n), [])
    decreases n
  {
    hide IsKind, ToA, ToB, ToC, ToX, Supported;
    if n > 0 {
      RepeatedGroups(b, n - 1);
      assert Repeated(b, n)[..n - 1] == Repeated(b, n - 1);
      PlainKind(b);
    }
  }

  lemma {:induction false} RepeatedErrors(b: Buffer, n: nat, check: Buffer -> Option<Error>)
    requires check(b) == None
    ensures FirstError(Repeated(b, n), check) == None
    decreases n
  {
    if n > 0 {
      RepeatedErrors(b, n - 1, check);
      assert Repeated(b, n)[..n - 1] == Repeated(b, n - 1);
    }
  }

  /** A message with nothing but `n` buffers of one type. */
  function OfBuffers(b: Buffer, n: nat): Msg {
    Msg(4, Repeated(b, n), [], [], false, [])
  }

  const A_BUFFER := Buffer(0x1000, 8, 5)
  const C_BUFFER := Buffer(0x1000, 8, 0x0A)

  /** Sixteen A buffers are packed without an error, and their header is the one of no A and one B buffer. */
  lemma SixteenABuffers()
    ensures PackError(OfBuffers(A_BUFFER, 16)) == None && !Readable(OfBuffers(A_BUFFER, 16))
    ensures |Grouped(OfBuffers(A_BUFFER, 16).buffers).a| == 16
    ensures Header0(4, 0, 16, 0) == Header0(4, 0, 0, 1)
  {
    hide Repeated, Or, Shl, FirstError, GroupError, Grouped;
    RepeatedGroups(A_BUFFER, 16);
    RepeatedErrors(A_BUFFER, 16, ABError);
    NoErrors();
    assert Repeated(A_BUFFER, 16) + [] == Repeated(A_BUFFER, 16);
    SixteenIsOne();
  }

  lemma SixteenIsOne()
    ensures Header0(4, 0, 16, 0) == Header0(4, 0, 0, 1)
  {
    hide Or, Shl;
    ShlZero(16);
    ShlZero(20);
    ShlZero(24);
    OrZero(4);
    OrZero(Or(4, Shl(16, 20)));
    ShlShl(1, 4, 20);
    FourDoublings();
  }

  lemma FourDoublings()
    ensures Shl(1, 4) == 16
  {
  }

  /** Fourteen C buffers are packed without an error, and the receiver reads none. */
  lemma FourteenCBuffers()
    ensures PackError(OfBuffers(C_BUFFER, 14)) == None && !Readable(OfBuffers(C_BUFFER, 14))
    ensures |Grouped(OfBuffers(C_BUFFER, 14).buffers).c| == 14 && CFlags(14) % 16 == CFlags(0)
  {
    hide Repeated, FirstError, GroupError, Grouped;
    RepeatedGroups(C_BUFFER, 14);
    RepeatedErrors(C_BUFFER, 14, LengthError);
    RepeatedErrors(C_BUFFER, 14, CError);
    NoErrors();
    var none: seq<Buffer> := [];
    assert none + none == none;
  }

  lemma NoErrors()
    ensures FirstError([], XError) == None && FirstError([], ABError) == None
    ensures FirstError([], LengthError) == None && FirstError([], CError) == None
  {
  }
}
