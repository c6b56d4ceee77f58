/** `ipc_pack_request` and `ipc_unflatten_request` for session requests without objects. */
module IpcRequest {
  import opened Types
  import opened Bits
  import opened IpcFormat
  import opened IpcPack
  import opened IpcWrite
  import opened IpcMessage

  const SFCI: word := 0x4943_4653

  /** `ipc_request_t` without objects; the raw data is `rawSize` bytes long. */
  datatype Request = Request(
    kind: word, buffers: seq<Buffer>, id: word, raw: seq<word>, rawSize: nat, pid: bool,
    copies: seq<word>, moves: seq<word>)

  /**
   What the source finds wrong with a request, in its order. `HandlesOverrun` is not an error it reports: more than
   sixteen move handles are copied past the end of its array.
   */
  function RequestError(rq: Request): Option<Error> {
    if rq.kind >= P16 then Some(InvalidRequestType)
    else if rq.rawSize % 4 != 0 then Some(InvalidRawDataSize)
    else if |rq.moves| > 16 then Some(HandlesOverrun)
    else if rq.rawSize > 0x200 then Some(InvalidRawDataSize)
    else None
  }

  function MsgOf(rq: Request): Msg
    requires RequestError(rq) == None
  {
    Msg(rq.kind, rq.buffers, rq.copies, rq.moves, rq.pid, [SFCI, 0, rq.id, 0] + rq.raw)
  }

  /** `ipc_pack_request` to a session; without a check, the copy into `moveHandles` would not be inside it. */
  method PackRequest(buffer: array<word>, rq: Request) returns (error: Option<Error>)
    requires |rq.raw| == rq.rawSize / 4
    requires RequestError(rq) == None ==> LayoutOf(MsgOf(rq)).end <= buffer.Length
    modifies buffer
    ensures error == if RequestError(rq).Some? then RequestError(rq) else PackError(MsgOf(rq))
    ensures error == None ==> Packed(buffer[..], MsgOf(rq))
  {
    hide LayoutOf, PackError, Packed;
    if rq.kind / P16 != 0 { return Some(InvalidRequestType); }
    if rq.rawSize % 4 != 0 { return Some(InvalidRawDataSize); }
    var moveHandles := new word[16](_ => 0);
    for i := 0 to |rq.moves|
      invariant i <= 16 && moveHandles[..i] == rq.moves[..i]
    {
      if i == moveHandles.Length { return Some(HandlesOverrun); }
      moveHandles[i] := rq.moves[i];
    }
    if rq.rawSize > 0x200 { return Some(InvalidRawDataSize); }
    var moves := moveHandles[..|rq.moves|];
    assert moves == rq.moves;
    error := PackMessage(buffer, Msg(rq.kind, rq.buffers, rq.copies, moves, rq.pid, [SFCI, 0, rq.id, 0] + rq.raw));
  }

  // ----- reading descriptors -----

  /**
   The request id is word 2 of the data section, where the server takes it from to dispatch the request; the four
   letters of the magic are word 0 and the raw data starts at word 4.
   */
  lemma RequestIdAt(s: seq<word>, rq: Request)
    requires RequestError(rq) == None && Packed(s, MsgOf(rq))
    ensures var at := LayoutOf(MsgOf(rq)).data;
            && at + 4 + |rq.raw| <= |s| && s[at + 2] == rq.id && s[at + 1] == s[at + 3] == 0
            && s[at] == 'S' as int + 'F' as int * 0x100 + 'C' as int * P16 + 'I' as int * 0x100_0000
            && s[at + 4..at + 4 + |rq.raw|] == rq.raw
  {
    hide LayoutOf, Packed;
    var m := MsgOf(rq);
    DataPart(s, m);
    var at := LayoutOf(m).data;
    var d := s[at..at + |m.data|];
    assert d[0] == SFCI && d[1] == 0 && d[2] == rq.id && d[3] == 0 && d[4..] == rq.raw;
    assert s[at + 4..at + 4 + |rq.raw|] == d[4..];
  }

  lemma DataPart(s: seq<word>, m: Msg)
    requires Packed(s, m)
    ensures var l := LayoutOf(m); l.data + |m.data| <= |s| && s[l.data..l.data + |m.data|] == m.data
  {
    hide Grouped, LayoutOf, FrontIs, CAll, FirstError, GroupError, Or, Header1, Lengths;
  }

  /** How the receiver maps the two protection bits of a descriptor back to a type. */
  function TypeMap(prot: nat): (r: nat)
    requires prot < 4
    ensures prot % 2 == 0 ==> r == 0
    ensures prot % 2 == 1 ==> r == (prot + 1) / 2
  {
    [0, 1, 0, 2][prot]
  }

  /** What the receiver makes of an A or B descriptor. */
  function Received(b: Buffer): Buffer
    requires ABError(b) == None
  {
    Buffer(b.addr, b.size, TypeMap(b.kind / 0x40) * 0x40)
  }

  lemma {:induction false} ABAllAt(bs: seq<Buffer>, i: nat)
    requires FirstError(bs, ABError) == None && i < |bs|
    ensures ABError(bs[i]) == None && ABAll(bs)[3 * i..3 * i + 3] == ABWords(bs[i])
    decreases |bs|
  {
    hide ABWords, ABError;
    var before := bs[..|bs| - 1];
    if i < |bs| - 1 {
      ABAllAt(before, i);
      assert ABAll(bs)[3 * i..3 * i + 3] == ABAll(before)[3 * i..3 * i + 3];
    }
  }

  lemma {:induction false} XAllAt(xs: seq<Buffer>, i: nat)
    requires |xs| <= 16 && FirstError(xs, XError) == None && i < |xs|
    ensures XError(xs[i]) == None && XAll(xs)[2 * i..2 * i + 2] == XWords(i, xs[i])
    decreases |xs|
  {
    hide XWords, XError;
    var before := xs[..|xs| - 1];
    if i < |xs| - 1 {
      XAllAt(before, i);
      assert XAll(xs)[2 * i..2 * i + 2] == XAll(before)[2 * i..2 * i + 2];
    }
  }

  /** The words of descriptor `i` in the buffer. */
  lemma ABAt(s: seq<word>, at: nat, bs: seq<Buffer>, i: nat)
    requires FirstError(bs, ABError) == None && i < |bs|
    requires at + 3 * |bs| <= |s| && s[at..at + 3 * |bs|] == ABAll(bs)
    ensures ABError(bs[i]) == None
    ensures var w := ABWords(bs[i]); s[at + 3 * i] == w[0] && s[at + 3 * i + 1] == w[1] && s[at + 3 * i + 2] == w[2]
  {
    hide ABWords, ABError, ABAll, FirstError;
    ABAllAt(bs, i);
    var all, w := s[at..at + 3 * |bs|], ABAll(bs)[3 * i..3 * i + 3];
    assert all[3 * i] == w[0] && all[3 * i + 1] == w[1] && all[3 * i + 2] == w[2];
  }

  lemma XAt(s: seq<word>, at: nat, xs: seq<Buffer>, i: nat)
    requires |xs| <= 16 && FirstError(xs, XError) == None && i < |xs|
    requires at + 2 * |xs| <= |s| && s[at..at + 2 * |xs|] == XAll(xs)
    ensures XError(xs[i]) == None
    ensures var w := XWords(i, xs[i]); s[at + 2 * i] == w[0] && s[at + 2 * i + 1] == w[1]
  {
    hide XWords, XError, XAll, FirstError;
    XAllAt(xs, i);
    var all, w := s[at..at + 2 * |xs|], XAll(xs)[2 * i..2 * i + 2];
    assert all[2 * i] == w[0] && all[2 * i + 1] == w[1];
  }

  /** The loop over the A and B descriptors. */
  method ReadAB(s: seq<word>, at: nat, n: nat, ghost bs: seq<Buffer>) returns (r: seq<Buffer>)
    requires n == |bs| && FirstError(bs, ABError) == None
    requires at + 3 * n <= |s| && s[at..at + 3 * n] == ABAll(bs)
    ensures |r| == n && forall i :: 0 <= i < n ==> ABError(bs[i]) == None && r[i] == Received(bs[i])
  {
    hide ABWords, ABError, ABAll, FirstError;
    r := [];
    var h := at;
    for i := 0 to n
      invariant h == at + 3 * i && |r| == i
      invariant forall k :: 0 <= k < i ==> ABError(bs[k]) == None && r[k] == Received(bs[k])
    {
      ABAt(s, at, bs, i);
      ABRead(bs[i]);
      KindBelow(bs[i]);
      var size, addr, field := s[h], s[h + 1], s[h + 2];
      h := h + 3;
      r := r + [Buffer(addr as int + field / 4 % 8 * P36 + field / 0x1000_0000 % 16 * P32,
                       size as int + field / 0x100_0000 % 16 * P32, TypeMap(field % 4) * 0x40)];
    }
  }

  lemma KindBelow(b: Buffer)
    requires ABError(b) == None
    ensures b.kind / 0x40 < 4
  {
  }

  /** The loop over the X descriptors. */
  method ReadX(s: seq<word>, at: nat, n: nat, ghost xs: seq<Buffer>) returns (r: seq<Buffer>)
    requires n == |xs| <= 16 && FirstError(xs, XError) == None
    requires at + 2 * n <= |s| && s[at..at + 2 * n] == XAll(xs)
    ensures |r| == n && forall i :: 0 <= i < n ==> r[i] == Buffer(xs[i].addr, xs[i].size, 0)
  {
    hide XWords, XError, XAll, FirstError;
    r := [];
    var h := at;
    for i := 0 to n
      invariant h == at + 2 * i && |r| == i
      invariant forall k :: 0 <= k < i ==> r[k] == Buffer(xs[k].addr, xs[k].size, 0)
    {
      XAt(s, at, xs, i);
      XRead(i, xs[i]);
      var field, low := s[h], s[h + 1];
      h := h + 2;
      r := r + [Buffer(field / 0x40 % 8 * P36 + field / 0x1000 % 16 * P32 + low, field / P16, 0)];
    }
  }

  // ----- assigning descriptors to buffers -----

  /** A and B buffers with any protection bits, and buffers of type 0x21. */
  predicate Simple(kind: word) {
    kind == 0x21 || (kind < 0x100 && (kind % 0x40 == 5 || kind % 0x40 == 6))
  }

  predicate AllSimple(bs: seq<Buffer>) {
    forall i :: 0 <= i < |bs| ==> Simple(bs[i].kind)
  }

  lemma SimpleTo(b: Buffer)
    requires Simple(b.kind)
    ensures ToC(b) == [] && ToA(b) == (if b.kind % 0x40 == 6 then [] else [b])
    ensures ToB(b) == (if b.kind % 0x40 == 6 then [b] else []) &&
            ToX(b) == (if b.kind == 0x21 then [NULL_BUFFER] else [])
  {
    var f := b.kind / 0x40;
    if b.kind % 0x40 == 5 {
      assert b.kind / 4 == 1 + 16 * f && b.kind / 0x20 == 2 * f;
    } else if b.kind % 0x40 == 6 {
      assert b.kind / 4 == 1 + 16 * f && b.kind / 0x20 == 2 * f;
    }
  }

  /** The descriptors of the first buffers come first. */
  lemma {:induction false} GroupedPrefix(bs: seq<Buffer>, i: nat)
    requires i <= |bs|
    ensures var g, p := Grouped(bs), Grouped(bs[..i]); p.a <= g.a && p.b <= g.b && p.c <= g.c && p.x <= g.x
    decreases |bs|
  {
    hide ToA, ToB, ToC, ToX;
    if i == |bs| {
      assert bs[..i] == bs;
    } else {
      assert bs[..|bs| - 1][..i] == bs[..i];
      GroupedPrefix(bs[..|bs| - 1], i);
    }
  }

  lemma GroupedNext(bs: seq<Buffer>, i: nat)
    requires i < |bs|
    ensures Grouped(bs[..i + 1]) == Added(Grouped(bs[..i]), bs[i])
  {
    hide ToA, ToB, ToC, ToX, Added;
    assert bs[..i + 1][..i] == bs[..i];
  }

  /** Where the descriptors of buffer `i` stand in the lists. */
  lemma NextDescriptor(bs: seq<Buffer>, i: nat)
    requires i < |bs| && AllSimple(bs)
    ensures var g, p, q, b := Grouped(bs), Grouped(bs[..i]), Grouped(bs[..i + 1]), bs[i];
            && |p.a| <= |g.a| && |p.b| <= |g.b| && |p.x| <= |g.x|
            && (b.kind % 0x40 != 6 ==> |p.a| < |g.a| && g.a[|p.a|] == b && |q.a| == |p.a| + 1 && |q.b| == |p.b|)
            && (b.kind % 0x40 == 6 ==> |p.b| < |g.b| && g.b[|p.b|] == b && |q.b| == |p.b| + 1 && |q.a| == |p.a|)
            && (if b.kind == 0x21 then |p.x| < |g.x| && g.x[|p.x|] == NULL_BUFFER &&
                 |q.x| == |p.x| + 1 else |q.x| == |p.x|)
  {
    hide ToA, ToB, ToC, ToX, Grouped, Simple;
    GroupedNext(bs, i);
    SimpleTo(bs[i]);
    GroupedPrefix(bs, i + 1);
  }

  lemma {:induction false} SimpleHaveNoC(bs: seq<Buffer>)
    requires AllSimple(bs)
    ensures Grouped(bs).c == []
    decreases |bs|
  {
    if bs != [] {
      SimpleHaveNoC(bs[..|bs| - 1]);
      SimpleTo(bs[|bs| - 1]);
    }
  }

  /** The receiver accepts protections 0 and 1 only. */
  predicate Accepted(b: Buffer) {
    b.kind == 0x21 || b.kind < 0x80
  }

  /** What the receiver gets for a buffer. */
  function Delivered(b: Buffer): Buffer {
    if b.kind == 0x21 && b.addr == 0 then Buffer(0, 0, b.kind) else b
  }

  lemma ProtectionIff(b: Buffer)
    requires b.kind < 0x100 && (b.kind % 0x40 == 5 || b.kind % 0x40 == 6)
    ensures b.kind / 0x40 < 4
    ensures b.kind / 0x40 % 4 == TypeMap(b.kind / 0x40) <==> Accepted(b)
    ensures (TypeMap(b.kind / 0x40) * 0x40) / 0x40 % 4 == TypeMap(b.kind / 0x40)
  {
  }

  /** The types of buffers. */
  function KindsOf(bs: seq<Buffer>): seq<word> {
    seq(|bs|, i requires 0 <= i < |bs| => bs[i].kind)
  }

  /** Buffers of these types, as far as the choice of descriptors goes. */
  function Wanted(kinds: seq<word>): seq<Buffer> {
    seq(|kinds|, i requires 0 <= i < |kinds| => Buffer(0, 0, kinds[i]))
  }

  /** The descriptors of a message as the receiver has read them; there are no C descriptors. */
  datatype Lists = Lists(a: seq<Buffer>, b: seq<Buffer>, x: seq<Buffer>)

  /** What an array of descriptors holds at the places that were never written. */
  type Memory = nat -> Buffer

  datatype Choice = Refuse(error: Error) | Take(desc: Buffer)

  /**
   Which descriptor a buffer of type `kind` gets, when as many of each list are used as `used` has. A plain X buffer is
   held against the number of A descriptors, and may so be given one that was never read: `unset`.
   */
  function Choose(kind: word, ls: Lists, used: Groups, unset: Memory): Choice {
    var (a, b, x) := (|used.a|, |used.b|, |used.x|);
    if IsKind(kind, 1, 1) then (if a >= |ls.a| then Refuse(TooManyBuffers) else Take(ls.a[a]))
    else if IsKind(kind, 1, 2) then
      if x >= |ls.a| then Refuse(TooManyBuffers) else if x < |ls.x| then Take(ls.x[x]) else Take(unset(x))
    else if IsKind(kind, 2, 1) then (if b >= |ls.b| then Refuse(TooManyBuffers) else Take(ls.b[b]))
    else if IsKind(kind, 2, 2) || kind == 0x22 then Refuse(TooManyBuffers)
    else if kind == 0x21 then
      if a >= |ls.a| || x >= |ls.x| then Refuse(TooManyBuffers)
      else if ls.a[a].addr != 0 && ls.x[x].addr != 0 then Refuse(Unimplemented)
      else if ls.a[a].addr != 0 then Take(ls.a[a])
      else if ls.x[x].addr != 0 then Take(ls.x[x])
      else Take(NULL_BUFFER)
    else Refuse(UnsupportedBufferType)
  }

  /** A buffer of type 0x21 gets the one of its two descriptors that is not null; the receiver cannot do with two. */
  lemma OneOfTwo(ls: Lists, used: Groups, unset: Memory)
    requires |used.a| < |ls.a| && |used.x| < |ls.x|
    ensures var c, d1, d2 := Choose(0x21, ls, used, unset), ls.a[|used.a|], ls.x[|used.x|];
            && (c == Refuse(Unimplemented) <==> d1.addr != 0 && d2.addr != 0)
            && (c.Take? <==> d1.addr == 0 || d2.addr == 0)
            && (c.Take? ==> c.desc.addr == d1.addr + d2.addr)
            && (c.Take? && c.desc.addr != 0 ==> c.desc == d1 || c.desc == d2)
            && (c.Take? && c.desc.addr == 0 ==> c.desc == NULL_BUFFER)
  {
    hide Flagged;
    FlaggedKinds();
  }

  // ----- the C descriptors of a message -----

  lemma WordsFit(x: word, y: word)
    ensures Or(x, y) < P32
  {
    hide Or, Shl, Pow2;
    Powers();
    OrBound(32, x, y);
  }

  function OrWords(x: word, y: word): (r: word)
    ensures r == Or(x, y)
  {
    WordsFit(x, y);
    Or(x, y)
  }

  /** What the receiver makes of a C descriptor: it puts the high halfword of the address into the low one. */
  function ReceivedC(b: Buffer): Buffer
    requires CError(b) == None
  {
    Buffer(OrWords(b.addr % P32, b.addr / P32), b.size, 0)
  }

  /** The size arrives; the address does exactly when it is below 2^32. */
  lemma ReceivedCIff(b: Buffer)
    requires CError(b) == None
    ensures ReceivedC(b).size == b.size && (ReceivedC(b).addr == b.addr <==> b.addr < P32)
  {
    hide Or, OrWords;
    if b.addr < P32 { OrZero(b.addr); }
  }

  lemma CParts(low: word, field: word, b: Buffer)
    requires low as int + field % P16 * P32 == b.addr
    ensures b.addr % P32 == low && b.addr / P32 == field % P16
  {
    ModIs(b.addr, P32, field % P16, low);
  }

  /** The loop over the C descriptors of a packed message. */
  method ReadC(s: seq<word>, at: nat, n: nat, ghost m: Msg) returns (r: seq<Buffer>)
    requires Packed(s, m) && at == LayoutOf(m).c && n == |Grouped(m.buffers).c|
    ensures |r| == n
    ensures forall i :: 0 <= i < n ==>
              var b := Grouped(m.buffers).c[i]; CError(b) == None && r[i] == ReceivedC(b)
  {
    hide Grouped, LayoutOf, Packed, CError, OrWords;
    r := [];
    var h := at;
    for i := 0 to n
      invariant h == at + 2 * i && |r| == i
      invariant forall k :: 0 <= k < i ==>
                  var b := Grouped(m.buffers).c[k]; CError(b) == None && r[k] == ReceivedC(b)
    {
      CBufferAt(s, m, i);
      var low, field := s[h], s[h + 1];
      CParts(low, field, Grouped(m.buffers).c[i]);
      h := h + 2;
      r := r + [Buffer(OrWords(low, field % P16), field / P16, 0)];
    }
  }

  /** ... and whether its protection is the one the buffer should have. */
  function Checked(kind: word, c: Choice): Choice {
    if c.Take? && kind / 4 % 2 == 1 && kind / 0x40 % 4 != c.desc.kind / 0x40 % 4
        then Refuse(UnexpectedBufferProtection) else c
  }

  /** The choice for the last of these types, the ones before it having had theirs. */
  function LastChoice(kinds: seq<word>, ls: Lists, unset: Memory): Choice
    requires kinds != []
  {
    var kind := kinds[|kinds| - 1];
    Checked(kind, Choose(kind, ls, Grouped(Wanted(kinds[..|kinds| - 1])), unset))
  }

  /** The choice for buffer `i`. */
  function ChoiceFor(kinds: seq<word>, i: nat, ls: Lists, unset: Memory): Choice
    requires i < |kinds|
  {
    LastChoice(kinds[..i + 1], ls, unset)
  }

  /** The first buffer that is refused. */
  function FirstRefusal(kinds: seq<word>, ls: Lists, unset: Memory): Option<Error> {
    if kinds == [] then None
    else
      var before := FirstRefusal(kinds[..|kinds| - 1], ls, unset);
      if before.Some? then before
      else
        match LastChoice(kinds, ls, unset)
        case Refuse(e) => Some(e)
        case Take(_) => None
  }

  /**
   What buffer `i` is left with: the address and size of its descriptor, unless an earlier buffer was refused or there
   is no descriptor for it. A buffer that is refused for its protection has them already.
   */
  function Filled(kinds: seq<word>, i: nat, ls: Lists, unset: Memory): Buffer
    requires i < |kinds|
  {
    if FirstRefusal(kinds[..i], ls, unset).Some? then Buffer(0, 0, kinds[i])
    else
      match Choose(kinds[i], ls, Grouped(Wanted(kinds[..i])), unset)
      case Refuse(_) => Buffer(0, 0, kinds[i])
      case Take(d) => Buffer(d.addr, d.size, kinds[i])
  }

  function FilledAll(kinds: seq<word>, ls: Lists, unset: Memory): seq<Buffer> {
    seq(|kinds|, i requires 0 <= i < |kinds| => Filled(kinds, i, ls, unset))
  }

  lemma {:induction false} RefusalStays(kinds: seq<word>, ls: Lists, unset: Memory, i: nat)
    requires i <= |kinds| && FirstRefusal(kinds[..i], ls, unset).Some?
    ensures FirstRefusal(kinds, ls, unset) == FirstRefusal(kinds[..i], ls, unset)
    decreases |kinds|
  {
    if i == |kinds| {
      assert kinds[..i] == kinds;
    } else {
      hide LastChoice;
      assert kinds[..|kinds| - 1][..i] == kinds[..i];
      RefusalStays(kinds[..|kinds| - 1], ls, unset, i);
    }
  }

  /** Taking a descriptor uses it up. */
  lemma UsedUp(kinds: seq<word>)
    requires kinds != []
    ensures var kind := kinds[|kinds| - 1]; var b := Buffer(0, 0, kind);
            Grouped(Wanted(kinds)) == Added(Grouped(Wanted(kinds[..|kinds| - 1])), b)
  {
    assert Wanted(kinds)[..|kinds| - 1] == Wanted(kinds[..|kinds| - 1]);
  }

  /** One round of the loop: a descriptor, and how many are used after it. */
  method Pick(kind: word, ls: Lists, a0: nat, b0: nat, x0: nat, unset: Memory, ghost used: Groups)
    returns (choice: Choice, a: nat, b: nat, x: nat)
    requires a0 == |used.a| && b0 == |used.b| && x0 == |used.x|
    ensures choice == Choose(kind, ls, used, unset)
    ensures choice.Take? ==>
              var now := Added(used, Buffer(0, 0, kind)); a == |now.a| && b == |now.b| && x == |now.x|
  {
    hide Flagged;
    FlaggedKinds();
    a, b, x := a0, b0, x0;
    var direction, family := kind % 4, kind / 4 % 4;
    if !Flagged(kind) {
      if direction == 1 && family == 1 {
        if a >= |ls.a| { return Refuse(TooManyBuffers), a, b, x; }
        choice, a := Take(ls.a[a]), a + 1;
      } else if direction == 1 && family == 2 {
        if x >= |ls.a| { return Refuse(TooManyBuffers), a, b, x; }
        choice, x := Take(if x < |ls.x| then ls.x[x] else unset(x)), x + 1;
      } else if direction == 2 && family == 1 {
        if b >= |ls.b| { return Refuse(TooManyBuffers), a, b, x; }
        choice, b := Take(ls.b[b]), b + 1;
      } else if direction == 2 && family == 2 {
        choice := Refuse(TooManyBuffers);
      } else {
        choice := Refuse(UnsupportedBufferType);
      }
    } else if kind == 0x21 {
      if a >= |ls.a| || x >= |ls.x| { return Refuse(TooManyBuffers), a, b, x; }
      var d1, d2 := ls.a[a], ls.x[x];
      a, x := a + 1, x + 1;
      if d1.addr != 0 {
        choice := if d2.addr != 0 then Refuse(Unimplemented) else Take(d1);
      } else if d2.addr != 0 {
        choice := Take(d2);
      } else {
        choice := Take(NULL_BUFFER);
      }
    } else if kind == 0x22 {
      choice := Refuse(TooManyBuffers);
    } else {
      choice := Refuse(UnsupportedBufferType);
    }
  }

  /** The loops that clear and fill in the receiver's buffers, whatever their types. */
  method Assign(kinds: seq<word>, ls: Lists, unset: Memory) returns (error: Option<Error>, r: seq<Buffer>)
    ensures error == FirstRefusal(kinds, ls, unset) && r == FilledAll(kinds, ls, unset)
  {
    hide Grouped, Choose, Added, Filled;
    r, error := Wanted(kinds), None;
    var a, b, x := 0, 0, 0;
    NothingWanted(kinds);
    for i := 0 to |kinds|
      invariant var p := Grouped(Wanted(kinds[..i])); a == |p.a| && b == |p.b| && x == |p.x|
      invariant error == None && |r| == |kinds| && FirstRefusal(kinds[..i], ls, unset) == None
      invariant forall k :: 0 <= k < i ==> r[k] == Filled(kinds, k, ls, unset)
      invariant forall k :: i <= k < |kinds| ==> r[k] == Buffer(0, 0, kinds[k])
    {
      ghost var upTo := kinds[..i + 1];
      assert upTo[..i] == kinds[..i];
      UsedUp(upTo);
      FilledNext(kinds, i, ls, unset);
      var choice;
      choice, a, b, x := Pick(kinds[i], ls, a, b, x, unset, Grouped(Wanted(kinds[..i])));
      if choice.Refuse? {
        RefusedFrom(kinds, i, ls, unset);
        return Some(choice.error), r;
      }
      r := r[i := Buffer(choice.desc.addr, choice.desc.size, kinds[i])];
      if kinds[i] / 4 % 2 == 1 && kinds[i] / 0x40 % 4 != choice.desc.kind / 0x40 % 4 {
        RefusedFrom(kinds, i, ls, unset);
        return Some(UnexpectedBufferProtection), r;
      }
    }
    assert kinds[..|kinds|] == kinds;
  }

  lemma FilledNext(kinds: seq<word>, i: nat, ls: Lists, unset: Memory)
    requires i < |kinds| && FirstRefusal(kinds[..i], ls, unset) == None
    ensures Filled(kinds, i, ls, unset) ==
            match Choose(kinds[i], ls, Grouped(Wanted(kinds[..i])), unset)
            case Refuse(_) => Buffer(0, 0, kinds[i])
            case Take(d) => Buffer(d.addr, d.size, kinds[i])
  {
  }

  /** Behind a refused buffer nothing is filled in. */
  lemma RefusedFrom(kinds: seq<word>, i: nat, ls: Lists, unset: Memory)
    requires i < |kinds| && FirstRefusal(kinds[..i + 1], ls, unset).Some?
    ensures FirstRefusal(kinds, ls, unset) == FirstRefusal(kinds[..i + 1], ls, unset)
    ensures forall k :: i < k < |kinds| ==> Filled(kinds, k, ls, unset) == Buffer(0, 0, kinds[k])
  {
    RefusalStays(kinds, ls, unset, i + 1);
    forall k | i < k < |kinds|
      ensures Filled(kinds, k, ls, unset) == Buffer(0, 0, kinds[k])
    {
      assert kinds[..k][..i + 1] == kinds[..i + 1];
      RefusalStays(kinds[..k], ls, unset, i + 1);
    }
  }

  /** When nothing is refused, every buffer has the descriptor chosen for it. */
  lemma FilledIs(kinds: seq<word>, i: nat, ls: Lists, unset: Memory)
    requires i < |kinds| && FirstRefusal(kinds, ls, unset) == None
    ensures var c := ChoiceFor(kinds, i, ls, unset);
            c.Take? && Filled(kinds, i, ls, unset) == Buffer(c.desc.addr, c.desc.size, kinds[i])
  {
    hide Choose, Grouped;
    if FirstRefusal(kinds[..i + 1], ls, unset).Some? { RefusalStays(kinds, ls, unset, i + 1); }
    if FirstRefusal(kinds[..i], ls, unset).Some? { RefusalStays(kinds, ls, unset, i); }
    assert kinds[..i + 1][..i] == kinds[..i];
  }

  // ----- descriptors that were never read -----

  /** A plain X buffer for which there is no X descriptor, but an A descriptor of the same number. */
  predicate Unread(kinds: seq<word>, i: nat, ls: Lists)
    requires i < |kinds|
  {
    IsKind(kinds[i], 1, 2) && |ls.x| <= |Grouped(Wanted(kinds[..i])).x| < |ls.a|
  }

  /** A choice depends on memory that was never written exactly for such a buffer, which is never refused. */
  lemma ChoiceDepends(kinds: seq<word>, i: nat, ls: Lists)
    requires i < |kinds|
    ensures (forall u: Memory, v: Memory :: ChoiceFor(kinds, i, ls, u) == ChoiceFor(kinds, i, ls, v)) <==>
            !Unread(kinds, i, ls)
    ensures forall u: Memory :: Unread(kinds, i, ls) ==>
              ChoiceFor(kinds, i, ls, u) == Take(u(|Grouped(Wanted(kinds[..i])).x|))
  {
    hide Grouped;
    assert kinds[..i + 1][..i] == kinds[..i];
    XIsUnchecked(kinds[i]);
    if Unread(kinds, i, ls) {
      var u: Memory, v: Memory := _ => Buffer(0, 0, 0), _ => Buffer(1, 0, 0);
      assert ChoiceFor(kinds, i, ls, u) != ChoiceFor(kinds, i, ls, v);
    }
  }

  lemma XIsUnchecked(kind: word)
    ensures IsKind(kind, 1, 2) ==> kind / 4 % 2 == 0 && !IsKind(kind, 1, 1)
  {
  }

  /** What is refused does not depend on it. */
  lemma {:induction false} RefusalIsFixed(kinds: seq<word>, ls: Lists, u: Memory, v: Memory)
    ensures FirstRefusal(kinds, ls, u) == FirstRefusal(kinds, ls, v)
    decreases |kinds|
  {
    if kinds != [] {
      var i := |kinds| - 1;
      hide LastChoice, Unread, Grouped;
      RefusalIsFixed(kinds[..i], ls, u, v);
      ChoiceDepends(kinds, i, ls);
      assert kinds[..i + 1] == kinds;
    }
  }

  /** ... and before which no other buffer is refused. */
  predicate Stray(kinds: seq<word>, i: nat, ls: Lists)
    requires i < |kinds|
  {
    Unread(kinds, i, ls) && FirstRefusal(kinds[..i], ls, _ => NULL_BUFFER) == None
  }

  /** What a buffer is left with depends on memory that was never written exactly for these. */
  lemma FilledDepends(kinds: seq<word>, i: nat, ls: Lists)
    requires i < |kinds|
    ensures (forall u: Memory, v: Memory :: Filled(kinds, i, ls, u) == Filled(kinds, i, ls, v)) <==>
            !Stray(kinds, i, ls)
  {
    hide Grouped, FirstRefusal;
    forall u: Memory
      ensures FirstRefusal(kinds[..i], ls, u) == FirstRefusal(kinds[..i], ls, _ => NULL_BUFFER)
    {
      RefusalIsFixed(kinds[..i], ls, u, _ => NULL_BUFFER);
    }
    XIsUnchecked(kinds[i]);
    if Stray(kinds, i, ls) {
      var u: Memory, v: Memory := _ => Buffer(0, 0, 0), _ => Buffer(1, 0, 0);
      assert Filled(kinds, i, ls, u) != Filled(kinds, i, ls, v);
    }
  }

  /** The whole of it does exactly when there is such a buffer. */
  lemma AllFilledDepends(kinds: seq<word>, ls: Lists)
    ensures (forall u: Memory, v: Memory :: FilledAll(kinds, ls, u) == FilledAll(kinds, ls, v)) <==>
            forall i :: 0 <= i < |kinds| ==> !Stray(kinds, i, ls)
  {
    hide Filled, Stray;
    if forall i :: 0 <= i < |kinds| ==> !Stray(kinds, i, ls) {
      forall u: Memory, v: Memory
        ensures FilledAll(kinds, ls, u) == FilledAll(kinds, ls, v)
      {
        forall i | 0 <= i < |kinds|
          ensures Filled(kinds, i, ls, u) == Filled(kinds, i, ls, v)
        {
          FilledDepends(kinds, i, ls);
        }
      }
    } else {
      var i :| 0 <= i < |kinds| && Stray(kinds, i, ls);
      FilledDepends(kinds, i, ls);
      var u: Memory, v: Memory :| Filled(kinds, i, ls, u) != Filled(kinds, i, ls, v);
      assert FilledAll(kinds, ls, u)[i] != FilledAll(kinds, ls, v)[i];
    }
  }

  lemma NothingWanted(kinds: seq<word>)
    ensures Grouped(Wanted(kinds[..0])) == Groups([], [], [], [])
  {
  }

  lemma SimpleBit(b: Buffer)
    requires Simple(b.kind)
    ensures b.kind / 4 % 2 == 1 <==> b.kind != 0x21
    ensures b.kind != 0x21 ==> b.kind < 0x100 && (b.kind % 0x40 == 5 || b.kind % 0x40 == 6)
  {
    var f := b.kind / 0x40;
    if b.kind != 0x21 {
      assert b.kind / 4 == 1 + 16 * f;
    }
  }

  // ----- types that are those sent -----

  function ReceivedAll(bs: seq<Buffer>): seq<Buffer> {
    seq(|bs|, i requires 0 <= i < |bs| => if ABError(bs[i]) == None then Received(bs[i]) else NULL_BUFFER)
  }

  /** The lists the receiver reads from a message with these buffers. */
  function SentLists(bs: seq<Buffer>): Lists {
    var g := Grouped(bs);
    Lists(ReceivedAll(g.a), ReceivedAll(g.b), g.x)
  }

  /** Expecting the types that were sent uses up the descriptors as they were made. */
  lemma {:induction false} SameSizes(bs: seq<Buffer>)
    ensures var g, w := Grouped(bs), Grouped(Wanted(KindsOf(bs)));
            |g.a| == |w.a| && |g.b| == |w.b| && |g.c| == |w.c| && |g.x| == |w.x|
    decreases |bs|
  {
    hide Grouped, ToA, ToB, ToC, ToX;
    if bs == [] {
      NothingGrouped();
      assert KindsOf(bs) == [] && Wanted([]) == [];
    } else {
      var before, last := bs[..|bs| - 1], bs[|bs| - 1];
      SameSizes(before);
      assert KindsOf(bs)[..|bs| - 1] == KindsOf(before);
      UsedUp(KindsOf(bs));
      GroupedNext(bs, |bs| - 1);
      assert bs[..|bs|] == bs;
      KindDecides(last, Buffer(0, 0, last.kind));
    }
  }

  lemma NothingGrouped()
    ensures Grouped([]) == Groups([], [], [], [])
  {
  }

  /** Which descriptors a buffer becomes depends on its type alone. */
  lemma KindDecides(b: Buffer, c: Buffer)
    requires b.kind == c.kind
    ensures |ToA(b)| == |ToA(c)| && |ToB(b)| == |ToB(c)| && |ToC(b)| == |ToC(c)| && |ToX(b)| == |ToX(c)|
  {
    hide IsKind;
  }

  /** Then a buffer gets its own descriptor, and is refused exactly when its protection is above 1. */
  lemma OwnDescriptor(bs: seq<Buffer>, i: nat, unset: Memory)
    requires i < |bs| && AllSimple(bs) && ABError(bs[i]) == None
    ensures var c := ChoiceFor(KindsOf(bs), i, SentLists(bs), unset);
            if Accepted(bs[i]) then
              c.Take? && c.desc.addr == Delivered(bs[i]).addr && c.desc.size == Delivered(bs[i]).size
            else
              c == Refuse(UnexpectedBufferProtection)
  {
    hide Grouped, ABError, Flagged;
    var upTo := KindsOf(bs)[..i + 1];
    assert upTo[..i] == KindsOf(bs[..i]);
    SameSizes(bs[..i]);
    NextDescriptor(bs, i);
    SimpleKinds(bs[i]);
    SimpleBit(bs[i]);
    if bs[i].kind != 0x21 { ProtectionIff(bs[i]); }
  }

  lemma SimpleKinds(b: Buffer)
    requires Simple(b.kind)
    ensures b.kind == 0x21 <==> !(IsKind(b.kind, 1, 1) || IsKind(b.kind, 2, 1))
    ensures b.kind != 0x21 ==> (b.kind % 0x40 == 6 <==> IsKind(b.kind, 2, 1))
    ensures !IsKind(b.kind, 1, 2) && !IsKind(b.kind, 2, 2)
  {
    SimpleTo(b);
  }

  lemma {:induction false} MatchedKinds(bs: seq<Buffer>, k: nat, unset: Memory)
    requires k <= |bs| && AllSimple(bs) && forall i :: 0 <= i < |bs| ==> ABError(bs[i]) == None
    ensures FirstRefusal(KindsOf(bs)[..k], SentLists(bs), unset) ==
            if forall i :: 0 <= i < k ==> Accepted(bs[i]) then None else Some(UnexpectedBufferProtection)
    decreases k
  {
    hide SentLists, Accepted, ABError, Simple, FirstRefusal, ChoiceFor, KindsOf;
    KindsSize(bs);
    NoneRefused(KindsOf(bs), SentLists(bs), unset);
    if k > 0 {
      MatchedKinds(bs, k - 1, unset);
      RefusalNext(KindsOf(bs), k, SentLists(bs), unset);
      OwnDescriptor(bs, k - 1, unset);
    }
  }

  lemma NoneRefused(kinds: seq<word>, ls: Lists, unset: Memory)
    ensures FirstRefusal(kinds[..0], ls, unset) == None
  {
  }

  lemma KindsSize(bs: seq<Buffer>)
    ensures |KindsOf(bs)| == |bs|
  {
  }

  lemma RefusalNext(kinds: seq<word>, k: nat, ls: Lists, unset: Memory)
    requires 0 < k <= |kinds|
    ensures FirstRefusal(kinds[..k], ls, unset) ==
            var before := FirstRefusal(kinds[..k - 1], ls, unset);
            if before.Some? then before
            else
              match ChoiceFor(kinds, k - 1, ls, unset)
              case Refuse(e) => Some(e)
              case Take(_) => None
  {
    hide LastChoice;
    assert kinds[..k][..k - 1] == kinds[..k - 1];
  }

  /** Simple buffers that can be packed have no errors. */
  lemma {:induction false} SimpleErrors(bs: seq<Buffer>, i: nat)
    requires AllSimple(bs) && i < |bs| && FirstError(Grouped(bs).a + Grouped(bs).b, ABError) == None
    ensures ABError(bs[i]) == None
  {
    hide Grouped, ABError, FirstError;
    NextDescriptor(bs, i);
    var g, p := Grouped(bs), Grouped(bs[..i]);
    if bs[i].kind % 0x40 == 6 {
      NoErrorAt(g.a + g.b, |g.a| + |p.b|);
    } else {
      NoErrorAt(g.a + g.b, |p.a|);
    }
  }

  lemma {:induction false} NoErrorAt(bs: seq<Buffer>, i: nat)
    requires FirstError(bs, ABError) == None && i < |bs|
    ensures ABError(bs[i]) == None
    decreases |bs|
  {
    hide ABError;
    if i < |bs| - 1 { NoErrorAt(bs[..|bs| - 1], i); }
  }

  // ----- the receiver -----

  /** `ipc_request_fmt_t` without objects: what the receiver expects. */
  datatype Format = Format(kinds: seq<word>, rawSize: nat, pid: bool, copies: nat, moves: nat)

  datatype Unflattened = Unflattened(buffers: seq<Buffer>, copies: seq<word>, moves: seq<word>, raw: seq<word>)

  /** What the receiver finds wrong before it comes to the buffers. */
  function EarlyRefusal(rq: Request, fmt: Format): Option<Error> {
    if fmt.rawSize % 4 != 0 then Some(InvalidRawDataSize)
    else if fmt.pid != rq.pid then Some(UnexpectedPid)
    else if fmt.copies != |rq.copies| then Some(UnexpectedCopyHandles)
    else if fmt.moves != |rq.moves| then Some(UnexpectedMoveHandles)
    else None
  }

  /** What keeps a receiver from taking a request, in the order it looks. */
  function Refusal(rq: Request, fmt: Format, unset: Memory): Option<Error> {
    var early, refused := EarlyRefusal(rq, fmt), FirstRefusal(fmt.kinds, SentLists(rq.buffers), unset);
    if early.Some? then early
    else if refused.Some? then refused
    else if fmt.rawSize != rq.rawSize then Some(UnexpectedRawDataSize)
    else None
  }

  /** What the receiver is left with; the buffers are filled in before the handles and the raw data. */
  function Outcome(rq: Request, fmt: Format, unset: Memory): Unflattened {
    if EarlyRefusal(rq, fmt).Some? then Unflattened([], [], [], [])
    else
      var buffers := FilledAll(fmt.kinds, SentLists(rq.buffers), unset);
      if Refusal(rq, fmt, unset).Some? then Unflattened(buffers, [], [], [])
      else Unflattened(buffers, rq.copies, rq.moves, rq.raw)
  }

  /**
   What the receiver answers never depends on memory that was never written; what it is left with does exactly when it
   comes to its buffers and one of them is a plain X buffer without an X descriptor, before which none is refused.
   */
  lemma OutcomeDepends(rq: Request, fmt: Format)
    ensures forall u: Memory, v: Memory :: Refusal(rq, fmt, u) == Refusal(rq, fmt, v)
    ensures (forall u: Memory, v: Memory :: Outcome(rq, fmt, u) == Outcome(rq, fmt, v)) <==>
            (EarlyRefusal(rq, fmt) == None ==>
               forall i :: 0 <= i < |fmt.kinds| ==> !Stray(fmt.kinds, i, SentLists(rq.buffers)))
  {
    hide FilledAll, Stray, SentLists, FirstRefusal, EarlyRefusal;
    var ls := SentLists(rq.buffers);
    forall u: Memory, v: Memory
      ensures FirstRefusal(fmt.kinds, ls, u) == FirstRefusal(fmt.kinds, ls, v)
    {
      RefusalIsFixed(fmt.kinds, ls, u, v);
    }
    AllFilledDepends(fmt.kinds, ls);
    if EarlyRefusal(rq, fmt) == None && exists i :: 0 <= i < |fmt.kinds| && Stray(fmt.kinds, i, ls) {
      var u: Memory, v: Memory :| FilledAll(fmt.kinds, ls, u) != FilledAll(fmt.kinds, ls, v);
      assert Outcome(rq, fmt, u) != Outcome(rq, fmt, v);
    }
  }

  /** A request with one A buffer, and a receiver that expects a plain X buffer. */
  const ONE_A := Request(4, [Buffer(0x1000, 8, 5)], 0, [], 0, false, [], [])
  const ONE_X := Format([9], 0, false, 0, 0)

  /** It is packed and taken without an error, and the receiver has an address and a size that were never sent. */
  lemma XForAIsStray(unset: Memory)
    ensures RequestError(ONE_A) == None && PackError(MsgOf(ONE_A)) == None && Refusal(ONE_A, ONE_X, unset) == None
    ensures Outcome(ONE_A, ONE_X, unset).buffers == [Buffer(unset(0).addr, unset(0).size, 9)]
  {
    var bs := ONE_A.buffers;
    assert bs[..0] == [] && Wanted([9])[..0] == [] && Wanted([]) == [];
    assert Grouped(bs) == Groups(bs, [], [], []);
    assert bs + [] == bs;
    assert SentLists(bs).a == [Buffer(0x1000, 8, 0)] && SentLists(bs).x == [];
    assert [9][..0] == [];
    assert Choose(9, SentLists(bs), Groups([], [], [], []), unset) == Take(unset(0));
  }

  /** When it expects the types that were sent, it has the buffers that were sent, and refuses protections above 1. */
  lemma ArrivedAsSent(rq: Request, fmt: Format, unset: Memory)
    requires AllSimple(rq.buffers) && fmt.kinds == KindsOf(rq.buffers)
    requires FirstError(Grouped(rq.buffers).a + Grouped(rq.buffers).b, ABError) == None
    ensures FirstRefusal(fmt.kinds, SentLists(rq.buffers), unset) ==
            if forall i :: 0 <= i < |rq.buffers| ==> Accepted(rq.buffers[i])
                then None else Some(UnexpectedBufferProtection)
    ensures Refusal(rq, fmt, unset) == None ==>
              Outcome(rq, fmt, unset) == Unflattened(DeliveredAll(rq.buffers), rq.copies, rq.moves, rq.raw)
  {
    hide Grouped, FirstError, ABError, ChoiceFor, SentLists, Simple, FirstRefusal, Accepted, Delivered, Filled;
    var bs := rq.buffers;
    forall i | 0 <= i < |bs|
      ensures ABError(bs[i]) == None
    {
      SimpleErrors(bs, i);
    }
    MatchedKinds(bs, |bs|, unset);
    assert KindsOf(bs)[..|bs|] == KindsOf(bs);
    if FirstRefusal(fmt.kinds, SentLists(bs), unset) == None {
      forall i | 0 <= i < |bs|
        ensures Filled(KindsOf(bs), i, SentLists(bs), unset) == Delivered(bs[i])
      {
        OwnDescriptor(bs, i, unset);
        DeliveredKind(bs[i]);
        FilledIs(KindsOf(bs), i, SentLists(bs), unset);
      }
      assert FilledAll(KindsOf(bs), SentLists(bs), unset) == DeliveredAll(bs);
    }
  }

  function DeliveredAll(bs: seq<Buffer>): seq<Buffer> {
    seq(|bs|, i requires 0 <= i < |bs| => Delivered(bs[i]))
  }

  lemma DeliveredKind(b: Buffer)
    ensures Delivered(b).kind == b.kind
  {
  }

  /** The parts of a packed request, as slices of the buffer. */
  lemma RequestParts(s: seq<word>, rq: Request)
    requires RequestError(rq) == None && Packed(s, MsgOf(rq)) && AllSimple(rq.buffers)
    ensures var m := MsgOf(rq); var g, l := Grouped(m.buffers), LayoutOf(m);
            && |g.x| <= 16 && FirstError(g.x, XError) == None && FirstError(g.a + g.b, ABError) == None
            && l.end <= |s| && l.c <= |s| && l.x <= l.a <= l.before && l.data + |m.data| <= |s|
            && l.a == l.x + 2 * |g.x| && l.before == l.a + 3 * |g.a + g.b| && l.c - l.before == |m.data| + 4
            && l.copies + |m.copies| == l.moves && l.moves + |m.moves| == l.x <= |s|
            && s[l.x..l.a] == XAll(g.x) && s[l.a..l.before] == ABAll(g.a + g.b)
            && s[l.data..l.data + |m.data|] == m.data
            && s[l.copies..l.moves] == m.copies && s[l.moves..l.x] == m.moves
            && |m.copies| < 16 && |m.moves| < 16 && g.c == []
  {
    hide Grouped, LayoutOf, XAll, ABAll, FirstError, Header0, HandleWord, Header1, Or, CAll, GroupError, Lengths,
      HalfAt;
    LayoutFacts(MsgOf(rq));
    SimpleHaveNoC(rq.buffers);
    NoLengths();
  }

  lemma NoLengths()
    ensures Lengths([]) == []
  {
  }

  /** Simple buffers have null X descriptors only. */
  lemma {:induction false} SimpleXIsNull(bs: seq<Buffer>, i: nat)
    requires AllSimple(bs) && i < |Grouped(bs).x|
    ensures Grouped(bs).x[i] == NULL_BUFFER
    decreases |bs|
  {
    if bs != [] {
      var before := bs[..|bs| - 1];
      SimpleTo(bs[|bs| - 1]);
      if i < |Grouped(before).x| { SimpleXIsNull(before, i); }
    }
  }

  /** Both descriptor loops together. */
  method ReadLists(s: seq<word>, r: Incoming, ghost rq: Request) returns (ls: Lists)
    requires RequestError(rq) == None && Packed(s, MsgOf(rq)) && AllSimple(rq.buffers)
    requires var m := MsgOf(rq); var g, l := Grouped(m.buffers), LayoutOf(m);
             r.x == |g.x| && r.a == |g.a| && r.b == |g.b| && r.xAt == l.x && r.aAt == l.a
    ensures ls == SentLists(rq.buffers)
  {
    hide Grouped, LayoutOf, Packed, XAll, ABAll, FirstError, ABError;
    RequestParts(s, rq);
    ghost var g := Grouped(rq.buffers);
    var x := ReadX(s, r.xAt, r.x, g.x);
    forall i | 0 <= i < |g.x|
      ensures x[i] == g.x[i]
    {
      SimpleXIsNull(rq.buffers, i);
    }
    var ab := ReadAB(s, r.aAt, r.a + r.b, g.a + g.b);
    assert forall i :: 0 <= i < |g.a| ==> (g.a + g.b)[i] == g.a[i];
    assert forall i :: 0 <= i < |g.b| ==> (g.a + g.b)[|g.a| + i] == g.b[i];
    ls := Lists(ab[..r.a], ab[r.a..], x);
    assert ls.a == ReceivedAll(g.a) && ls.b == ReceivedAll(g.b) && ls.x == g.x;
  }

  /**
   `ipc_unflatten_request` at the other end of a session: for every expectation of the receiver, the request is refused
   for the first thing that is not as expected, and otherwise its buffers, handles and raw data arrive.
   */
  method Unflatten(s: seq<word>, r: Incoming, fmt: Format, unset: Memory, ghost rq: Request)
    returns (error: Option<Error>, got: Unflattened)
    requires RequestError(rq) == None && Packed(s, MsgOf(rq)) && AllSimple(rq.buffers) && |rq.raw| == rq.rawSize / 4
    requires var m := MsgOf(rq); var g, l := Grouped(m.buffers), LayoutOf(m);
             && r.x == |g.x| && r.a == |g.a| && r.b == |g.b| && r.section == l.c - l.before
             && r.hasPid == m.pid && r.copies == |m.copies| && r.moves == |m.moves|
             && (Enabled(m) ==> r.copiesAt == l.copies && r.movesAt == l.moves)
             && r.xAt == l.x && r.aAt == l.a && r.dataAt == l.data
    ensures error == Refusal(rq, fmt, unset) && got == Outcome(rq, fmt, unset)
  {
    hide Grouped, LayoutOf, Packed, XAll, ABAll, FirstError, FirstRefusal, FilledAll, SentLists, AllSimple;
    got := Unflattened([], [], [], []);
    RequestParts(s, rq);
    RequestIdAt(s, rq);
    if fmt.rawSize % 4 != 0 { return Some(InvalidRawDataSize), got; }
    var words := fmt.rawSize / 4;
    if s[r.dataAt] != SFCI { assert false; }
    if r.hasPid != fmt.pid { return Some(UnexpectedPid), got; }
    if r.copies != fmt.copies { return Some(UnexpectedCopyHandles), got; }
    if r.moves != fmt.moves { return Some(UnexpectedMoveHandles), got; }
    var ls := ReadLists(s, r, rq);
    var bufs;
    error, bufs := Assign(fmt.kinds, ls, unset);
    got := Unflattened(bufs, [], [], []);
    if error.Some? { return; }
    if r.section - 4 - 4 != words { return Some(UnexpectedRawDataSize), got; }
    var copies := CopyOut(s, r.copiesAt, fmt.copies);
    var moves := CopyOut(s, r.movesAt, fmt.moves);
    var raw := CopyOut(s, r.dataAt + 4, words);
    got := Unflattened(bufs, copies, moves, raw);
  }

  /** A loop that copies words out of the buffer. */
  method CopyOut(s: seq<word>, at: nat, n: nat) returns (r: seq<word>)
    requires n > 0 ==> at + n <= |s|
    ensures |r| == n && (n > 0 ==> r == s[at..at + n])
  {
    r := [];
    for i := 0 to n
      invariant |r| == i && (i > 0 ==> r == s[at..at + i])
    {
      r := r + [s[at + i]];
    }
  }

  lemma RequestReadable(rq: Request)
    requires RequestError(rq) == None && AllSimple(rq.buffers) && |rq.raw| == rq.rawSize / 4
    requires PackError(MsgOf(rq)) == None
    ensures var g := Grouped(rq.buffers);
            Readable(MsgOf(rq)) <==> |g.a| <= 15 && |g.b| <= 15 && |g.x| <= 15
    ensures LayoutOf(MsgOf(rq)).end < 0x8000_0000
  {
    hide Grouped, LayoutOf, Lengths, FirstError, GroupError;
    LayoutFacts(MsgOf(rq));
    CopiesAt(MsgOf(rq));
    SimpleHaveNoC(rq.buffers);
    GroupsBounded(rq.buffers);
    NoLengths();
  }

  /**
   A session request from one end to the other: packed, unpacked and unflattened, it arrives, or the sender or the
   receiver says what is wrong with it. To a receiver that expects the types that were sent it arrives as it was sent,
   except that a null buffer of type 0x21 loses its size.
   */
  method SendAndReceive(rq: Request, fmt: Format, unset: Memory) returns (error: Option<Error>, got: Unflattened)
    requires |rq.raw| == rq.rawSize / 4 && AllSimple(rq.buffers)
    requires var g := Grouped(rq.buffers); |g.a| <= 15 && |g.b| <= 15 && |g.x| <= 15
    ensures error == if RequestError(rq).Some? then RequestError(rq)
                     else if PackError(MsgOf(rq)).Some? then PackError(MsgOf(rq))
                     else Refusal(rq, fmt, unset)
    ensures RequestError(rq) == None && PackError(MsgOf(rq)) == None ==> got == Outcome(rq, fmt, unset)
    ensures error == None && fmt.kinds == KindsOf(rq.buffers) ==>
              got == Unflattened(DeliveredAll(rq.buffers), rq.copies, rq.moves, rq.raw)
  {
    hide Grouped, LayoutOf, Packed, Readable, PackError, Refusal, Delivered, AllSimple, Outcome, FirstError;
    got := Unflattened([], [], [], []);
    if RequestError(rq).Some? { return RequestError(rq), got; }
    var buffer := new word[LayoutOf(MsgOf(rq)).end](_ => 0);
    error := PackRequest(buffer, rq);
    if error.Some? { return; }
    RequestReadable(rq);
    RequestParts(buffer[..], rq);
    var r := Unpack(buffer[..], MsgOf(rq));
    error, got := Unflatten(buffer[..], r, fmt, unset, rq);
    if error == None && fmt.kinds == KindsOf(rq.buffers) { ArrivedAsSent(rq, fmt, unset); }
  }
}
