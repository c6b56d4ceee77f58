/** The parts of a message, written one behind the other into a buffer of words. */
module IpcWrite {
  import opened Types
  import opened IpcFormat
  import opened IpcPack

  /** A sequence with `ws` written over it from `h` on. */
  function Put(s: seq<word>, h: nat, ws: seq<word>): (r: seq<word>)
    requires h + |ws| <= |s|
    ensures |r| == |s|
  {
    s[..h] + ws + s[h + |ws|..]
  }

  lemma PutTwice(s: seq<word>, h: nat, u: seq<word>, v: seq<word>)
    requires h + |u| + |v| <= |s|
    ensures Put(Put(s, h, u), h + |u|, v) == Put(s, h, u + v)
  {
  }

  lemma PutOne(s: seq<word>, h: nat, w: word)
    requires h < |s|
    ensures Put(s, h, [w]) == s[h := w]
  {
  }

  /** Writing leaves what lies before and behind, and what was written can be read. */
  lemma PutKeeps(s: seq<word>, h: nat, ws: seq<word>, i: nat, j: nat)
    requires h + |ws| <= |s| && i <= j <= |s|
    ensures j <= h || h + |ws| <= i ==> Put(s, h, ws)[i..j] == s[i..j]
    ensures Put(s, h, ws)[h..h + |ws|] == ws
  {
  }

  /** The first error in a list. */
  function FirstError(bs: seq<Buffer>, check: Buffer -> Option<Error>): Option<Error> {
    if bs == [] then None
    else
      var before := FirstError(bs[..|bs| - 1], check);
      if before.Some? then before else check(bs[|bs| - 1])
  }

  lemma {:induction false} FirstErrorStays(bs: seq<Buffer>, check: Buffer -> Option<Error>, i: nat)
    requires i <= |bs| && FirstError(bs[..i], check).Some?
    ensures FirstError(bs, check) == FirstError(bs[..i], check)
    decreases |bs|
  {
    if i == |bs| {
      assert bs[..i] == bs;
    } else {
      assert bs[..|bs| - 1][..i] == bs[..i];
      FirstErrorStays(bs[..|bs| - 1], check, i);
    }
  }

  function XAll(xs: seq<Buffer>): (r: seq<word>)
    requires |xs| <= 16 && FirstError(xs, XError) == None
    ensures |r| == 2 * |xs|
  {
    if xs == [] then [] else XAll(xs[..|xs| - 1]) + XWords(|xs| - 1, xs[|xs| - 1])
  }

  function ABAll(bs: seq<Buffer>): (r: seq<word>)
    requires FirstError(bs, ABError) == None
    ensures |r| == 3 * |bs|
  {
    if bs == [] then [] else ABAll(bs[..|bs| - 1]) + ABWords(bs[|bs| - 1])
  }

  function CAll(cs: seq<Buffer>): (r: seq<word>)
    requires FirstError(cs, CError) == None
    ensures |r| == 2 * |cs|
  {
    if cs == [] then [] else CAll(cs[..|cs| - 1]) + CWords(cs[|cs| - 1])
  }

  /** A loop that copies words into the buffer. */
  method WriteWords(buffer: array<word>, h0: nat, ws: seq<word>) returns (h: nat)
    requires h0 + |ws| <= buffer.Length
    modifies buffer
    ensures h == h0 + |ws| && buffer[..] == Put(old(buffer[..]), h0, ws)
  {
    hide Put;
    h := h0;
    PutNothing(buffer[..], h0);
    for i := 0 to |ws|
      invariant h == h0 + i && buffer[..] == Put(old(buffer[..]), h0, ws[..i])
    {
      ghost var before := buffer[..];
      buffer[h] := ws[i];
      assert buffer[..] == before[h := ws[i]];
      PutOne(before, h, ws[i]);
      h := h + 1;
      PutTwice(old(buffer[..]), h0, ws[..i], [ws[i]]);
      assert ws[..i] + [ws[i]] == ws[..i + 1];
    }
    assert ws[..|ws|] == ws;
  }

  /** The X descriptors. */
  method WriteX(buffer: array<word>, h0: nat, xs: seq<Buffer>) returns (error: Option<Error>, h: nat)
    requires h0 + 2 * |xs| <= buffer.Length && |xs| <= 16
    modifies buffer
    ensures error == FirstError(xs, XError)
    ensures error == None ==> h == h0 + 2 * |xs| && buffer[..] == Put(old(buffer[..]), h0, XAll(xs))
  {
    hide XWords, XError, Put;
    h, error := h0, None;
    PutNothing(buffer[..], h0);
    for i := 0 to |xs|
      invariant error == None && FirstError(xs[..i], XError) == None
      invariant h == h0 + 2 * i && buffer[..] == Put(old(buffer[..]), h0, XAll(xs[..i]))
    {
      var b := xs[i];
      assert xs[..i + 1][..i] == xs[..i];
      error := CheckX(b);
      if error.Some? {
        FirstErrorStays(xs, XError, i + 1);
        return;
      }
      PutTwice(old(buffer[..]), h0, XAll(xs[..i]), XWords(i, b));
      h := WriteWords(buffer, h, XWords(i, b));
    }
    assert xs[..|xs|] == xs;
  }

  method CheckX(b: Buffer) returns (error: Option<Error>)
    ensures error == XError(b)
  {
    if b.addr / P39 != 0 { return Some(InvalidBufferAddress); }
    if b.size / P16 != 0 { return Some(InvalidBufferSize); }
    return None;
  }

  /** The A descriptors and then the B descriptors. */
  method WriteAB(buffer: array<word>, h0: nat, bs: seq<Buffer>) returns (error: Option<Error>, h: nat)
    requires h0 + 3 * |bs| <= buffer.Length
    modifies buffer
    ensures error == FirstError(bs, ABError)
    ensures error == None ==> h == h0 + 3 * |bs| && buffer[..] == Put(old(buffer[..]), h0, ABAll(bs))
  {
    hide ABWords, ABError, Put;
    h, error := h0, None;
    PutNothing(buffer[..], h0);
    for i := 0 to |bs|
      invariant error == None && FirstError(bs[..i], ABError) == None
      invariant h == h0 + 3 * i && buffer[..] == Put(old(buffer[..]), h0, ABAll(bs[..i]))
    {
      var b := bs[i];
      assert bs[..i + 1][..i] == bs[..i];
      error := CheckAB(b);
      if error.Some? {
        FirstErrorStays(bs, ABError, i + 1);
        return;
      }
      PutTwice(old(buffer[..]), h0, ABAll(bs[..i]), ABWords(b));
      h := WriteWords(buffer, h, ABWords(b));
    }
    assert bs[..|bs|] == bs;
  }

  method CheckAB(b: Buffer) returns (error: Option<Error>)
    ensures error == ABError(b)
  {
    if b.addr / P39 != 0 { return Some(InvalidBufferAddress); }
    if b.size / P35 != 0 { return Some(InvalidBufferSize); }
    if b.kind / 0x100 != 0 { return Some(InvalidProtection); }
    return None;
  }

  /** The C descriptors. */
  method WriteC(buffer: array<word>, h0: nat, cs: seq<Buffer>) returns (error: Option<Error>, h: nat)
    requires h0 + 2 * |cs| <= buffer.Length
    modifies buffer
    ensures error == FirstError(cs, CError)
    ensures error == None ==> h == h0 + 2 * |cs| && buffer[..] == Put(old(buffer[..]), h0, CAll(cs))
  {
    hide CWords, CError, Put;
    h, error := h0, None;
    PutNothing(buffer[..], h0);
    for i := 0 to |cs|
      invariant error == None && FirstError(cs[..i], CError) == None
      invariant h == h0 + 2 * i && buffer[..] == Put(old(buffer[..]), h0, CAll(cs[..i]))
    {
      var b := cs[i];
      assert cs[..i + 1][..i] == cs[..i];
      error := CheckC(b);
      if error.Some? {
        FirstErrorStays(cs, CError, i + 1);
        return;
      }
      PutTwice(old(buffer[..]), h0, CAll(cs[..i]), CWords(b));
      h := WriteWords(buffer, h, CWords(b));
    }
    assert cs[..|cs|] == cs;
  }

  method CheckC(b: Buffer) returns (error: Option<Error>)
    ensures error == CError(b)
  {
    if b.addr / P48 != 0 { return Some(InvalidBufferAddress); }
    if b.size / P16 != 0 { return Some(InvalidBufferSize); }
    return None;
  }

  // ----- the list of halfwords -----

  /** The lengths that go into the list of halfwords. */
  function Lengths(cs: seq<Buffer>): (r: seq<long>)
    ensures |r| <= |cs|
  {
    if cs == [] then []
    else Lengths(cs[..|cs| - 1]) + (if Listed(cs[|cs| - 1]) then [cs[|cs| - 1].size] else [])
  }

  /** Halfword `k` of the words from `h` on. */
  function HalfAt(s: seq<word>, h: nat, k: nat): nat
    requires h + k / 2 < |s|
  {
    if k % 2 == 0 then s[h + k / 2] % P16 else s[h + k / 2] / P16
  }

  function WithHalf(w: word, k: nat, v: nat): word
    requires v < P16
  {
    if k % 2 == 0 then w / P16 * P16 + v else v * P16 + w % P16
  }

  /** The lengths as halfwords; half a word may be left over at the end. */
  method WriteLengths(buffer: array<word>, h0: nat, cs: seq<Buffer>) returns (error: Option<Error>, count: nat)
    requires h0 + (|Lengths(cs)| + 1) / 2 <= buffer.Length
    modifies buffer
    ensures error == FirstError(cs, LengthError)
    ensures error == None ==>
              && count == |Lengths(cs)| && buffer[..h0] == old(buffer[..h0])
              && forall k :: 0 <= k < count ==> HalfAt(buffer[..], h0, k) == Lengths(cs)[k]
  {
    hide Listed, HalfAt, WithHalf, FirstError, Lengths;
    count, error := 0, None;
    NoLengths();
    for i := 0 to |cs|
      invariant error == None && FirstError(cs[..i], LengthError) == None
      invariant count == |Lengths(cs[..i])| && buffer[..h0] == old(buffer[..h0])
      invariant forall k :: 0 <= k < count ==>
                              h0 + k / 2 < buffer.Length && HalfAt(buffer[..], h0, k) == Lengths(cs[..i])[k]
    {
      var b := cs[i];
      LengthsMore(cs, i);
      LengthsPrefix(cs, i + 1);
      if Listed(b) {
        if b.size / P16 != 0 {
          error := Some(InvalidBufferSize);
          FirstErrorStays(cs, LengthError, i + 1);
          return;
        }
        var at := h0 + count / 2;
        ghost var before := buffer[..];
        buffer[at] := WithHalf(buffer[at], count, b.size);
        HalvesKept(before, buffer[..], h0, count, b.size);
        count := count + 1;
      }
    }
    assert cs[..|cs|] == cs;
  }

  lemma NoLengths()
    ensures Lengths([]) == [] && FirstError([], LengthError) == None
  {
  }

  lemma LengthsMore(cs: seq<Buffer>, i: nat)
    requires i < |cs|
    ensures Lengths(cs[..i + 1]) == Lengths(cs[..i]) + (if Listed(cs[i]) then [cs[i].size] else [])
    ensures FirstError(cs[..i], LengthError) == None ==> FirstError(cs[..i + 1], LengthError) == LengthError(cs[i])
  {
    hide Listed;
    assert cs[..i + 1][..i] == cs[..i];
  }

  lemma {:induction false} LengthsPrefix(cs: seq<Buffer>, i: nat)
    requires i <= |cs|
    ensures |Lengths(cs[..i])| <= |Lengths(cs)|
    decreases |cs|
  {
    if i == |cs| {
      assert cs[..i] == cs;
    } else {
      assert cs[..|cs| - 1][..i] == cs[..i];
      LengthsPrefix(cs[..|cs| - 1], i);
    }
  }

  lemma HalvesKept(s: seq<word>, t: seq<word>, h: nat, k: nat, v: nat)
    requires h + k / 2 < |s| && v < P16 && t == s[h + k / 2 := WithHalf(s[h + k / 2], k, v)]
    ensures HalfAt(t, h, k) == v
    ensures forall j :: 0 <= j < k ==> h + j / 2 < |s| && HalfAt(t, h, j) == HalfAt(s, h, j)
  {
  }

  lemma PutNothing(s: seq<word>, h: nat)
    requires h <= |s|
    ensures Put(s, h, []) == s
  {
  }
}
