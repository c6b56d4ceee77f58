/** `LZ4_count`: the length of a match, found eight bytes at a time. */
module Lz4Count {
  import opened Types
  import opened Bits

  /** The little-endian number in the `n` bytes from `i`. */
  function Word(src: seq<byte>, i: nat, n: nat): nat
    requires i + n <= |src|
    decreases n
  {
    if n == 0 then 0 else src[i] as int + 256 * Word(src, i + 1, n - 1)
  }

  /** `LZ4_NbCommonBytes` on a little-endian machine. */
  function NbCommonBytes(diff: nat): nat
    requires diff > 0
  {
    TrailingZeros(diff) / 8
  }

  /** The length of the longest common start of the texts at `a` and at `b`, where `b` stays below `limit`. */
  function Common(src: seq<byte>, a: nat, b: nat, limit: nat): (n: nat)
    requires a <= b && limit <= |src|
    ensures b <= limit ==> b + n <= limit
    decreases limit - b
  {
    if b < limit && src[a] == src[b] then 1 + Common(src, a + 1, b + 1, limit) else 0
  }

  /** That length is the longest: the bytes agree up to it and not after it. */
  lemma {:induction false} CommonIsLongest(src: seq<byte>, a: nat, b: nat, limit: nat)
    requires a <= b <= limit <= |src|
    ensures var n := Common(src, a, b, limit);
            src[a..a + n] == src[b..b + n] && (b + n < limit ==> src[a + n] != src[b + n])
    decreases limit - b
  {
    if b < limit && src[a] == src[b] {
      CommonIsLongest(src, a + 1, b + 1, limit);
      var n := Common(src, a, b, limit);
      assert src[a..a + n] == [src[a]] + src[a + 1..a + n];
      assert src[b..b + n] == [src[b]] + src[b + 1..b + n];
    }
  }

  /** Equal bytes up to `n` make the common length at least `n`. */
  lemma {:induction false} CommonAtLeast(src: seq<byte>, a: nat, b: nat, limit: nat, n: nat)
    requires a <= b && b + n <= limit <= |src| && src[a..a + n] == src[b..b + n]
    ensures n <= Common(src, a, b, limit)
    decreases n
  {
    if n > 0 {
      assert src[a] == src[a..a + n][0] && src[b] == src[b..b + n][0];
      assert src[a + 1..a + n] == src[a..a + n][1..] && src[b + 1..b + n] == src[b..b + n][1..];
      CommonAtLeast(src, a + 1, b + 1, limit, n - 1);
    }
  }

  /** Equal words are stepped over; different words end the match inside them. */
  lemma {:induction false} WordStep(src: seq<byte>, a: nat, b: nat, limit: nat, n: nat)
    requires a <= b && b + n <= limit <= |src|
    ensures Word(src, a, n) == Word(src, b, n) ==> Common(src, a, b, limit) == n + Common(src, a + n, b + n, limit)
    ensures Word(src, a, n) != Word(src, b, n) ==> Common(src, a, b, limit) < n
    decreases n
  {
    if n > 0 { WordStep(src, a + 1, b + 1, limit, n - 1); }
  }

  lemma ShiftByte(w: nat)
    ensures Shl(w, 8) == 256 * w && Pow2(8) == 256
  {
    ShlIsProduct(w, 8);
    Powers();
  }

  /** The lowest one bit of the difference of two words lies in their first different byte. */
  lemma {:induction false} FirstDifference(src: seq<byte>, a: nat, b: nat, limit: nat, n: nat)
    requires a <= b && b + n <= limit <= |src| && Word(src, a, n) != Word(src, b, n)
    ensures Xor(Word(src, a, n), Word(src, b, n)) > 0
    ensures NbCommonBytes(Xor(Word(src, a, n), Word(src, b, n))) == Common(src, a, b, limit)
    decreases n
  {
    hide Xor, TrailingZeros, Shl;
    var x, y := src[a] as int, src[b] as int;
    var v, w := Word(src, a + 1, n - 1), Word(src, b + 1, n - 1);
    XorZero(Word(src, a, n), Word(src, b, n));
    ShiftByte(v);
    ShiftByte(w);
    ShiftByte(Xor(v, w));
    XorBound(8, x, y);
    XorHigh(8, x, y, v, w);
    XorZero(x, y);
    TrailingZerosHigh(8, Xor(x, y), Xor(v, w));
    if x == y { FirstDifference(src, a + 1, b + 1, limit, n - 1); }
  }

  /** The word loop of `LZ4_count`: either it finds the end of the match or fewer than eight bytes are left. */
  method CountWords(src: seq<byte>, pMatch: nat, pIn: nat, limit: nat) returns (n: nat, done: bool)
    requires pMatch <= pIn <= limit <= |src|
    ensures done ==> n == Common(src, pMatch, pIn, limit)
    ensures !done ==> pIn + n <= limit < pIn + n + 8
    ensures !done ==> n + Common(src, pMatch + n, pIn + n, limit) == Common(src, pMatch, pIn, limit)
  {
    hide Xor, Word, NbCommonBytes;
    n := 0;
    while pIn + n < limit - 7
      invariant pIn + n <= limit
      invariant n + Common(src, pMatch + n, pIn + n, limit) == Common(src, pMatch, pIn, limit)
      decreases limit - n
    {
      var v, w := Word(src, pMatch + n, 8), Word(src, pIn + n, 8);
      XorZero(v, w);
      WordStep(src, pMatch + n, pIn + n, limit, 8);
      var diff := Xor(v, w);
      if diff != 0 {
        FirstDifference(src, pMatch + n, pIn + n, limit, 8);
        return n + NbCommonBytes(diff), true;
      }
      n := n + 8;
    }
    done := false;
  }

  /** One of the three closing tests: step over `width` bytes when they are equal. */
  method CountTail(src: seq<byte>, pMatch: nat, pIn: nat, limit: nat, width: nat) returns (n: nat)
    requires pMatch <= pIn <= limit <= |src|
    ensures pIn + n <= limit
    ensures n + Common(src, pMatch + n, pIn + n, limit) == Common(src, pMatch, pIn, limit)
    ensures n == width || (n == 0 && Common(src, pMatch, pIn, limit) < width)
  {
    n := 0;
    if pIn + width <= limit {
      WordStep(src, pMatch, pIn, limit, width);
      if Word(src, pMatch, width) == Word(src, pIn, width) { n := width; }
    }
  }

  /** `LZ4_count` returns exactly the longest common prefix up to the limit. */
  method Count(src: seq<byte>, pMatch: nat, pIn: nat, limit: nat) returns (n: nat)
    requires pMatch <= pIn <= limit <= |src|
    ensures n == Common(src, pMatch, pIn, limit)
  {
    hide Common;
    var done;
    n, done := CountWords(src, pMatch, pIn, limit);
    if done { return; }
    var step := CountTail(src, pMatch + n, pIn + n, limit, 4);
    n := n + step;
    step := CountTail(src, pMatch + n, pIn + n, limit, 2);
    n := n + step;
    step := CountTail(src, pMatch + n, pIn + n, limit, 1);
    n := n + step;
  }
}
