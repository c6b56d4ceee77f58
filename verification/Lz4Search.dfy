/** The hash table of positions and the search for a match that both compressors share. */
module Lz4Search {
  import opened Types
  import opened Lz4Format
  import opened Lz4Count

  datatype TableType = ByU32 | ByU16

  const LIMIT_64K := 65536 + (MF_LIMIT - 1)
  const SKIP_TRIGGER := 64  // 1 << LZ4_skipTrigger
  const STEP_WRAP := 0x400_0000

  /** What a table entry of either width can hold. */
  function Capacity(t: TableType): nat {
    match t case ByU32 => 0x1_0000_0000 case ByU16 => 0x1_0000
  }

  /** The inputs each table width is used for. */
  predicate Fits(t: TableType, size: nat) {
    size <= MAX_INPUT_SIZE && (t.ByU16? ==> size < LIMIT_64K)
  }

  /** Every entry is a position in front of `ip`. */
  ghost predicate AllBefore(table: array<nat>, ip: nat)
    reads table
  {
    forall i :: 0 <= i < table.Length ==> table[i] < ip
  }

  ghost predicate HashInto(hash: nat -> nat, size: nat) {
    forall p: nat :: hash(p) < size
  }

  /** `LZ4_putPositionOnHash`: the store truncates to the width of the table, which loses nothing here. */
  method PutPosition(table: array<nat>, h: nat, p: nat, t: TableType, ghost size: nat)
    requires h < table.Length && Fits(t, size) && p + MF_LIMIT <= size && AllBefore(table, p + 1)
    modifies table
    ensures table[h] == p
    ensures AllBefore(table, p + 1)
    ensures forall i :: 0 <= i < table.Length && i != h ==> table[i] == old(table[i])
  {
    table[h] := p % Capacity(t);
  }

  /** `LZ4_read32(match) == LZ4_read32(ip)`. */
  predicate SameFour(src: seq<byte>, m: nat, ip: nat)
    requires m <= ip && ip + 4 <= |src|
  {
    Word(src, m, 4) == Word(src, ip, 4)
  }

  /** A place and one that is not behind it, in reach of a two-byte offset, that start with the same four bytes. */
  ghost predicate Accepted(src: seq<byte>, m: nat, ip: nat) {
    && m <= ip && ip - m <= MAX_DISTANCE
    && ip + MF_LIMIT <= |src|
    && src[m..m + MIN_MATCH] == src[ip..ip + MIN_MATCH]
  }

  /** A match: a place and an earlier one. */
  ghost predicate Candidate(src: seq<byte>, m: nat, ip: nat) {
    m < ip && Accepted(src, m, ip)
  }

  lemma {:induction false} SameFourBytes(src: seq<byte>, m: nat, ip: nat, n: nat)
    requires m <= ip && ip + n <= |src| && Word(src, m, n) == Word(src, ip, n)
    ensures src[m..m + n] == src[ip..ip + n]
    decreases n
  {
    if n > 0 {
      SameFourBytes(src, m + 1, ip + 1, n - 1);
      assert src[m..m + n] == [src[m]] + src[m + 1..m + n];
      assert src[ip..ip + n] == [src[ip]] + src[ip + 1..ip + n];
    }
  }

  lemma {:induction false} SameBytesSameWord(src: seq<byte>, m: nat, ip: nat, n: nat)
    requires m <= ip && ip + n <= |src| && src[m..m + n] == src[ip..ip + n]
    ensures Word(src, m, n) == Word(src, ip, n)
    decreases n
  {
    if n > 0 {
      assert src[m] == src[m..m + n][0] && src[ip] == src[ip..ip + n][0];
      assert src[m + 1..m + n] == src[m..m + n][1..] && src[ip + 1..ip + n] == src[ip..ip + n][1..];
      SameBytesSameWord(src, m + 1, ip + 1, n - 1);
    }
  }

  /** How far `jumps` steps of `a` bytes lead. */
  ghost function Distance(jumps: nat, a: nat): (d: nat)
    requires 1 <= a
    ensures jumps <= d
    ensures 0x200_0000 <= a ==> 0x200_0000 * jumps <= d
  {
    if jumps == 0 then 0 else a + Distance(jumps - 1, a)
  }

  /**
   The counter behind the growing search step starts at `acceleration << 6` in 32 bits. While the search is
   still inside the input it has not wrapped, because its rounds have moved it at least `a` bytes each.
   */
  lemma SearchCounterBounded(a: nat, jumps: nat)
    requires 1 <= a < STEP_WRAP && Distance(jumps, a) < MAX_INPUT_SIZE
    ensures SKIP_TRIGGER * a + jumps + 1 < WORD
  {
  }

  /** The search step comes from `acceleration << 6` in 32 bits; it is 0 exactly for multiples of 2^26. */
  lemma StepIsZeroIff(acceleration: nat)
    ensures (acceleration * SKIP_TRIGGER) % WORD == SKIP_TRIGGER * (acceleration % STEP_WRAP)
    ensures (acceleration * SKIP_TRIGGER) % WORD / SKIP_TRIGGER == 0 <==> acceleration % STEP_WRAP == 0
  {
    var a: nat, q: nat := acceleration % STEP_WRAP, acceleration / STEP_WRAP;
    assert acceleration * SKIP_TRIGGER == SKIP_TRIGGER * a + WORD * q;
  }

  /** The condition on which the search loop ends: the place is near enough and starts with the same four bytes. */
  predicate Near(src: seq<byte>, t: TableType, m: nat, ip: nat)
    requires m <= ip && ip + 4 <= |src|
  {
    (t.ByU16? || m + MAX_DISTANCE >= ip) && SameFour(src, m, ip)
  }

  lemma NearIff(src: seq<byte>, t: TableType, m: nat, ip: nat)
    requires Fits(t, |src|) && m <= ip && ip + MF_LIMIT <= |src|
    ensures Near(src, t, m, ip) <==> Accepted(src, m, ip)
  {
    hide Word;
    if SameFour(src, m, ip) { SameFourBytes(src, m, ip, 4); }
    if src[m..m + 4] == src[ip..ip + 4] { SameBytesSameWord(src, m, ip, 4); }
  }

  /**
   With a step of 0 the search looks at `start`, at `start + 1`, and at `start + 1` again. When neither of the first
   two rounds ends it, the third one finds the position that the second one has stored.
   */
  ghost predicate MeetsItself(src: seq<byte>, t: TableType, hash: nat -> nat, table: seq<nat>, acceleration: nat,
                              start: nat) {
    && acceleration % STEP_WRAP == 0 && start + 1 + MF_LIMIT <= |src|
    && hash(start) < |table| && hash(start + 1) < |table|
    && table[hash(start)] <= start && !Near(src, t, table[hash(start)], start)
    && var later := if hash(start + 1) == hash(start) then start else table[hash(start + 1)];
    later <= start && !Near(src, t, later, start + 1)
  }

  lemma NearItself(src: seq<byte>, t: TableType, ip: nat)
    requires ip + 4 <= |src|
    ensures Near(src, t, ip, ip)
  {
  }

  // ----- what a search looks at -----

  /** What a search is called with. */
  datatype Search = Search(
    src: seq<byte>, t: TableType, hash: nat -> nat, table: seq<nat>, acceleration: nat, start: nat)

  /** The position that round `k` looks at: the steps are 1, then 64 of `a`, then 64 of `a + 1`, and so on. */
  ghost function Position(start: nat, a: nat, k: nat): (p: nat)
    ensures start <= p
  {
    if k == 0 then start else if k == 1 then start + 1 else Position(start, a, k - 1) + a + (k - 2) / SKIP_TRIGGER
  }

  ghost function LooksAt(w: Search, k: nat): nat {
    Position(w.start, w.acceleration % STEP_WRAP, k)
  }

  /** The table in front of round `k`: every round leaves the position it has looked at. */
  ghost function TableAt(w: Search, k: nat): (r: seq<nat>)
    requires HashInto(w.hash, |w.table|)
    ensures |r| == |w.table|
  {
    if k == 0 then w.table else TableAt(w, k - 1)[w.hash(LooksAt(w, k - 1)) := LooksAt(w, k - 1)]
  }

  /** What round `k` finds in the table. */
  ghost function EntryAt(w: Search, k: nat): nat
    requires HashInto(w.hash, |w.table|)
  {
    TableAt(w, k)[w.hash(LooksAt(w, k))]
  }

  /** Round `k` finds a place in reach that starts with the same four bytes. */
  ghost predicate Hits(w: Search, k: nat)
    requires HashInto(w.hash, |w.table|)
  {
    Accepted(w.src, EntryAt(w, k), LooksAt(w, k))
  }

  /** There is a round `k`: the position behind the one it looks at is not too near to the end. */
  ghost predicate HasRound(w: Search, k: nat) {
    LooksAt(w, k + 1) + MF_LIMIT <= |w.src|
  }

  /** Round `k` is the first that hits. */
  ghost predicate FirstHit(w: Search, k: nat)
    requires HashInto(w.hash, |w.table|)
  {
    HasRound(w, k) && Hits(w, k) && forall j: nat :: j < k ==> !Hits(w, j)
  }

  lemma {:induction false} PositionsGrow(w: Search, j: nat, k: nat)
    requires j <= k
    ensures LooksAt(w, j) <= LooksAt(w, k)
    decreases k - j
  {
    if j < k { PositionsGrow(w, j, k - 1); }
  }

  /** If the first `k` rounds hit nothing, and round `k` hits or does not exist, this decides the search. */
  lemma FirstHitDecides(w: Search, k: nat)
    requires HashInto(w.hash, |w.table|) && (forall j: nat :: j < k ==> !Hits(w, j)) && (HasRound(w, k) ==> Hits(w, k))
    ensures HasRound(w, k) <==> exists j: nat :: HasRound(w, j) && Hits(w, j)
  {
    hide Hits, LooksAt;
    forall j: nat | HasRound(w, j) && Hits(w, j) ensures HasRound(w, k) {
      PositionsGrow(w, k + 1, j + 1);
    }
  }

  /** The steps are at least as long as the first one. */
  lemma {:induction false} PositionFar(start: nat, a: nat, k: nat)
    requires 1 <= a && 1 <= k
    ensures start + 1 + Distance(k - 1, a) <= Position(start, a, k)
    decreases k
  {
    if k > 1 { PositionFar(start, a, k - 1); }
  }

  /** How the step counter makes the positions, and why it does not wrap. */
  lemma NextStep(w: Search, k: nat)
    ensures var a := w.acceleration % STEP_WRAP;
            && LooksAt(w, k + 2) == LooksAt(w, k + 1) + (SKIP_TRIGGER * a + k) / SKIP_TRIGGER
            && (a > 0 && LooksAt(w, k + 1) < MAX_INPUT_SIZE ==> SKIP_TRIGGER * a + k + 1 < WORD)
  {
    var a := w.acceleration % STEP_WRAP;
    assert (SKIP_TRIGGER * a + k) / SKIP_TRIGGER == a + k / SKIP_TRIGGER;
    if a > 0 && LooksAt(w, k + 1) < MAX_INPUT_SIZE {
      PositionFar(w.start, a, k + 1);
      SearchCounterBounded(a, k);
    }
  }

  /** One look into the table, which then gets the position looked at. */
  method Probe(src: seq<byte>, table: array<nat>, t: TableType, h: nat, ip: nat) returns (hit: bool, m: nat)
    requires Fits(t, |src|) && ip + MF_LIMIT <= |src| && h < table.Length && AllBefore(table, ip + 1)
    modifies table
    ensures m == old(table[h]) <= ip && hit == Near(src, t, m, ip) == Accepted(src, m, ip)
    ensures table[h] == ip && AllBefore(table, ip + 1) && table[..] == old(table[..])[h := ip]
  {
    m := table[h];
    PutPosition(table, h, ip, t, |src|);
    hit := (t.ByU16? || m + MAX_DISTANCE >= ip) && SameFour(src, m, ip);
    NearIff(src, t, m, ip);
  }

  /** The first two rounds of a search with a step of 0. */
  ghost predicate StandsStill(src: seq<byte>, t: TableType, hash: nat -> nat, before: seq<nat>, table: seq<nat>,
                              start: nat, forwardIp: nat, jumps: nat) {
    && 1 <= jumps <= 2 && forwardIp == start + 1 && start + 1 + MF_LIMIT <= |src|
    && hash(start) < |before| && hash(start + 1) < |before| && before[hash(start)] <= start
    && !Near(src, t, before[hash(start)], start)
    && var once := before[hash(start) := start];
    if jumps == 1 then table == once
    else table == once[hash(start + 1) := start + 1] && once[hash(start + 1)] <= start
         && !Near(src, t, once[hash(start + 1)], start + 1)
  }

  /** What a round of such a search does to it, and when it ends it. */
  lemma Rounds(src: seq<byte>, t: TableType, hash: nat -> nat, before: seq<nat>, table: seq<nat>, acceleration: nat,
               start: nat, jumps: nat)
    requires acceleration % STEP_WRAP == 0 && HashInto(hash, |before|) && start + 1 + MF_LIMIT <= |src|
    requires forall i :: 0 <= i < |before| ==> before[i] < start
    requires if jumps == 0 then table == before else StandsStill(src, t, hash, before, table, start, start + 1, jumps)
    ensures jumps <= 2 && |table| == |before|
    ensures var ip := if jumps == 0 then start else start + 1; var h := hash(ip);
            && table[h] <= ip && (jumps == 2 <==> table[h] == ip) && (jumps == 2 ==> Near(src, t, table[h], ip))
            && (Near(src, t, table[h], ip) ==> (table[h] == ip <==>
                 MeetsItself(src, t, hash, before, acceleration, start)))
            && (!Near(src, t, table[h], ip) ==>
                  StandsStill(src, t, hash, before, table[h := ip], start, start + 1, jumps + 1))
  {
    hide SameFour;
    NearItself(src, t, start + 1);
  }

  lemma NeverItself(src: seq<byte>, t: TableType, hash: nat -> nat, before: seq<nat>, acceleration: nat, start: nat)
    requires acceleration % STEP_WRAP != 0 || start + 1 + MF_LIMIT > |src|
    ensures !MeetsItself(src, t, hash, before, acceleration, start)
  {
    hide Near;
  }

  /**
   The "Find a match" loop. It finds something exactly when some round hits, and then what the first such round has
   found. That is a match, or the place itself; the latter exactly when the step is 0 and the first two rounds find
   nothing.
   */
  method FindMatch(src: seq<byte>, table: array<nat>, t: TableType, hash: nat -> nat, acceleration: nat, start: nat)
    returns (found: bool, ip: nat, m: nat, ghost rounds: nat)
    requires Fits(t, |src|) && MIN_LENGTH <= |src| && 1 <= start <= |src|
    requires HashInto(hash, table.Length) && AllBefore(table, start)
    modifies table
    ensures found ==> start <= ip && Accepted(src, m, ip) && AllBefore(table, ip + 1)
    ensures found && m == ip <==> MeetsItself(src, t, hash, old(table[..]), acceleration, start)
    ensures var w := Search(src, t, hash, old(table[..]), acceleration, start);
            && (found <==> exists k: nat :: HasRound(w, k) && Hits(w, k))
            && (found ==> FirstHit(w, rounds) && ip == LooksAt(w, rounds) && m == EntryAt(w, rounds))
            && table[..] == TableAt(w, if found then rounds + 1 else rounds)
  {
    hide Near, Accepted, StandsStill, MeetsItself, SameFour, Hits, LooksAt, TableAt;
    StepIsZeroIff(acceleration);
    var mflimit := |src| - MF_LIMIT;
    ghost var a := acceleration % STEP_WRAP;
    ghost var jumps: nat := 0;
    ghost var before := table[..];
    ghost var w := Search(src, t, hash, before, acceleration, start);
    FirstRound(w);
    rounds := 0;
    var forwardIp, step := start, 1;
    var searchMatchNb := (acceleration * SKIP_TRIGGER) % WORD;
    var forwardH := hash(start);
    ip, m := start, 0;
    while true
      invariant start <= forwardIp == LooksAt(w, jumps) && forwardIp + step == LooksAt(w, jumps + 1)
      invariant forwardH == hash(forwardIp)
      invariant table[..] == TableAt(w, jumps) && forall j: nat :: j < jumps ==> !Hits(w, j)
      invariant searchMatchNb == SKIP_TRIGGER * a + jumps < WORD
      invariant jumps == 0 ==> forwardIp == start && step == 1 && table[..] == before
      invariant a > 0 && jumps > 0 ==> forwardIp <= mflimit && a <= step
      invariant a == 0 && jumps > 0 ==> step == 0 && jumps <= 2 && forwardIp == start + 1 <= mflimit
      invariant a == 0 && jumps > 0 ==> StandsStill(src, t, hash, before, table[..], start, start + 1, jumps)
      invariant AllBefore(table, if jumps == 2 && a == 0 then forwardIp + 1 else forwardIp)
      decreases if a == 0 then 0 else |src| - forwardIp, 3 - jumps
    {
      var h := forwardH;
      ip := forwardIp;
      forwardIp := forwardIp + step;
      step := searchMatchNb / SKIP_TRIGGER;
      searchMatchNb := (searchMatchNb + 1) % WORD;
      if forwardIp > mflimit {
        NeverItself(src, t, hash, before, acceleration, start);
        FirstHitDecides(w, jumps);
        return false, ip, 0, jumps;
      }
      NextStep(w, jumps);
      ghost var looked := table[..];
      if a == 0 {
        Rounds(src, t, hash, before, looked, acceleration, start, jumps);
      } else {
        NeverItself(src, t, hash, before, acceleration, start);
      }
      var hit;
      hit, m := Probe(src, table, t, h, ip);
      forwardH := hash(forwardIp);
      Looked(w, jumps);
      if hit {
        FirstHitDecides(w, jumps);
        return true, ip, m, jumps;
      }
      jumps := jumps + 1;
    }
  }

  lemma FirstRound(w: Search)
    requires HashInto(w.hash, |w.table|)
    ensures LooksAt(w, 0) == w.start && LooksAt(w, 1) == w.start + 1 && TableAt(w, 0) == w.table
  {
  }

  /** One round. */
  lemma Looked(w: Search, k: nat)
    requires HashInto(w.hash, |w.table|)
    ensures TableAt(w, k + 1) == TableAt(w, k)[w.hash(LooksAt(w, k)) := LooksAt(w, k)]
    ensures Hits(w, k) <==> Accepted(w.src, EntryAt(w, k), LooksAt(w, k))
  {
    hide Accepted, LooksAt;
  }

  /** The inputs that the search is called with. */
  ghost predicate SearchInput(src: seq<byte>, t: TableType, hash: nat -> nat, table: seq<nat>, start: nat) {
    && Fits(t, |src|) && MIN_LENGTH <= |src| && 1 <= start <= |src| && HashInto(hash, |table|)
    && forall i :: 0 <= i < |table| ==> table[i] < start
  }

  /** Fourteen bytes of which no two are the same. */
  const ALL_DIFFERENT: seq<byte> := [0, 1, 2, 3, 4, 5, 6, 7, 8, 9, 10, 11, 12, 13]

  lemma MeetsItselfInAllDifferent(acceleration: nat)
    requires acceleration % STEP_WRAP == 0
    ensures SearchInput(ALL_DIFFERENT, ByU16, _ => 0, [0], 1)
    ensures MeetsItself(ALL_DIFFERENT, ByU16, _ => 0, [0], acceleration, 1)
  {
    SameFirst(ALL_DIFFERENT, 0, 1);
    SameFirst(ALL_DIFFERENT, 1, 2);
  }

  lemma SameFirst(src: seq<byte>, m: nat, ip: nat)
    requires m <= ip && ip + 4 <= |src|
    ensures SameFour(src, m, ip) ==> src[m] == src[ip]
  {
    if SameFour(src, m, ip) {
      SameFourBytes(src, m, ip, 4);
      assert src[m..m + 4][0] == src[ip..ip + 4][0];
    }
  }

  /** The search finds nothing but matches, whatever it is called with, exactly when its step is not 0. */
  lemma SearchIsSoundIff(acceleration: nat)
    ensures acceleration % STEP_WRAP != 0 <==>
            forall src: seq<byte>, t: TableType, hash: nat -> nat, table: seq<nat>, start: nat ::
              SearchInput(src, t, hash, table, start) ==> !MeetsItself(src, t, hash, table, acceleration, start)
  {
    hide SearchInput;
    if acceleration % STEP_WRAP == 0 {
      MeetsItselfInAllDifferent(acceleration);
    }
  }

  /** At least fourteen bytes, all of them the same. */
  predicate OneByte(src: seq<byte>) {
    MIN_LENGTH < |src| && forall i :: 0 <= i < |src| ==> src[i] == src[0]
  }

  lemma EqualBytes(b: byte, n: nat)
    ensures OneByte(seq(n, _ => b)) <==> 14 <= n
  {
  }

  /** Whatever the hash and the acceleration, the first search of such a source finds place 0 at place 1. */
  lemma OneByteHits(src: seq<byte>, t: TableType, hash: nat -> nat, table: seq<nat>, acceleration: nat)
    requires OneByte(src) && HashInto(hash, |table|) && forall i :: 0 <= i < |table| ==> table[i] == 0
    ensures var w := Search(src, t, hash, table, acceleration, 1);
            HasRound(w, 0) && LooksAt(w, 0) == 1 && EntryAt(w, 0) == 0 && Hits(w, 0)
  {
    FirstRound(Search(src, t, hash, table, acceleration, 1));
  }

  /** How far back a match of `ip` with `m` reaches: the bytes agree from there on, and not before it. */
  ghost predicate ReachesBack(src: seq<byte>, anchor: nat, ip: nat, m: nat, n: nat) {
    && n <= m <= ip <= |src| && anchor + n <= ip && src[m - n..m] == src[ip - n..ip]
    && (n == m || anchor + n == ip || src[m - n - 1] != src[ip - n - 1])
  }

  /** "Catch up": extend a match backwards over equal bytes, as far as `anchor` and the start allow. */
  method CatchUp(src: seq<byte>, anchor: nat, ip0: nat, m0: nat) returns (ip: nat, m: nat)
    requires anchor <= ip0 && Accepted(src, m0, ip0)
    ensures anchor <= ip <= ip0 && ip - m == ip0 - m0
    ensures m0 == ip0 ==> ip == anchor
    ensures src[m..m0 + MIN_MATCH] == src[ip..ip0 + MIN_MATCH]
    ensures ReachesBack(src, anchor, ip0, m0, ip0 - ip)
  {
    ip, m := ip0, m0;
    while ip > anchor && m > 0 && src[ip - 1] == src[m - 1]
      invariant anchor <= ip <= ip0 && ip - m == ip0 - m0
      invariant src[m..m0] == src[ip..ip0]
    {
      ip, m := ip - 1, m - 1;
      assert src[m..m0] == [src[m]] + src[m + 1..m0] && src[ip..ip0] == [src[ip]] + src[ip + 1..ip0];
    }
    assert src[m..m0 + MIN_MATCH] == src[m..m0] + src[m0..m0 + MIN_MATCH];
    assert src[ip..ip0 + MIN_MATCH] == src[ip..ip0] + src[ip0..ip0 + MIN_MATCH];
  }

  /**
   "Fill table" and "Test next position" after a match that ended at `ip`: it goes on exactly when the place that the
   table has for `ip`, two positions back or older, is a match.
   */
  method NextPosition(src: seq<byte>, table: array<nat>, t: TableType, hash: nat -> nat, ip: nat)
    returns (again: bool, m: nat)
    requires Fits(t, |src|) && 2 <= ip && ip + MF_LIMIT <= |src|
    requires HashInto(hash, table.Length) && AllBefore(table, ip - 1)
    modifies table
    ensures AllBefore(table, ip + 1) && table[..] == old(table[..])[hash(ip - 2) := ip - 2][hash(ip) := ip]
    ensures m == if hash(ip) == hash(ip - 2) then ip - 2 else old(table[hash(ip)])
    ensures again <==> Candidate(src, m, ip)
  {
    PutPosition(table, hash(ip - 2), ip - 2, t, |src|);
    m := table[hash(ip)];
    PutPosition(table, hash(ip), ip, t, |src|);
    again := m + MAX_DISTANCE >= ip && SameFour(src, m, ip);
    NearIff(src, ByU32, m, ip);
  }

  /**
   A match that was found at `ip0` and moved back to `ip` reaches at least to `ip0 + 4`, so every position
   in the table stays in front of the place where the search goes on.
   */
  lemma MatchCoversCandidate(src: seq<byte>, m0: nat, ip0: nat, m: nat, ip: nat, limit: nat)
    requires Accepted(src, m0, ip0) && ip <= ip0 && ip - m == ip0 - m0
    requires src[m..m0 + MIN_MATCH] == src[ip..ip0 + MIN_MATCH] && ip0 + MIN_MATCH <= limit <= |src|
    ensures ip0 <= ip + Common(src, m + MIN_MATCH, ip + MIN_MATCH, limit)
    ensures src[m..m + MIN_MATCH] == src[ip..ip + MIN_MATCH]
  {
    var n := ip0 - ip;
    assert src[m..m0 + MIN_MATCH][..MIN_MATCH] == src[m..m + MIN_MATCH];
    assert src[ip..ip0 + MIN_MATCH][..MIN_MATCH] == src[ip..ip + MIN_MATCH];
    assert src[m..m0 + MIN_MATCH][MIN_MATCH..] == src[m + MIN_MATCH..m + MIN_MATCH + n];
    assert src[ip..ip0 + MIN_MATCH][MIN_MATCH..] == src[ip + MIN_MATCH..ip + MIN_MATCH + n];
    CommonAtLeast(src, m + MIN_MATCH, ip + MIN_MATCH, limit, n);
  }

  /** Copying a found match of any length up to the common one reproduces the source. */
  lemma MatchReproduces(src: seq<byte>, m: nat, ip: nat, limit: nat, code: nat)
    requires m < ip && ip + MIN_MATCH <= limit <= |src| && src[m..m + MIN_MATCH] == src[ip..ip + MIN_MATCH]
    requires code <= Common(src, m + MIN_MATCH, ip + MIN_MATCH, limit)
    ensures ip + MIN_MATCH + code <= limit
    ensures CopyMatch(src[..ip], ip - m, code + MIN_MATCH) == src[..ip + MIN_MATCH + code]
  {
    hide CopyMatch, Common;
    var len, n := code + MIN_MATCH, Common(src, m + MIN_MATCH, ip + MIN_MATCH, limit);
    CommonIsLongest(src, m + MIN_MATCH, ip + MIN_MATCH, limit);
    var r := src[..ip + len];
    forall k | ip <= k < ip + len ensures r[k] == r[k - (ip - m)] {
      if k < ip + MIN_MATCH {
        assert src[ip..ip + MIN_MATCH][k - ip] == src[m..m + MIN_MATCH][k - ip];
      } else {
        var i := k - ip - MIN_MATCH;
        assert src[ip + MIN_MATCH..ip + MIN_MATCH + n][i] == src[m + MIN_MATCH..m + MIN_MATCH + n][i];
      }
    }
    RepeatsIsCopyMatch(r, src[..ip], ip - m, len);
  }
}
