/**
 How a source is cut into sequences: the greedy parse that both compressors follow, which leaves no match out that a
 search comes by and makes every match as long as it goes.
 */
module Lz4Parse {
  import opened Types
  import opened Lz4Format
  import opened Lz4Count
  import opened Lz4Search

  /** What is compressed and how; `room` is the size of the output where the output has to be filled. */
  datatype Job = Job(src: seq<byte>, t: TableType, hash: nat -> nat, acceleration: nat, room: Option<nat>)

  /**
   A point of the parse, with the sequences up to it: in front of a search from `ip`, in front of a match of `ip` with
   `m`, or behind the last match. What lies between `anchor` and `ip` becomes literals.
   */
  datatype Point =
    | Searching(table: seq<nat>, anchor: nat, ip: nat, ss: seq<Sequence>)
    | Matching(table: seq<nat>, anchor: nat, ip: nat, m: nat, ss: seq<Sequence>)
    | Ended(anchor: nat, ss: seq<Sequence>)

  /** There is room for literals, and for a match and last literals behind them. */
  predicate LiteralsFit(job: Job, op: nat, n: nat) {
    job.room.None? || op + 1 + (n + 240) / 255 + n + 2 + 8 + 1 <= job.room.value
  }

  /** There is room for a match of length code `code`, and for last literals behind it. */
  predicate MatchFits(job: Job, op: nat, code: nat) {
    job.room.None? || op + (code + 240) / 255 + LAST_LITERALS + 1 <= job.room.value
  }

  /** There is room for one more sequence. */
  predicate SequenceFits(job: Job, op: nat) {
    job.room.None? || op + 2 + 8 + 1 + 1 <= job.room.value
  }

  /** The longest match of `ip` with `m` that there is room for. */
  ghost predicate Longest(job: Job, op: nat, ip: nat, m: nat, code: nat)
    requires m <= ip && LAST_LITERALS <= |job.src|
  {
    var most := Common(job.src, m + MIN_MATCH, ip + MIN_MATCH, |job.src| - LAST_LITERALS);
    code <= most && MatchFits(job, op, code) && (code < most ==> !MatchFits(job, op, code + 1))
  }

  /** From a search to its first hit, moved back as far as it reaches, or to the end. */
  ghost predicate SearchStep(job: Job, p: Point, q: Point)
    requires p.Searching? && HashInto(job.hash, |p.table|)
  {
    var w := Search(job.src, job.t, job.hash, p.table, job.acceleration, p.ip);
    if exists k: nat :: HasRound(w, k) && Hits(w, k) then
      exists k: nat, n: nat ::
        && FirstHit(w, k) && ReachesBack(job.src, p.anchor, LooksAt(w, k), EntryAt(w, k), n)
        && q == if LiteralsFit(job, |EncodeSequences(p.ss)|, LooksAt(w, k) - n - p.anchor)
                then Matching(TableAt(w, k + 1), p.anchor, LooksAt(w, k) - n, EntryAt(w, k) - n, p.ss)
                else Ended(p.anchor, p.ss)
    else q == Ended(p.anchor, p.ss)
  }

  /** Behind a match that ends at `end`: another match at once, a search from the next position, or the end. */
  ghost function Behind(job: Job, table: seq<nat>, end: nat, ss: seq<Sequence>): Point
    requires HashInto(job.hash, |table|)
  {
    if end < 2 || end + MF_LIMIT > |job.src| || !SequenceFits(job, |EncodeSequences(ss)|) then Ended(end, ss)
    else
      var filled := table[job.hash(end - 2) := end - 2];
      var m := filled[job.hash(end)];
      if Candidate(job.src, m, end) then Matching(filled[job.hash(end) := end], end, end, m, ss)
      else Searching(filled[job.hash(end) := end], end, end + 1, ss)
  }

  /** A match that can be written. */
  ghost predicate CanMatch(job: Job, p: Point) {
    && p.Matching? && HashInto(job.hash, |p.table|)
    && p.anchor <= p.ip <= |job.src| && p.m <= p.ip <= p.m + MAX_DISTANCE && LAST_LITERALS <= |job.src|
  }

  /** Where the length of a match is written: behind the literals and the offset. */
  ghost function LengthOp(job: Job, p: Point): nat
    requires CanMatch(job, p)
  {
    |EncodeSequences(p.ss)| + |LiteralPart(job.src[p.anchor..p.ip], 0)| + 2
  }

  /** The match, with this length code, becomes a sequence. */
  ghost function Extended(job: Job, p: Point, code: nat): Point
    requires CanMatch(job, p)
  {
    Behind(job, p.table, p.ip + MIN_MATCH + code,
           p.ss + [Sequence(job.src[p.anchor..p.ip], p.ip - p.m, code + MIN_MATCH)])
  }

  ghost predicate MatchStep(job: Job, p: Point, q: Point) {
    && CanMatch(job, p)
    && exists code: nat :: Longest(job, LengthOp(job, p), p.ip, p.m, code) && q == Extended(job, p, code)
  }

  ghost predicate Follows(job: Job, p: Point, q: Point) {
    match p
    case Searching(table, _, _, _) => HashInto(job.hash, |table|) && SearchStep(job, p, q)
    case Matching(_, _, _, _, _) => MatchStep(job, p, q)
    case Ended(_, _) => false
  }

  /** A parse as far as it has come. */
  ghost predicate IsParse(job: Job, ps: seq<Point>) {
    ps != [] && forall i :: 0 <= i < |ps| - 1 ==> Follows(job, ps[i], ps[i + 1])
  }

  /** The parse of a source from its start, with an empty table: the first position is not searched for. */
  ghost function Start(entries: nat): Point {
    Searching(seq(entries, _ => 0), 0, 1, [])
  }

  /** The sequences of the whole parse, which lead up to `anchor`. */
  ghost predicate Greedy(job: Job, entries: nat, anchor: nat, ss: seq<Sequence>) {
    if |job.src| < MIN_LENGTH then anchor == 0 && ss == [] else Reaches(job, entries, Ended(anchor, ss))
  }

  // ----- there is one parse -----

  lemma OneFirstHit(w: Search, j: nat, k: nat)
    requires HashInto(w.hash, |w.table|) && FirstHit(w, j) && FirstHit(w, k)
    ensures j == k
  {
    hide HasRound, Hits;
  }

  lemma OneReach(src: seq<byte>, anchor: nat, ip: nat, m: nat, i: nat, j: nat)
    requires ReachesBack(src, anchor, ip, m, i) && ReachesBack(src, anchor, ip, m, j)
    ensures i == j
  {
    hide ReachesBack;
    if i < j {
      ReachesFurther(src, anchor, ip, m, i, j);
    } else if j < i {
      ReachesFurther(src, anchor, ip, m, j, i);
    }
  }

  lemma ReachesFurther(src: seq<byte>, anchor: nat, ip: nat, m: nat, i: nat, j: nat)
    requires i < j && ReachesBack(src, anchor, ip, m, j)
    ensures !ReachesBack(src, anchor, ip, m, i)
  {
    assert src[m - j..m][j - i - 1] == src[ip - j..ip][j - i - 1];
  }

  lemma OneLength(job: Job, op: nat, ip: nat, m: nat, i: nat, j: nat)
    requires m <= ip && LAST_LITERALS <= |job.src| && Longest(job, op, ip, m, i) && Longest(job, op, ip, m, j)
    ensures i == j
  {
    hide Common;
  }

  /** Every point has at most one next point. */
  lemma FollowsIsUnique(job: Job, p: Point, q: Point, q': Point)
    requires Follows(job, p, q) && Follows(job, p, q')
    ensures q == q'
  {
    if p.Searching? { SearchIsUnique(job, p, q, q'); } else { MatchIsUnique(job, p, q, q'); }
  }

  lemma SearchIsUnique(job: Job, p: Point, q: Point, q': Point)
    requires p.Searching? && HashInto(job.hash, |p.table|) && SearchStep(job, p, q) && SearchStep(job, p, q')
    ensures q == q'
  {
    hide HasRound, Hits, FirstHit, ReachesBack, LiteralsFit, EncodeSequences, TableAt, LooksAt;
    var w := Search(job.src, job.t, job.hash, p.table, job.acceleration, p.ip);
    if exists k: nat :: HasRound(w, k) && Hits(w, k) {
      forall k: nat, n: nat, k': nat, n': nat
        | && FirstHit(w, k) && ReachesBack(job.src, p.anchor, LooksAt(w, k), EntryAt(w, k), n)
          && FirstHit(w, k') && ReachesBack(job.src, p.anchor, LooksAt(w, k'), EntryAt(w, k'), n')
        ensures k == k' && n == n'
      {
        OneFirstHit(w, k, k');
        OneReach(job.src, p.anchor, LooksAt(w, k), EntryAt(w, k), n, n');
      }
    }
  }

  lemma MatchIsUnique(job: Job, p: Point, q: Point, q': Point)
    requires MatchStep(job, p, q) && MatchStep(job, p, q')
    ensures q == q'
  {
    hide Longest, LengthOp, Extended;
    forall i: nat, j: nat | Longest(job, LengthOp(job, p), p.ip, p.m, i) && Longest(job, LengthOp(job, p), p.ip, p.m, j)
      ensures i == j
    {
      OneLength(job, LengthOp(job, p), p.ip, p.m, i, j);
    }
  }

  lemma {:induction false} ParsesAgree(job: Job, ps: seq<Point>, qs: seq<Point>, k: nat)
    requires IsParse(job, ps) && IsParse(job, qs) && ps[0] == qs[0] && k < |ps| && k < |qs|
    ensures ps[k] == qs[k]
    decreases k
  {
    if k > 0 {
      hide Follows;
      ParsesAgree(job, ps, qs, k - 1);
      assert Follows(job, ps[k - 1], ps[k - 1 + 1]) && Follows(job, qs[k - 1], qs[k - 1 + 1]);
      FollowsIsUnique(job, ps[k - 1], ps[k], qs[k]);
    }
  }

  /** Source, table width, hash, acceleration and room decide the sequences. */
  lemma GreedyIsUnique(job: Job, entries: nat, anchor: nat, ss: seq<Sequence>, anchor': nat, ss': seq<Sequence>)
    requires Greedy(job, entries, anchor, ss) && Greedy(job, entries, anchor', ss')
    ensures anchor == anchor' && ss == ss'
  {
    hide Follows;
    if |job.src| >= MIN_LENGTH {
      var ps :| IsParse(job, ps) && ps[0] == Start(entries) && ps[|ps| - 1] == Ended(anchor, ss);
      var qs :| IsParse(job, qs) && qs[0] == Start(entries) && qs[|qs| - 1] == Ended(anchor', ss');
      var k := if |ps| < |qs| then |ps| - 1 else |qs| - 1;
      ParsesAgree(job, ps, qs, k);
      if k < |ps| - 1 { NotAtTheEnd(job, ps, k); }
      if k < |qs| - 1 { NotAtTheEnd(job, qs, k); }
    }
  }

  lemma NotAtTheEnd(job: Job, ps: seq<Point>, k: nat)
    requires IsParse(job, ps) && k < |ps| - 1
    ensures !ps[k].Ended?
  {
    assert Follows(job, ps[k], ps[k + 1]);
  }

  // ----- the steps of a compressor -----

  /** The parse has come to this point. */
  ghost predicate Reaches(job: Job, entries: nat, p: Point) {
    exists ps: seq<Point> :: IsParse(job, ps) && ps[0] == Start(entries) && ps[|ps| - 1] == p
  }

  lemma StartIsReached(job: Job, entries: nat)
    ensures Reaches(job, entries, Start(entries))
  {
    assert IsParse(job, [Start(entries)]);
  }

  lemma GoesOn(job: Job, entries: nat, p: Point, q: Point)
    requires Reaches(job, entries, p) && Follows(job, p, q)
    ensures Reaches(job, entries, q)
  {
    hide Follows;
    var ps :| IsParse(job, ps) && ps[0] == Start(entries) && ps[|ps| - 1] == p;
    assert IsParse(job, ps + [q]);
  }

  /** A match that was written goes on as the parse does. */
  lemma MatchGoesOn(job: Job, entries: nat, p: Point, code: nat)
    requires Reaches(job, entries, p) && CanMatch(job, p) && Longest(job, LengthOp(job, p), p.ip, p.m, code)
    ensures Reaches(job, entries, Extended(job, p, code))
  {
    hide Longest, LengthOp, Extended, Reaches;
    GoesOn(job, entries, p, Extended(job, p, code));
  }

  /** Behind a match, as the table says that comes out of the fill. */
  lemma BehindIs(job: Job, table: seq<nat>, end: nat, ss: seq<Sequence>)
    requires HashInto(job.hash, |table|) && 2 <= end
    ensures end + MF_LIMIT > |job.src| || !SequenceFits(job, |EncodeSequences(ss)|) ==>
              Behind(job, table, end, ss) == Ended(end, ss)
    ensures end + MF_LIMIT <= |job.src| && SequenceFits(job, |EncodeSequences(ss)|) ==>
              var filled := table[job.hash(end - 2) := end - 2][job.hash(end) := end];
              var m := if job.hash(end) == job.hash(end - 2) then end - 2 else table[job.hash(end)];
              Behind(job, table, end, ss) ==
              if Candidate(job.src, m, end) then Matching(filled, end, end, m, ss)
              else Searching(filled, end, end + 1, ss)
  {
    hide Candidate, EncodeSequences, SequenceFits;
  }

  /** What a search that has ended makes of the parse. */
  lemma Searched(job: Job, p: Point, found: bool, k: nat, n: nat)
    requires p.Searching? && HashInto(job.hash, |p.table|)
    requires var w := Search(job.src, job.t, job.hash, p.table, job.acceleration, p.ip);
             && (found <==> exists j: nat :: HasRound(w, j) && Hits(w, j))
             && (found ==> FirstHit(w, k) && ReachesBack(job.src, p.anchor, LooksAt(w, k), EntryAt(w, k), n))
    ensures var w := Search(job.src, job.t, job.hash, p.table, job.acceleration, p.ip);
            Follows(job, p, if found && LiteralsFit(job, |EncodeSequences(p.ss)|, LooksAt(w, k) - n - p.anchor)
                         then Matching(TableAt(w, k + 1), p.anchor, LooksAt(w, k) - n, EntryAt(w, k) - n, p.ss)
                         else Ended(p.anchor, p.ss))
  {
    hide HasRound, Hits, FirstHit, ReachesBack, LooksAt, TableAt, LiteralsFit, EncodeSequences;
  }

  // ----- finding the next match -----

  /** Where a match at `ip` with `m` ends. */
  ghost function MatchEnd(src: seq<byte>, m: nat, ip: nat): (end: nat)
    requires Accepted(src, m, ip)
    ensures ip + MIN_MATCH <= end <= |src| - LAST_LITERALS
  {
    ip + MIN_MATCH + Common(src, m + MIN_MATCH, ip + MIN_MATCH, |src| - LAST_LITERALS)
  }

  /** The search and the catch-up: a step of the parse. */
  method Locate(src: seq<byte>, table: array<nat>, t: TableType, hash: nat -> nat, acceleration: nat, anchor: nat,
                ip0: nat, ghost job: Job, ghost ss: seq<Sequence>)
    returns (found: bool, ip: nat, m: nat)
    requires Fits(t, |src|) && MIN_LENGTH <= |src| && HashInto(hash, table.Length) && AllBefore(table, ip0)
    requires anchor < ip0 <= |src| && job == Job(src, t, hash, acceleration, job.room)
    modifies table
    ensures found ==> anchor <= ip && Accepted(src, m, ip) && AllBefore(table, MatchEnd(src, m, ip) - 1)
    ensures found && m == ip <==> MeetsItself(src, t, hash, old(table[..]), acceleration, ip0)
    ensures found && m == ip ==> ip == anchor
    ensures Follows(job, Searching(old(table[..]), anchor, ip0, ss),
                    if found && LiteralsFit(job, |EncodeSequences(ss)|, ip - anchor)
                    then Matching(table[..], anchor, ip, m, ss) else Ended(anchor, ss))
  {
    hide Common, MeetsItself, Follows, HasRound, Hits, FirstHit, LooksAt, TableAt, ReachesBack, EncodeSequences,
      LiteralsFit;
    ghost var p := Searching(table[..], anchor, ip0, ss);
    ghost var rounds;
    found, ip, m, rounds := FindMatch(src, table, t, hash, acceleration, ip0);
    if !found {
      Searched(job, p, false, 0, 0);
      return;
    }
    ghost var ip1, m1 := ip, m;
    ip, m := CatchUp(src, anchor, ip, m);
    MatchCoversCandidate(src, m1, ip1, m, ip, |src| - LAST_LITERALS);
    Searched(job, p, true, rounds, ip1 - ip);
  }

  /** The fill and the test of the next position: what follows a match in the parse. */
  method TestNext(src: seq<byte>, table: array<nat>, t: TableType, hash: nat -> nat, ip: nat, ghost job: Job,
                  ghost ss: seq<Sequence>)
    returns (again: bool, m: nat)
    requires Fits(t, |src|) && 2 <= ip && ip + MF_LIMIT <= |src| && HashInto(hash, table.Length)
    requires AllBefore(table, ip - 1) && job == Job(src, t, hash, job.acceleration, job.room)
    requires SequenceFits(job, |EncodeSequences(ss)|) && Reaches(job, table.Length, Behind(job, table[..], ip, ss))
    modifies table
    ensures AllBefore(table, ip + 1)
    ensures again ==> m < ip && Accepted(src, m, ip) && AllBefore(table, MatchEnd(src, m, ip) - 1)
    ensures Reaches(job, table.Length, if again then Matching(table[..], ip, ip, m, ss)
                                       else Searching(table[..], ip, ip + 1, ss))
  {
    hide Reaches, Behind, EncodeSequences, Common, Accepted;
    BehindIs(job, table[..], ip, ss);
    again, m := NextPosition(src, table, t, hash, ip);
  }

  // ----- sources of one byte -----

  /** How long the match of such a source becomes. */
  ghost function OneByteCode(job: Job): nat
    requires OneByte(job.src) && LiteralsFit(job, 0, 1)
  {
    var most := |job.src| - LAST_LITERALS - 5;
    if job.room.None? || most <= 14 + 255 * (job.room.value - 10) then most else 14 + 255 * (job.room.value - 10)
  }

  lemma {:induction false} CommonOfOneByte(src: seq<byte>, a: nat, b: nat, limit: nat)
    requires OneByte(src) && a <= b <= limit <= |src|
    ensures Common(src, a, b, limit) == limit - b
    decreases limit - b
  {
    if b < limit { CommonOfOneByte(src, a + 1, b + 1, limit); }
  }

  lemma OneByteSearch(job: Job, entries: nat)
    requires OneByte(job.src) && HashInto(job.hash, entries)
    ensures var w := Search(job.src, job.t, job.hash, Start(entries).table, job.acceleration, 1);
            Follows(job, Start(entries), if LiteralsFit(job, 0, 1) then Matching(TableAt(w, 1), 0, 1, 0, [])
                                         else Ended(0, []))
  {
    hide HasRound, Hits, FirstHit, LooksAt, TableAt, LiteralsFit, Follows;
    var w := Search(job.src, job.t, job.hash, Start(entries).table, job.acceleration, 1);
    OneByteHits(job.src, job.t, job.hash, Start(entries).table, job.acceleration);
    assert FirstHit(w, 0) by { AtOnce(w); }
    assert EncodeSequences([]) == [];
    Searched(job, Start(entries), true, 0, 0);
  }

  lemma AtOnce(w: Search)
    requires HashInto(w.hash, |w.table|) && HasRound(w, 0) && Hits(w, 0)
    ensures FirstHit(w, 0)
  {
    hide HasRound, Hits;
  }

  lemma OneByteMatch(job: Job, table: seq<nat>)
    requires OneByte(job.src) && HashInto(job.hash, |table|) && LiteralsFit(job, 0, 1)
    ensures var code := OneByteCode(job);
            Follows(job, Matching(table, 0, 1, 0, []), Ended(5 + code, [Sequence(job.src[..1], 1, code + MIN_MATCH)]))
  {
    hide Common, LiteralPart, MatchPart;
    var p, code := Matching(table, 0, 1, 0, []), OneByteCode(job);
    var s: Sequence := Sequence(job.src[..1], 1, code + MIN_MATCH);
    CommonOfOneByte(job.src, 4, 5, |job.src| - LAST_LITERALS);
    assert job.src[0..1] == job.src[..1] && [] + [s] == [s];
    assert EncodeSequences([s]) == [] + EncodeSequence(s) by { assert [s][..0] == []; }
    assert Longest(job, LengthOp(job, p), 1, 0, code);
    BehindIs(job, table, 5 + code, [s]);
    assert Extended(job, p, code) == Ended(5 + code, [s]);
  }

  /**
   A source of one byte becomes that byte and one match, whatever the hash and the acceleration; where the output is to
   be filled, 255 more bytes of source go into every byte of it beyond ten.
   */
  lemma OneByteGreedy(job: Job, entries: nat)
    requires OneByte(job.src) && HashInto(job.hash, entries)
    ensures if LiteralsFit(job, 0, 1)
            then var code := OneByteCode(job);
                 Greedy(job, entries, 5 + code, [Sequence(job.src[..1], 1, code + MIN_MATCH)])
            else Greedy(job, entries, 0, [])
  {
    hide Follows, Reaches, LiteralsFit, TableAt;
    var w := Search(job.src, job.t, job.hash, Start(entries).table, job.acceleration, 1);
    StartIsReached(job, entries);
    OneByteSearch(job, entries);
    if LiteralsFit(job, 0, 1) {
      var p, code := Matching(TableAt(w, 1), 0, 1, 0, []), OneByteCode(job);
      GoesOn(job, entries, Start(entries), p);
      OneByteMatch(job, p.table);
      GoesOn(job, entries, p, Ended(5 + code, [Sequence(job.src[..1], 1, code + MIN_MATCH)]));
    } else {
      GoesOn(job, entries, Start(entries), Ended(0, []));
    }
  }
}
