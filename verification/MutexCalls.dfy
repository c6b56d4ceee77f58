/** What the mutex calls return, in every interleaving, and what they do when nobody interferes. */
module MutexCalls {
  import opened Types
  import opened Mutex

  /** Nobody holds the mutex. */
  ghost predicate Free(s: State) {
    forall u: Tid :: !Holds(s, u)
  }

  lemma FreeIff(s: State)
    requires Invariant(s)
    ensures Free(s) <==> s.lock == UNLOCKED
  {
    InvariantMeans(s);
  }

  // ----- single steps -----

  /** The step ends a call of the thread, which returns `r`. */
  ghost predicate Returns(s: State, t: Tid, expired: bool, r: Result)
    requires Enabled(s, t, Run(expired))
  {
    var th := Perform(s, t, Run(expired)).threads[t];
    th.pc.Rest? && th.last == r
  }

  /** Which result a step of a lock call gives, said in terms of who holds the mutex. */
  lemma LockReturns(s: State, t: Tid, expired: bool, r: Result)
    requires Invariant(s) && Enabled(s, t, Run(expired)) && !IsUnlockPc(s.threads[t].pc)
    ensures var pc, mine := s.threads[t].pc, s.threads[t].depth;
            Returns(s, t, expired, r) <==>
              match r
              case Locked => pc.SetOwner? || (pc.Recurse? && mine <= INT_MAX)
              case Again => pc.Recurse? && mine == INT_MAX + 1
              case Busy => pc.ReadOwner? && pc.trywait && !(mine > 0 && s.kind.Recursive?)
              case Deadlock => pc.ReadOwner? && !pc.trywait && mine > 0 && s.kind.ErrorCheck?
              case TimedOut => pc.SelfWait? || (pc.Sleep? && pc.timed && expired)
              case _ => false
  {
    hide Invariant, AfterUnlockStep;
    OneThread(s, t);
  }

  /** The same for unlock. */
  lemma UnlockReturns(s: State, t: Tid, expired: bool, r: Result)
    requires Invariant(s) && Enabled(s, t, Run(expired)) && IsUnlockPc(s.threads[t].pc)
    ensures var pc, mine := s.threads[t].pc, s.threads[t].depth;
            Returns(s, t, expired, r) <==>
              match r
              case Unlocked => || pc.Signal? || (pc.FetchSub? && s.lock == LOCKED) || (pc.UnlockCount? && mine > 1)
                               || (pc.UnlockRefuse? && s.kind.Normal? && s.owner == None)
              case NotPermitted => pc.UnlockRefuse? && (s.kind.ErrorCheck? || s.kind.Recursive?)
              case _ => false
  {
    hide Invariant;
    OneThread(s, t);
  }

  /** A thread gets the mutex exactly at an attempt to take it while nobody has it. */
  lemma StepTakes(s: State, t: Tid, a: Action)
    requires Invariant(s) && Enabled(s, t, a)
    ensures !Holds(s, t) && Holds(Perform(s, t, a), t) <==> a.Run? && IsAttempt(s.threads[t].pc) && Free(s)
  {
    FreeIff(s);
    hide Invariant, Free;
    OneThread(s, t);
  }

  predicate IsAttempt(pc: Pc) {
    pc.Try? || pc.CompareExchange? || pc.Exchange?
  }

  /** ... and gives it back exactly at the step that frees the lock word. */
  lemma StepFrees(s: State, t: Tid, a: Action)
    requires Invariant(s) && Enabled(s, t, a)
    ensures Holds(s, t) && !Holds(Perform(s, t, a), t) <==>
            a.Run? && ((s.threads[t].pc.FetchSub? && s.lock == LOCKED) || s.threads[t].pc.Store?)
    ensures Holds(s, t) && !Holds(Perform(s, t, a), t) ==> Perform(s, t, a).lock == UNLOCKED
  {
    hide Invariant;
    OneThread(s, t);
  }

  function PcAfter(s: State, t: Tid, expired: bool): Pc
    requires Enabled(s, t, Run(expired))
  {
    Perform(s, t, Run(expired)).threads[t].pc
  }

  /** A thread goes to sleep only behind a lock word that says so, and such a word is freed with a signal. */
  lemma SleepersAreMarked(s: State, t: Tid, expired: bool)
    requires Invariant(s) && Enabled(s, t, Run(expired))
    ensures var s', was, pc := Perform(s, t, Run(expired)), s.threads[t].pc, PcAfter(s, t, expired);
            && (pc.Sleep? ==> s'.lock == CONTENDED)
            && (was.FetchSub? ==> (pc.Store? <==> s.lock == CONTENDED) && s'.lock == s.lock - 1)
            && (was.Store? ==> pc.Signal? && s'.lock == UNLOCKED)
  {
    hide Invariant, AfterReadOwner;
    OneThread(s, t);
    if s.threads[t].pc.ReadOwner? { LooksOnce(s, t, s.threads[t].pc); }
  }

  /** An unlock is refused exactly to a thread that does not hold the mutex. */
  lemma RefusedIff(s: State, t: Tid, expired: bool)
    requires Invariant(s) && Enabled(s, t, Run(expired)) && s.threads[t].pc.UnlockRead?
    ensures Perform(s, t, Run(expired)).threads[t].pc.UnlockRefuse? <==> !Holds(s, t)
  {
    hide Invariant;
    OneThread(s, t);
  }

  // ----- whole runs -----

  lemma {:induction false} RunSplit(s: State, es: seq<Event>, e: Event)
    ensures IsRun(s, es + [e]) <==> IsRun(s, es) && Enabled(After(s, es), e.t, e.a)
    ensures IsRun(s, es + [e]) ==> After(s, es + [e]) == Perform(After(s, es), e.t, e.a)
    decreases |es|
  {
    hide Perform, Enabled;
    if es == [] {
      assert (es + [e])[1..] == [];
    } else {
      assert (es + [e])[0] == es[0] && (es + [e])[1..] == es[1..] + [e];
      if Enabled(s, es[0].t, es[0].a) { RunSplit(Perform(s, es[0].t, es[0].a), es[1..], e); }
    }
  }

  /** Event `j` of a run is the last of thread `t`: an attempt to take the mutex that somebody has. */
  ghost predicate FailedAt(init: State, es: seq<Event>, j: nat, t: Tid, pc: Pc) {
    && j < |es| && es[j].t == t && es[j].a.Run? && IsRun(init, es[..j])
    && (forall i :: j < i < |es| ==> es[i].t != t)
    && var s := After(init, es[..j]);
       t in s.threads && s.threads[t].pc == pc && !Free(s)
  }

  lemma FailedBefore(init: State, es: seq<Event>, e: Event, j: nat, t: Tid, pc: Pc)
    requires FailedAt(init, es, j, t, pc) && e.t != t
    ensures FailedAt(init, es + [e], j, t, pc)
  {
    hide Free;
    assert (es + [e])[..j] == es[..j];
  }

  lemma OthersStay(s: State, t: Tid, u: Tid, a: Action)
    requires Enabled(s, t, a) && u != t
    ensures u in Perform(s, t, a).threads <==> u in s.threads
    ensures u in s.threads ==> Perform(s, t, a).threads[u] == s.threads[u]
  {
  }

  /** A thread comes to look at the owner only by an attempt that failed. */
  lemma ComesToLook(s: State, t: Tid, a: Action)
    requires Invariant(s) && Enabled(s, t, a)
    ensures t in s.threads && t in Perform(s, t, a).threads
    ensures var pc := Perform(s, t, a).threads[t].pc;
            pc.ReadOwner? ==> a.Run? && s.threads[t].pc == Try(pc.trywait, pc.timed) && !Free(s)
  {
    FreeIff(s);
    hide Invariant, Free, AfterUnlockStep, AfterReadOwner;
    OneThread(s, t);
    if a.Run? && IsUnlockPc(s.threads[t].pc) { NoLook(s, t); }
    if a.Run? && s.threads[t].pc.ReadOwner? { LooksOnce(s, t, s.threads[t].pc); }
  }

  lemma NoLook(s: State, t: Tid)
    requires t in s.threads && IsUnlockPc(s.threads[t].pc)
    ensures var s' := AfterUnlockStep(s, t, s.threads[t].pc); t in s'.threads && !s'.threads[t].pc.ReadOwner?
  {
  }

  lemma LooksOnce(s: State, t: Tid, pc: Pc)
    requires t in s.threads && pc.ReadOwner?
    ensures var s' := AfterReadOwner(s, t, pc.trywait, pc.timed);
            t in s'.threads && !s'.threads[t].pc.ReadOwner? && !s'.threads[t].pc.Sleep?
  {
  }

  lemma {:induction false} LooksBecauseFailed(kind: Kind, tids: set<Tid>, es: seq<Event>, t: Tid)
    requires IsRun(Init(kind, tids), es)
    ensures var s := After(Init(kind, tids), es);
            t in s.threads && s.threads[t].pc.ReadOwner? ==>
              var pc := s.threads[t].pc;
              exists j: nat :: FailedAt(Init(kind, tids), es, j, t, Try(pc.trywait, pc.timed))
    decreases |es|
  {
    hide Perform, Enabled, Invariant, FailedAt;
    var init := Init(kind, tids);
    if es != [] {
      var before, e := es[..|es| - 1], es[|es| - 1];
      assert before + [e] == es;
      RunSplit(init, before, e);
      LooksBecauseFailed(kind, tids, before, t);
      InitIsGood(kind, tids);
      RunKeeps(init, before);
      var s := After(init, before);
      if e.t != t {
        OthersStay(s, e.t, t, e.a);
        if t in s.threads && s.threads[t].pc.ReadOwner? {
          var pc := s.threads[t].pc;
          var j: nat :| FailedAt(init, before, j, t, Try(pc.trywait, pc.timed));
          FailedBefore(init, before, e, j, t, Try(pc.trywait, pc.timed));
        }
      } else {
        ComesToLook(s, t, e.a);
        var pc := After(init, es).threads[t].pc;
        if pc.ReadOwner? { JustFailed(init, before, e, Try(pc.trywait, pc.timed)); }
      }
    }
  }

  lemma JustFailed(init: State, before: seq<Event>, e: Event, pc: Pc)
    requires IsRun(init, before) && e.a.Run? && !Free(After(init, before))
    requires e.t in After(init, before).threads && After(init, before).threads[e.t].pc == pc
    ensures FailedAt(init, before + [e], |before|, e.t, pc)
  {
    hide Free;
    assert (before + [e])[..|before|] == before;
  }

  lemma InitIsGood(kind: Kind, tids: set<Tid>)
    ensures Invariant(Init(kind, tids))
  {
  }

  /**
   In every interleaving: EBUSY is returned to a trylock only, whose attempt met a mutex that somebody had; EDEADLK to a
   lock of an error-checking mutex that the thread itself has; EPERM to an unlock by a thread that does not have the
   mutex; and 0 from a lock call leaves the mutex with the thread.
   */
  lemma ResultsAreTrue(kind: Kind, tids: set<Tid>, es: seq<Event>, t: Tid, expired: bool)
    requires IsRun(Init(kind, tids), es + [Event(t, Run(expired))])
    ensures IsRun(Init(kind, tids), es) && Enabled(After(Init(kind, tids), es), t, Run(expired))
    ensures var init := Init(kind, tids); var s := After(init, es);
            && (Returns(s, t, expired, Busy) ==>
                  exists j: nat, timed: bool :: FailedAt(init, es, j, t, Try(true, timed)))
            && (Returns(s, t, expired, Deadlock) ==> Holds(s, t) && kind.ErrorCheck?)
            && (Returns(s, t, expired, NotPermitted) ==> !Holds(s, t) && (kind.ErrorCheck? || kind.Recursive?))
            && (Returns(s, t, expired, Locked) ==> Holds(Perform(s, t, Run(expired)), t))
            && (Returns(s, t, expired, TimedOut) ==>
                  Holds(s, t) || (s.threads[t].pc == Sleep(true) && expired))
  {
    hide Invariant, FailedAt, Perform, Enabled, Returns;
    var init := Init(kind, tids);
    RunSplit(init, es, Event(t, Run(expired)));
    InitIsGood(kind, tids);
    RunKeeps(init, es);
    var s := After(init, es);
    ResultsHold(s, t, expired);
    if Returns(s, t, expired, Busy) {
      LooksBecauseFailed(kind, tids, es, t);
      var j: nat :| FailedAt(init, es, j, t, Try(s.threads[t].pc.trywait, s.threads[t].pc.timed));
    }
  }

  lemma ResultsHold(s: State, t: Tid, expired: bool)
    requires Invariant(s) && Enabled(s, t, Run(expired))
    ensures t in s.threads
    ensures Returns(s, t, expired, Busy) ==> s.threads[t].pc.ReadOwner? && s.threads[t].pc.trywait
    ensures Returns(s, t, expired, Deadlock) ==> Holds(s, t) && s.kind.ErrorCheck?
    ensures Returns(s, t, expired, NotPermitted) ==> !Holds(s, t) && (s.kind.ErrorCheck? || s.kind.Recursive?)
    ensures Returns(s, t, expired, Locked) ==> Holds(Perform(s, t, Run(expired)), t)
    ensures Returns(s, t, expired, TimedOut) ==> Holds(s, t) || (s.threads[t].pc == Sleep(true) && expired)
  {
    hide Invariant, Returns, Perform;
    OneThread(s, t);
    if IsUnlockPc(s.threads[t].pc) {
      forall r: Result { UnlockReturns(s, t, expired, r); }
    } else {
      forall r: Result { LockReturns(s, t, expired, r); }
      LockedHolds(s, t, expired);
    }
  }

  lemma LockedHolds(s: State, t: Tid, expired: bool)
    requires Invariant(s) && Enabled(s, t, Run(expired)) && !IsUnlockPc(s.threads[t].pc)
    ensures s.threads[t].pc.SetOwner? || s.threads[t].pc.Recurse? ==> Holds(Perform(s, t, Run(expired)), t)
  {
    hide Invariant, AfterUnlockStep, AfterReadOwner;
    OneThread(s, t);
  }

  // ----- calls that nobody interferes with -----

  /** The thread takes `n` steps, or fewer when its call ends before. */
  function Alone(s: State, t: Tid, n: nat): State
    requires t in s.threads
    decreases n
  {
    if n == 0 || !Enabled(s, t, Run(false)) then s else Alone(Perform(s, t, Run(false)), t, n - 1)
  }

  /** The call has returned `r`, and the thread then holds the mutex `depth` times. */
  ghost predicate Answered(s: State, t: Tid, r: Result, depth: int) {
    t in s.threads && s.threads[t].pc.Rest? && s.threads[t].last == r && s.threads[t].depth == depth
  }

  /** A free mutex is taken by every lock call. */
  lemma LockFree(s: State, t: Tid, trywait: bool, timed: bool)
    requires Invariant(s) && Enabled(s, t, CallLock(trywait, timed)) && Free(s)
    ensures Answered(Alone(Perform(s, t, CallLock(trywait, timed)), t, 2), t, Locked, 1)
  {
    FreeIff(s);
    hide Invariant, Free;
    OneThread(s, t);
    var s1 := Perform(s, t, CallLock(trywait, timed));
    var s2 := Perform(s1, t, Run(false));
    assert Alone(s1, t, 2) == Alone(s2, t, 1) == Alone(Perform(s2, t, Run(false)), t, 0);
  }

  /** A mutex that another thread has: a trylock says so, and the other calls wait. */
  lemma LockTaken(s: State, t: Tid, trywait: bool, timed: bool)
    requires Invariant(s) && Enabled(s, t, CallLock(trywait, timed)) && !Free(s) && !Holds(s, t)
    ensures var s' := Alone(Perform(s, t, CallLock(trywait, timed)), t, 2);
            if trywait then Answered(s', t, Busy, 0) else t in s'.threads && s'.threads[t].pc == Spin(timed)
  {
    FreeIff(s);
    InvariantMeans(s);
    hide Invariant, Free;
    OneThread(s, t);
    var s1 := Perform(s, t, CallLock(trywait, timed));
    var s2 := Perform(s1, t, Run(false));
    assert Alone(s1, t, 2) == Alone(s2, t, 1) == Alone(Perform(s2, t, Run(false)), t, 0);
  }

  /** The first two steps of locking again what one has. */
  lemma LooksAgain(s: State, t: Tid, trywait: bool, timed: bool)
    requires Invariant(s) && Enabled(s, t, CallLock(trywait, timed)) && Holds(s, t)
    ensures Alone(Perform(s, t, CallLock(trywait, timed)), t, 3) ==
            Alone(AfterReadOwner(Call(s, t, ReadOwner(trywait, timed)), t, trywait, timed), t, 1)
    ensures s.owner == Some(t) && s.count == s.threads[t].depth - 1
  {
    InvariantMeans(s);
    hide Invariant, AfterUnlockStep, AfterReadOwner;
    OneThread(s, t);
    var s1 := Perform(s, t, CallLock(trywait, timed));
    var s2 := Perform(s1, t, Run(false));
    assert s2 == Call(s, t, ReadOwner(trywait, timed));
    assert Alone(s1, t, 3) == Alone(s2, t, 2) == Alone(Perform(s2, t, Run(false)), t, 1);
  }

  /** A call that waits takes the mutex once it is free. */
  lemma WaitsAndTakes(s: State, t: Tid)
    requires Invariant(s) && t in s.threads && IsWaiting(s.threads[t].pc) && Free(s)
    ensures Answered(Alone(s, t, 3), t, Locked, 1)
  {
    FreeIff(s);
    hide Invariant, Free, AfterUnlockStep, AfterReadOwner;
    OneThread(s, t);
    var s1 := Perform(s, t, Run(false));
    assert Alone(s, t, 3) == Alone(s1, t, 2);
    if IsAttempt(s.threads[t].pc) {
      assert Alone(s1, t, 2) == Alone(Perform(s1, t, Run(false)), t, 1);
    } else {
      var s2 := Perform(s1, t, Run(false));
      assert Alone(s1, t, 2) == Alone(s2, t, 1) == Alone(Perform(s2, t, Run(false)), t, 0);
    }
  }

  predicate IsWaiting(pc: Pc) {
    pc.Spin? || pc.CompareExchange? || pc.Exchange? || pc.Sleep?
  }

  /** Locking again what one has: by the kind of the mutex. */
  lemma LockAgain(s: State, t: Tid, trywait: bool, timed: bool)
    requires Invariant(s) && Enabled(s, t, CallLock(trywait, timed)) && Holds(s, t)
    ensures var s', mine := Alone(Perform(s, t, CallLock(trywait, timed)), t, 3), s.threads[t].depth;
            if s.kind.Recursive? then
              if mine == INT_MAX + 1 then Answered(s', t, Again, mine) else Answered(s', t, Locked, mine + 1)
            else if trywait then Answered(s', t, Busy, mine)
            else if s.kind.ErrorCheck? then Answered(s', t, Deadlock, mine)
            else if s.kind.StrictNp? && !timed then t in s'.threads && s'.threads[t].pc.Aborted?
            else Answered(s', t, TimedOut, mine)
  {
    hide Invariant, AfterUnlockStep;
    LooksAgain(s, t, trywait, timed);
    var s3 := AfterReadOwner(Call(s, t, ReadOwner(trywait, timed)), t, trywait, timed);
    if Enabled(s3, t, Run(false)) {
      assert Alone(s3, t, 1) == Alone(Perform(s3, t, Run(false)), t, 0);
    }
  }

  /** Unlocking what one has: one less, or free. */
  lemma UnlockMine(s: State, t: Tid)
    requires Invariant(s) && Enabled(s, t, CallUnlock) && Holds(s, t)
    ensures var s', mine := Alone(Perform(s, t, CallUnlock), t, 6), s.threads[t].depth;
            Answered(s', t, Unlocked, mine - 1) && (s'.lock == UNLOCKED <==> mine == 1)
  {
    InvariantMeans(s);
    hide Invariant;
    OneThread(s, t);
    var s1 := Perform(s, t, CallUnlock);
    var s2 := Perform(s1, t, Run(false));
    assert Alone(s1, t, 6) == Alone(s2, t, 5);
    if s.kind.Recursive? {
      var s3 := Perform(s2, t, Run(false));
      assert Alone(s2, t, 5) == Alone(s3, t, 4);
      if s.threads[t].depth == 1 { Releases(s3, t, 4); }
    } else {
      Releases(s2, t, 5);
    }
  }

  lemma Releases(s: State, t: Tid, n: nat)
    requires 4 <= n && t in s.threads && s.threads[t].pc.ClearOwner? && s.lock in {LOCKED, CONTENDED}
    ensures var s' := Alone(s, t, n); Answered(s', t, Unlocked, 0) && s'.lock == UNLOCKED
  {
    hide AfterLockStep;
    var s1 := Perform(s, t, Run(false));
    var s2 := Perform(s1, t, Run(false));
    assert Alone(s, t, n) == Alone(s1, t, n - 1) == Alone(s2, t, n - 2);
    if s.lock == CONTENDED { WakesOne(s2, t, n - 2); }
  }

  lemma WakesOne(s: State, t: Tid, n: nat)
    requires 2 <= n && t in s.threads && s.threads[t].pc.Store?
    ensures var s' := Alone(s, t, n); Answered(s', t, Unlocked, 0) && s'.lock == UNLOCKED
  {
    hide AfterLockStep;
    var s1 := Perform(s, t, Run(false));
    assert Alone(s, t, n) == Alone(s1, t, n - 1) == Alone(Perform(s1, t, Run(false)), t, n - 2);
  }

  /** Unlocking what one does not have: by the kind of the mutex, and the others do not notice. */
  lemma UnlockOther(s: State, t: Tid)
    requires Invariant(s) && Enabled(s, t, CallUnlock) && !Holds(s, t)
    ensures var s' := Alone(Perform(s, t, CallUnlock), t, 2);
            && (if s.kind.ErrorCheck? || s.kind.Recursive? then Answered(s', t, NotPermitted, 0)
                else if s.kind.Normal? && s.owner == None then Answered(s', t, Unlocked, 0)
                else t in s'.threads && s'.threads[t].pc.Aborted?)
            && s'.lock == s.lock && s'.owner == s.owner && s'.count == s.count && s'.holder == s.holder
  {
    InvariantMeans(s);
    hide Invariant;
    OneThread(s, t);
    var s1 := Perform(s, t, CallUnlock);
    var s2 := Perform(s1, t, Run(false));
    assert Alone(s1, t, 2) == Alone(s2, t, 1) == Alone(Perform(s2, t, Run(false)), t, 0);
  }
}
