/**
 `pthread_mutex_lock`, `trylock`, `timedlock` and `unlock` as a state machine over any number of threads: one step
 for every access to the shared lock word, owner or count, so that any two calls may interleave between them.
 */
module Mutex {
  import opened Types

  type Tid = nat

  datatype Kind = ErrorCheck | Recursive | Normal | StrictNp

  const UNLOCKED := 0
  const LOCKED := 1
  const CONTENDED := 2
  const INT_MAX := 0x7FFF_FFFF

  /** Where a thread stands: at rest between calls, or in front of the next access to shared memory. */
  datatype Pc =
    | Rest
    // _rthread_mutex_trylock
    | Try(trywait: bool, timed: bool)
    | ReadOwner(trywait: bool, timed: bool)
    | Recurse
    | SelfWait
    // the rest of _rthread_mutex_timedlock
    | Spin(timed: bool)
    | CompareExchange(timed: bool)
    | Exchange(timed: bool)
    | Sleep(timed: bool)
    | SetOwner
    // pthread_mutex_unlock
    | UnlockRead
    | UnlockRefuse
    | UnlockCount
    | ClearOwner
    | FetchSub
    | Store
    | Signal
    | Aborted

  /** What the last call returned. */
  datatype Result = Nothing | Locked | Unlocked | Busy | Deadlock | Again | TimedOut | NotPermitted

  /** `depth` is how many lock calls of this thread have succeeded and not been undone by an unlock. */
  datatype Thread = Thread(pc: Pc, depth: int, last: Result)

  /** `holder` records who took the lock word; the program itself only has `lock`, `owner` and `count`. */
  datatype State = State(
    kind: Kind, lock: int, owner: Option<Tid>, count: int, threads: map<Tid, Thread>, holder: Option<Tid>)

  datatype Action = CallLock(trywait: bool, timed: bool) | CallUnlock | Run(expired: bool)

  function Init(kind: Kind, tids: set<Tid>): State {
    State(kind, UNLOCKED, None, 0, map t | t in tids :: Thread(Rest, 0, Nothing), None)
  }

  predicate Enabled(s: State, t: Tid, a: Action) {
    t in s.threads && match a
                      case CallLock(_, _) => s.threads[t].pc.Rest?
                      case CallUnlock => s.threads[t].pc.Rest?
                      case Run(_) => !s.threads[t].pc.Rest? && !s.threads[t].pc.Aborted?
  }

  function Go(s: State, t: Tid, pc: Pc): State
    requires t in s.threads
  {
    s.(threads := s.threads[t := s.threads[t].(pc := pc)])
  }

  function Call(s: State, t: Tid, pc: Pc): State
    requires t in s.threads
  {
    s.(threads := s.threads[t := s.threads[t].(pc := pc, last := Nothing)])
  }

  function Return(s: State, t: Tid, r: Result): State
    requires t in s.threads
  {
    s.(threads := s.threads[t := s.threads[t].(pc := Rest, last := r)])
  }

  /** The thread found the lock word 0 and replaced it with `word`. */
  function Acquire(s: State, t: Tid, word: int): State
    requires t in s.threads
  {
    s.(lock := word, holder := Some(t), threads := s.threads[t := Thread(SetOwner, 1, Nothing)])
  }

  function Release(s: State, t: Tid, pc: Pc, r: Result): State
    requires t in s.threads
  {
    s.(lock := UNLOCKED, holder := None, threads := s.threads[t := Thread(pc, 0, r)])
  }

  /** `_rthread_mutex_trylock` after its compare-exchange has failed. */
  function AfterReadOwner(s: State, t: Tid, trywait: bool, timed: bool): State
    requires t in s.threads
  {
    if s.owner != Some(t) then
      if trywait then Return(s, t, Busy) else Go(s, t, Spin(timed))
    else if s.kind.Recursive? then Go(s, t, Recurse)
    else if trywait then Return(s, t, Busy)
    else if s.kind.ErrorCheck? then Return(s, t, Deadlock)
    else if s.kind.StrictNp? && !timed then Go(s, t, Aborted)
    else Go(s, t, SelfWait)
  }

  function AfterLockStep(s: State, t: Tid, pc: Pc, expired: bool): State
    requires t in s.threads
  {
    match pc
    case Try(trywait, timed) =>
      if s.lock == UNLOCKED then Acquire(s, t, LOCKED) else Go(s, t, ReadOwner(trywait, timed))
    case ReadOwner(trywait, timed) => AfterReadOwner(s, t, trywait, timed)
    case Recurse =>
      if s.count == INT_MAX then Return(s, t, Again)
      else
        var up := s.(count := s.count + 1, threads := s.threads[t := s.threads[t].(depth := s.threads[t].depth + 1)]);
        Return(up, t, Locked)
    case SelfWait => Return(s, t, TimedOut)
    case Spin(timed) => Go(s, t, CompareExchange(timed))
    case CompareExchange(timed) =>
      if s.lock == UNLOCKED then Acquire(s, t, LOCKED)
      else if s.lock != CONTENDED then Go(s, t, Exchange(timed))
      else Go(s, t, Sleep(timed))
    case Exchange(timed) =>
      if s.lock == UNLOCKED then Acquire(s, t, CONTENDED) else Go(s.(lock := CONTENDED), t, Sleep(timed))
    case Sleep(timed) => if expired && timed then Return(s, t, TimedOut) else Go(s, t, Exchange(timed))
    case SetOwner => Return(s.(owner := Some(t)), t, Locked)
    case _ => s
  }

  function AfterUnlockStep(s: State, t: Tid, pc: Pc): State
    requires t in s.threads
  {
    match pc
    case UnlockRead =>
      if s.owner != Some(t) then Go(s, t, UnlockRefuse)
      else if s.kind.Recursive? then Go(s, t, UnlockCount)
      else Go(s, t, ClearOwner)
    case UnlockRefuse =>
      if s.kind.ErrorCheck? || s.kind.Recursive? then Return(s, t, NotPermitted)
      else if s.owner == None && s.kind.Normal? then Return(s, t, Unlocked)
      else Go(s, t, Aborted)
    case UnlockCount =>
      if s.count > 0 then
        var down := s.(count := s.count - 1, threads := s.threads[t := s.threads[t].(depth := s.threads[t].depth - 1)]);
        Return(down, t, Unlocked)
      else Go(s, t, ClearOwner)
    case ClearOwner => Go(s.(owner := None), t, FetchSub)
    case FetchSub =>
      if s.lock == LOCKED then Release(s, t, Rest, Unlocked) else Go(s.(lock := s.lock - 1), t, Store)
    case Store => Release(s, t, Signal, Nothing)
    case Signal => Return(s, t, Unlocked)
    case _ => s
  }

  predicate IsUnlockPc(pc: Pc) {
    pc.UnlockRead? || pc.UnlockRefuse? || pc.UnlockCount? || pc.ClearOwner? || pc.FetchSub? || pc.Store? || pc.Signal?
  }

  function Perform(s: State, t: Tid, a: Action): State
    requires Enabled(s, t, a)
  {
    match a
    case CallLock(trywait, timed) => Call(s, t, Try(trywait, timed))
    case CallUnlock => Call(s, t, UnlockRead)
    case Run(expired) =>
      var pc := s.threads[t].pc;
      if IsUnlockPc(pc) then AfterUnlockStep(s, t, pc) else AfterLockStep(s, t, pc, expired)
  }

  // ----- what every step keeps -----

  /** The one thread that has the lock word: the owner field names it, except while it takes or gives back. */
  ghost predicate HolderOk(s: State, t: Tid, th: Thread) {
    && th.depth >= 1
    && !th.pc.Spin? && !th.pc.CompareExchange? && !th.pc.Exchange? && !th.pc.Sleep? && !th.pc.Signal?
    && !th.pc.UnlockRefuse?
    && (if th.pc.SetOwner? || th.pc.FetchSub? || th.pc.Store?
        then s.owner == None && s.count == 0 && th.depth == 1
        else s.owner == Some(t) && s.count == th.depth - 1)
    && (th.pc.ClearOwner? ==> th.depth == 1)
    && (th.pc.Recurse? || th.pc.UnlockCount? ==> s.kind.Recursive?)
  }

  /** Every other thread: no depth, no step that only the holder takes, no success just reported. */
  ghost predicate BystanderOk(th: Thread) {
    && th.depth == 0
    && !th.pc.SetOwner? && !th.pc.ClearOwner? && !th.pc.FetchSub? && !th.pc.Store?
    && !th.pc.Recurse? && !th.pc.SelfWait? && !th.pc.UnlockCount?
    && (th.pc.Rest? ==> !th.last.Locked?)
  }

  ghost predicate SharedOk(s: State) {
    && s.lock in {UNLOCKED, LOCKED, CONTENDED}
    && (s.lock != UNLOCKED <==> s.holder.Some?)
    && (s.owner.Some? ==> s.owner == s.holder)
    && (s.owner.None? ==> s.count == 0)
    && (s.kind.Recursive? || s.count == 0) && 0 <= s.count <= INT_MAX
    && (s.holder.Some? ==> s.holder.value in s.threads)
  }

  ghost predicate ThreadOk(s: State, t: Tid, th: Thread) {
    if s.holder == Some(t) then HolderOk(s, t, th) else BystanderOk(th)
  }

  ghost predicate Invariant(s: State) {
    SharedOk(s) && forall t :: t in s.threads ==> ThreadOk(s, t, s.threads[t])
  }

  /** A step that changes the shared part only if its thread held or takes or gives up the lock word. */
  lemma OthersKeep(s: State, s': State, t: Tid)
    requires Invariant(s) && t in s.threads && s'.threads.Keys == s.threads.Keys && s'.kind == s.kind
    requires forall u :: u in s.threads && u != t ==> s'.threads[u] == s.threads[u]
    requires SharedOk(s') && ThreadOk(s', t, s'.threads[t])
    requires (s'.owner == s.owner && s'.count == s.count && s'.holder == s.holder)
             || (s.holder in {None, Some(t)} && s'.holder in {None, Some(t)})
    ensures Invariant(s')
  {
    forall u | u in s'.threads ensures ThreadOk(s', u, s'.threads[u]) {
      if u != t { assert ThreadOk(s, u, s.threads[u]); }
    }
  }

  /** The steps that can take the lock word. */
  predicate IsTakingPc(pc: Pc) {
    pc.Try? || pc.CompareExchange? || pc.Exchange? || pc.SetOwner?
  }

  lemma OneThread(s: State, t: Tid)
    requires Invariant(s) && t in s.threads
    ensures SharedOk(s) && ThreadOk(s, t, s.threads[t])
  {
  }

  lemma TakingStepKeeps(s: State, t: Tid, expired: bool)
    requires Invariant(s) && Enabled(s, t, Run(expired)) && IsTakingPc(s.threads[t].pc)
    ensures Invariant(AfterLockStep(s, t, s.threads[t].pc, expired))
  {
    hide Invariant;
    OneThread(s, t);
    OthersKeep(s, AfterLockStep(s, t, s.threads[t].pc, expired), t);
  }

  lemma OwnerStepKeeps(s: State, t: Tid, expired: bool)
    requires Invariant(s) && Enabled(s, t, Run(expired)) && s.threads[t].pc.ReadOwner?
    ensures Invariant(AfterLockStep(s, t, s.threads[t].pc, expired))
  {
    hide Invariant;
    OneThread(s, t);
    OthersKeep(s, AfterLockStep(s, t, s.threads[t].pc, expired), t);
  }

  /** The steps of a thread that waits, or that has the lock already. */
  lemma WaitingStepKeeps(s: State, t: Tid, expired: bool)
    requires Invariant(s) && Enabled(s, t, Run(expired)) && !IsUnlockPc(s.threads[t].pc)
    requires !IsTakingPc(s.threads[t].pc) && !s.threads[t].pc.ReadOwner?
    ensures Invariant(AfterLockStep(s, t, s.threads[t].pc, expired))
  {
    hide Invariant;
    OneThread(s, t);
    OthersKeep(s, AfterLockStep(s, t, s.threads[t].pc, expired), t);
  }

  lemma LockStepKeeps(s: State, t: Tid, expired: bool)
    requires Invariant(s) && Enabled(s, t, Run(expired)) && !IsUnlockPc(s.threads[t].pc)
    ensures Invariant(AfterLockStep(s, t, s.threads[t].pc, expired))
  {
    hide Invariant, AfterLockStep;
    if IsTakingPc(s.threads[t].pc) {
      TakingStepKeeps(s, t, expired);
    } else if s.threads[t].pc.ReadOwner? {
      OwnerStepKeeps(s, t, expired);
    } else {
      WaitingStepKeeps(s, t, expired);
    }
  }

  /** The steps of a refused unlock, and those that only look. */
  predicate IsLookingPc(pc: Pc) {
    pc.UnlockRead? || pc.UnlockRefuse?
  }

  predicate IsCountingPc(pc: Pc) {
    pc.UnlockCount? || pc.ClearOwner?
  }

  lemma LookingStepKeeps(s: State, t: Tid, expired: bool)
    requires Invariant(s) && Enabled(s, t, Run(expired)) && IsLookingPc(s.threads[t].pc)
    ensures Invariant(AfterUnlockStep(s, t, s.threads[t].pc))
  {
    hide Invariant;
    OneThread(s, t);
    OthersKeep(s, AfterUnlockStep(s, t, s.threads[t].pc), t);
  }

  lemma CountingStepKeeps(s: State, t: Tid, expired: bool)
    requires Invariant(s) && Enabled(s, t, Run(expired)) && IsCountingPc(s.threads[t].pc)
    ensures Invariant(AfterUnlockStep(s, t, s.threads[t].pc))
  {
    hide Invariant;
    OneThread(s, t);
    OthersKeep(s, AfterUnlockStep(s, t, s.threads[t].pc), t);
  }

  lemma ReleasingStepKeeps(s: State, t: Tid, expired: bool)
    requires Invariant(s) && Enabled(s, t, Run(expired)) && IsUnlockPc(s.threads[t].pc)
    requires !IsLookingPc(s.threads[t].pc) && !IsCountingPc(s.threads[t].pc)
    ensures Invariant(AfterUnlockStep(s, t, s.threads[t].pc))
  {
    hide Invariant;
    OneThread(s, t);
    OthersKeep(s, AfterUnlockStep(s, t, s.threads[t].pc), t);
  }

  lemma UnlockStepKeeps(s: State, t: Tid, expired: bool)
    requires Invariant(s) && Enabled(s, t, Run(expired)) && IsUnlockPc(s.threads[t].pc)
    ensures Invariant(AfterUnlockStep(s, t, s.threads[t].pc))
  {
    hide Invariant, AfterUnlockStep;
    if IsLookingPc(s.threads[t].pc) {
      LookingStepKeeps(s, t, expired);
    } else if IsCountingPc(s.threads[t].pc) {
      CountingStepKeeps(s, t, expired);
    } else {
      ReleasingStepKeeps(s, t, expired);
    }
  }

  lemma StepKeeps(s: State, t: Tid, a: Action)
    requires Invariant(s) && Enabled(s, t, a)
    ensures Invariant(Perform(s, t, a))
  {
    match a
    case Run(expired) =>
      if IsUnlockPc(s.threads[t].pc) {
        UnlockStepKeeps(s, t, expired);
      } else {
        LockStepKeeps(s, t, expired);
      }
    case _ =>
      assert ThreadOk(s, t, s.threads[t]);
      OthersKeep(s, Perform(s, t, a), t);
  }

  // ----- whole runs -----

  datatype Event = Event(t: Tid, a: Action)

  predicate IsRun(s: State, es: seq<Event>)
    decreases |es|
  {
    es == [] || (Enabled(s, es[0].t, es[0].a) && IsRun(Perform(s, es[0].t, es[0].a), es[1..]))
  }

  function After(s: State, es: seq<Event>): State
    requires IsRun(s, es)
    decreases |es|
  {
    if es == [] then s else After(Perform(s, es[0].t, es[0].a), es[1..])
  }

  lemma {:induction false} RunKeeps(s: State, es: seq<Event>)
    requires Invariant(s) && IsRun(s, es)
    ensures Invariant(After(s, es)) && After(s, es).kind == s.kind
    decreases |es|
  {
    if es != [] {
      KindKept(s, es[0].t, es[0].a);
      StepKeeps(s, es[0].t, es[0].a);
      hide Invariant, Perform, Enabled;
      RunKeeps(Perform(s, es[0].t, es[0].a), es[1..]);
    }
  }

  lemma KindKept(s: State, t: Tid, a: Action)
    requires Enabled(s, t, a)
    ensures Perform(s, t, a).kind == s.kind
  {
  }

  /** A thread has the mutex from the step that took the lock word to the step that gives it back. */
  predicate Holds(s: State, t: Tid) {
    t in s.threads && s.threads[t].depth >= 1
  }

  /** ... and gives it back while it is between clearing the owner and freeing the word. */
  predicate InTransit(s: State, t: Tid) {
    t in s.threads && (s.threads[t].pc.SetOwner? || s.threads[t].pc.FetchSub? || s.threads[t].pc.Store?)
  }

  /** In every interleaving of any number of threads: at most one thread holds the mutex. */
  lemma MutualExclusion(kind: Kind, tids: set<Tid>, es: seq<Event>, t: Tid, u: Tid)
    requires IsRun(Init(kind, tids), es)
    requires Holds(After(Init(kind, tids), es), t) && Holds(After(Init(kind, tids), es), u)
    ensures t == u
  {
    RunKeeps(Init(kind, tids), es);
    var s := After(Init(kind, tids), es);
    assert ThreadOk(s, t, s.threads[t]) && ThreadOk(s, u, s.threads[u]);
  }

  /**
   In every interleaving the lock word is 0, 1 or 2 and is nonzero exactly while some thread holds the mutex; the
   owner field is empty or names the holder, and is empty under a holder only while it takes or gives back; a
   recursive mutex counts the holder's nesting depth minus one; and a call that reports success has the mutex.
   */
  lemma EveryRunIsSafe(kind: Kind, tids: set<Tid>, es: seq<Event>)
    requires IsRun(Init(kind, tids), es)
    ensures var s := After(Init(kind, tids), es);
            && s.lock in {UNLOCKED, LOCKED, CONTENDED}
            && (s.lock != UNLOCKED <==> exists t: Tid :: Holds(s, t))
            && (forall t: Tid :: s.owner == Some(t) ==> Holds(s, t))
            && (forall t: Tid :: Holds(s, t) && !InTransit(s, t) ==> s.owner == Some(t))
            && (forall t: Tid :: s.owner == Some(t) ==> s.count == s.threads[t].depth - 1)
            && (!kind.Recursive? ==> forall t: Tid :: Holds(s, t) ==> s.threads[t].depth == 1)
            && (forall t: Tid :: t in s.threads && s.threads[t].pc.Rest? && s.threads[t].last.Locked? ==> Holds(s, t))
  {
    RunKeeps(Init(kind, tids), es);
    InvariantMeans(After(Init(kind, tids), es));
  }

  lemma InvariantMeans(s: State)
    requires Invariant(s)
    ensures s.lock in {UNLOCKED, LOCKED, CONTENDED}
    ensures s.lock != UNLOCKED <==> exists t: Tid :: Holds(s, t)
    ensures forall t: Tid :: s.owner == Some(t) ==> Holds(s, t)
    ensures forall t: Tid :: Holds(s, t) && !InTransit(s, t) ==> s.owner == Some(t)
    ensures forall t: Tid :: s.owner == Some(t) ==> s.count == s.threads[t].depth - 1
    ensures !s.kind.Recursive? ==> forall t: Tid :: Holds(s, t) ==> s.threads[t].depth == 1
    ensures forall t: Tid :: t in s.threads && s.threads[t].pc.Rest? && s.threads[t].last.Locked? ==> Holds(s, t)
  {
    if s.holder.Some? {
      assert ThreadOk(s, s.holder.value, s.threads[s.holder.value]);
      assert Holds(s, s.holder.value);
    }
  }

  /** A thread that does not hold the mutex never frees it: its steps leave the holder, the owner and the count. */
  lemma OnlyTheHolderReleases(s: State, t: Tid, u: Tid, a: Action)
    requires Invariant(s) && Holds(s, u) && t != u && Enabled(s, t, a)
    ensures var s' := Perform(s, t, a);
            && s'.lock != UNLOCKED && Holds(s', u)
            && s'.owner == s.owner && s'.count == s.count
            && s'.threads[u] == s.threads[u]
  {
    assert ThreadOk(s, u, s.threads[u]) && ThreadOk(s, t, s.threads[t]);
  }
}
