/**
 `_sem_wait` and `_sem_post` as a state machine over any number of threads. The monitor makes everything between
 taking its lock and sleeping or unlocking one step; a signal wakes one sleeping thread and is not remembered.
 */
module Semaphore {
  import opened Types

  type Tid = nat

  /** What a wait returns: 0, EAGAIN, ETIMEDOUT or EINTR. */
  datatype Answer = Success | Again | Late | Cancelled

  /**
   `value` is the 32-bit counter. The threads inside the wait loop are asleep, or woken and on their way back to
   the lock: by a signal, by the deadline, or by an interruption. `last` is what the last wait of a thread has
   returned; the other fields record the history.
   */
  datatype State = State(
    value: nat, waitcount: int,
    asleep: set<Tid>, signalled: set<Tid>, timedOut: set<Tid>, interrupted: set<Tid>,
    initial: nat, posts: nat, waits: nat, last: map<Tid, Answer>)

  datatype Event =
    | Wait(t: Tid, tryOnly: bool)
    | TimeOut(t: Tid)
    | Interrupt(t: Tid)
    | Resume(t: Tid, cancelled: bool)
    | Post(woken: Option<Tid>)

  function InWaitLoop(s: State): set<Tid> {
    s.asleep + s.signalled + s.timedOut + s.interrupted
  }

  function Init(value: nat): State
    requires value < WORD
  {
    State(value, 0, {}, {}, {}, {}, value, 0, 0, map[])
  }

  /** What may happen next. A post wakes some sleeper whenever `waitcount` is positive and someone sleeps. */
  predicate Enabled(s: State, e: Event) {
    match e
    case Wait(t, _) => t !in InWaitLoop(s)
    case TimeOut(t) => t in s.asleep
    case Interrupt(t) => t in s.asleep
    case Resume(t, _) => t in InWaitLoop(s) - s.asleep
    case Post(woken) =>
      if s.waitcount != 0 && s.asleep != {} then woken.Some? && woken.value in s.asleep else woken.None?
  }

  function Take(s: State): State
    requires s.value > 0
  {
    s.(value := s.value - 1, waits := s.waits + 1)
  }

  function Return(s: State, t: Tid, a: Answer): State {
    s.(last := s.last[t := a])
  }

  /** Thread `t` is no longer on its way. */
  function Arrive(s: State, t: Tid): State {
    s.(signalled := s.signalled - {t}, timedOut := s.timedOut - {t}, interrupted := s.interrupted - {t})
  }

  /** The part of `_sem_wait` after `phal_semaphore_wait` returns: sleep again, give up, or take one. */
  function AfterWait(s: State, t: Tid, cancelled: bool): State
    requires t in InWaitLoop(s) - s.asleep
  {
    var giveUp := t in s.timedOut || (t in s.interrupted && cancelled);
    var back := Arrive(s, t);
    if giveUp then Return(back.(waitcount := s.waitcount - 1), t, if t in s.timedOut then Late else Cancelled)
    else if s.value == 0 then back.(asleep := s.asleep + {t})
    else Return(Take(back.(waitcount := s.waitcount - 1)), t, Success)
  }

  function Apply(s: State, e: Event): State
    requires Enabled(s, e)
  {
    match e
    case Wait(t, tryOnly) =>
      if s.value > 0 then Return(Take(s), t, Success)
      else if tryOnly then Return(s, t, Again)
      else s.(waitcount := s.waitcount + 1, asleep := s.asleep + {t})
    case TimeOut(t) => s.(asleep := s.asleep - {t}, timedOut := s.timedOut + {t})
    case Interrupt(t) => s.(asleep := s.asleep - {t}, interrupted := s.interrupted + {t})
    case Resume(t, cancelled) => AfterWait(s, t, cancelled)
    case Post(woken) =>
      var up := s.(value := (s.value + 1) % WORD, posts := s.posts + 1);
      if woken.None? then up
      else up.(asleep := s.asleep - {woken.value}, signalled := s.signalled + {woken.value})
  }

  // ----- what every step keeps -----

  /** The tokens that have been put in and not taken out. */
  function Balance(s: State): int {
    s.initial + s.posts - s.waits
  }

  ghost predicate Disjoint(s: State) {
    && s.asleep !! s.signalled && s.asleep !! s.timedOut && s.asleep !! s.interrupted
    && s.signalled !! s.timedOut && s.signalled !! s.interrupted && s.timedOut !! s.interrupted
  }

  /** The counter is the balance, in 32 bits. */
  ghost predicate Counted(s: State) {
    Balance(s) >= 0 && s.value == Balance(s) % WORD
  }

  ghost predicate Invariant(s: State) {
    && Counted(s)
    // `waitcount` counts the threads inside the wait loop
    && Disjoint(s)
    && s.waitcount == |s.asleep| + |s.signalled| + |s.timedOut| + |s.interrupted|
    // no post is lost: whatever is available while someone sleeps has a signalled thread coming for it
    && (s.asleep != {} ==> s.value <= |s.signalled|)
  }

  lemma TakeKeepsBalance(s: State)
    requires Counted(s) && s.value > 0
    ensures Counted(Take(s))
  {
  }

  /** What a thread is told changes nothing else. */
  lemma ReturnKeeps(s: State, t: Tid, a: Answer)
    requires Invariant(s)
    ensures Invariant(Return(s, t, a))
  {
    hide Disjoint;
    CountedUnmoved(s, Return(s, t, a));
    assert Disjoint(Return(s, t, a)) == Disjoint(s) by { SameSets(s, Return(s, t, a)); }
  }

  lemma SameSets(s: State, s': State)
    requires s'.asleep == s.asleep && s'.signalled == s.signalled
    requires s'.timedOut == s.timedOut && s'.interrupted == s.interrupted
    ensures Disjoint(s') == Disjoint(s)
  {
  }

  lemma CountedUnmoved(s: State, s': State)
    requires Counted(s) && s'.value == s.value
    requires s'.initial == s.initial && s'.posts == s.posts && s'.waits == s.waits
    ensures Counted(s')
  {
  }

  lemma WaitKeeps(s: State, t: Tid, tryOnly: bool)
    requires Invariant(s) && t !in InWaitLoop(s)
    ensures Invariant(Apply(s, Wait(t, tryOnly)))
  {
    if s.value > 0 { TakeKeepsBalance(s); }
  }

  lemma TimeOutKeeps(s: State, t: Tid)
    requires Invariant(s) && t in s.asleep
    ensures Invariant(Apply(s, TimeOut(t)))
  {
    hide Counted, Disjoint;
    CountedUnmoved(s, Apply(s, TimeOut(t)));
    WakesDisjoint(s, t);
    RemoveOne(s.asleep, t);
    AddOne(s.timedOut, t);
  }

  lemma InterruptKeeps(s: State, t: Tid)
    requires Invariant(s) && t in s.asleep
    ensures Invariant(Apply(s, Interrupt(t)))
  {
    hide Counted, Disjoint;
    CountedUnmoved(s, Apply(s, Interrupt(t)));
    WakesDisjoint(s, t);
    RemoveOne(s.asleep, t);
    AddOne(s.interrupted, t);
  }

  lemma WakesDisjoint(s: State, t: Tid)
    requires Disjoint(s) && t in s.asleep
    ensures Disjoint(Apply(s, TimeOut(t))) && Disjoint(Apply(s, Interrupt(t)))
    ensures t !in s.timedOut && t !in s.interrupted
  {
  }

  lemma AddOne(u: set<Tid>, t: Tid)
    requires t !in u
    ensures |u + {t}| == |u| + 1
  {
  }

  /** `b` is `s` without one thread on its way. */
  ghost predicate OneFewer(s: State, b: State, t: Tid) {
    && b == s.(signalled := b.signalled, timedOut := b.timedOut, interrupted := b.interrupted)
    && Disjoint(b) && t !in InWaitLoop(b)
    && |b.signalled| + |b.timedOut| + |b.interrupted| + 1 == |s.signalled| + |s.timedOut| + |s.interrupted|
    && |s.signalled| - 1 <= |b.signalled|
    && (t !in s.signalled ==> b.signalled == s.signalled)
  }

  lemma ArriveLeavesDisjoint(s: State, t: Tid)
    requires Disjoint(s) && t !in s.asleep
    ensures Disjoint(Arrive(s, t)) && t !in InWaitLoop(Arrive(s, t))
  {
  }

  lemma RemoveOne(u: set<Tid>, t: Tid)
    ensures |u - {t}| == if t in u then |u| - 1 else |u|
    ensures t !in u ==> u - {t} == u
  {
    if t !in u { assert u - {t} == u; }
  }

  /** A thread that is awake in the wait loop woke up for one reason. */
  lemma OnOneWay(s: State, t: Tid)
    requires Disjoint(s) && t in InWaitLoop(s) - s.asleep
    ensures t !in s.asleep && (t in s.signalled || t in s.timedOut || t in s.interrupted)
    ensures t in s.timedOut || t in s.interrupted ==> t !in s.signalled
    ensures t in s.interrupted ==> t !in s.timedOut
  {
  }

  lemma ArriveIsOneFewer(s: State, t: Tid)
    requires Disjoint(s) && t in InWaitLoop(s) - s.asleep
    ensures OneFewer(s, Arrive(s, t), t) && Arrive(s, t).value == s.value
    ensures t in s.timedOut || t in s.interrupted ==> t !in s.signalled
  {
    hide InWaitLoop, Disjoint;
    OnOneWay(s, t);
    ArriveLeavesDisjoint(s, t);
    RemoveOne(s.signalled, t);
    RemoveOne(s.timedOut, t);
    RemoveOne(s.interrupted, t);
  }

  lemma GiveUpKeeps(s: State, b: State, t: Tid)
    requires Invariant(s) && OneFewer(s, b, t) && t !in s.signalled
    ensures Invariant(b.(waitcount := s.waitcount - 1))
  {
  }

  lemma SleepAgainKeeps(s: State, b: State, t: Tid)
    requires Invariant(s) && OneFewer(s, b, t) && s.value == 0
    ensures Invariant(b.(asleep := s.asleep + {t}))
  {
  }

  lemma TakeKeeps(s: State, b: State, t: Tid)
    requires Invariant(s) && OneFewer(s, b, t) && s.value > 0
    ensures Invariant(Take(b.(waitcount := s.waitcount - 1)))
  {
    TakeKeepsBalance(b.(waitcount := s.waitcount - 1));
  }

  lemma ResumeKeeps(s: State, t: Tid, cancelled: bool)
    requires Invariant(s) && t in InWaitLoop(s) - s.asleep
    ensures Invariant(Apply(s, Resume(t, cancelled)))
  {
    hide OneFewer, Arrive, Take, InWaitLoop, Counted, Disjoint, Return;
    ArriveIsOneFewer(s, t);
    hide Invariant;
    var b := Arrive(s, t);
    if t in s.timedOut || (t in s.interrupted && cancelled) {
      GiveUpKeeps(s, b, t);
      ReturnKeeps(b.(waitcount := s.waitcount - 1), t, if t in s.timedOut then Late else Cancelled);
    } else if s.value == 0 {
      SleepAgainKeeps(s, b, t);
    } else {
      TakeKeeps(s, b, t);
      ReturnKeeps(Take(b.(waitcount := s.waitcount - 1)), t, Success);
    }
  }

  lemma PostKeeps(s: State, woken: Option<Tid>)
    requires Invariant(s) && Enabled(s, Post(woken))
    ensures Invariant(Apply(s, Post(woken)))
  {
    assert (Balance(s) + 1) % WORD == (Balance(s) % WORD + 1) % WORD;
    if s.asleep != {} {
      assert |s.asleep| > 0;
    }
  }

  lemma StepKeeps(s: State, e: Event)
    requires Invariant(s) && Enabled(s, e)
    ensures Invariant(Apply(s, e))
  {
    match e
    case Wait(t, tryOnly) => WaitKeeps(s, t, tryOnly);
    case TimeOut(t) => TimeOutKeeps(s, t);
    case Interrupt(t) => InterruptKeeps(s, t);
    case Resume(t, cancelled) => ResumeKeeps(s, t, cancelled);
    case Post(woken) => PostKeeps(s, woken);
  }

  // ----- whole runs -----

  /** The events can happen in this order, starting from `s`. */
  predicate IsRun(s: State, es: seq<Event>)
    decreases |es|
  {
    es == [] || (Enabled(s, es[0]) && IsRun(Apply(s, es[0]), es[1..]))
  }

  function After(s: State, es: seq<Event>): State
    requires IsRun(s, es)
    decreases |es|
  {
    if es == [] then s else After(Apply(s, es[0]), es[1..])
  }

  lemma {:induction false} RunKeeps(s: State, es: seq<Event>)
    requires Invariant(s) && IsRun(s, es)
    ensures Invariant(After(s, es))
    decreases |es|
  {
    if es != [] {
      hide Invariant, Apply, Enabled;
      StepKeeps(s, es[0]);
      RunKeeps(Apply(s, es[0]), es[1..]);
    }
  }

  lemma CountInLoop(s: State)
    requires Disjoint(s)
    ensures |InWaitLoop(s)| == |s.asleep| + |s.signalled| + |s.timedOut| + |s.interrupted|
  {
    assert |s.asleep + s.signalled| == |s.asleep| + |s.signalled|;
    assert |s.asleep + s.signalled + s.timedOut| == |s.asleep| + |s.signalled| + |s.timedOut|;
  }

  /** No post is lost: when a token is there and a thread sleeps, a signalled thread is coming and will take it. */
  lemma SleeperIsCovered(s: State, cancelled: bool) returns (t: Tid)
    requires Invariant(s) && s.asleep != {} && s.value > 0
    ensures t in s.signalled && Enabled(s, Resume(t, cancelled))
    ensures Apply(s, Resume(t, cancelled)).waits == s.waits + 1
    ensures t !in InWaitLoop(Apply(s, Resume(t, cancelled)))
  {
    assert |s.signalled| > 0;
    t :| t in s.signalled;
  }

  // ----- what the calls return -----

  /** The event ends a wait of thread `t`, which returns `a`. */
  ghost predicate Returns(s: State, e: Event, t: Tid, a: Answer)
    requires Enabled(s, e)
  {
    && (e.Wait? || e.Resume?) && e.t == t && t !in InWaitLoop(Apply(s, e))
    && t in Apply(s, e).last && Apply(s, e).last[t] == a
  }

  predicate IsAbout(e: Event, t: Tid) {
    match e
    case Post(woken) => woken == Some(t)
    case _ => e.t == t
  }

  /** The last event that is about a thread. */
  function LastAbout(es: seq<Event>, t: Tid): Option<Event> {
    if es == [] then None
    else if IsAbout(es[|es| - 1], t) then Some(es[|es| - 1])
    else LastAbout(es[..|es| - 1], t)
  }

  lemma {:induction false} RunSplit(s: State, es: seq<Event>, e: Event)
    ensures IsRun(s, es + [e]) <==> IsRun(s, es) && Enabled(After(s, es), e)
    ensures IsRun(s, es + [e]) ==> After(s, es + [e]) == Apply(After(s, es), e)
    decreases |es|
  {
    hide Apply, Enabled;
    if es == [] {
      assert (es + [e])[1..] == [];
    } else {
      assert (es + [e])[0] == es[0] && (es + [e])[1..] == es[1..] + [e];
      if Enabled(s, es[0]) { RunSplit(Apply(s, es[0]), es[1..], e); }
    }
  }

  /** Which set a thread is in says what has happened to it last. */
  ghost predicate Woken(s: State, es: seq<Event>, t: Tid) {
    && (t in s.timedOut <==> LastAbout(es, t) == Some(TimeOut(t)))
    && (t in s.interrupted <==> LastAbout(es, t) == Some(Interrupt(t)))
    && (t in s.signalled <==> LastAbout(es, t) == Some(Post(Some(t))))
  }

  lemma StepWakes(s: State, es: seq<Event>, e: Event, t: Tid)
    requires Disjoint(s) && Enabled(s, e) && Woken(s, es, t)
    ensures Woken(Apply(s, e), es + [e], t)
  {
    hide LastAbout;
    LastAboutMore(es, e, t);
  }

  lemma LastAboutMore(es: seq<Event>, e: Event, t: Tid)
    ensures LastAbout(es + [e], t) == if IsAbout(e, t) then Some(e) else LastAbout(es, t)
  {
    assert (es + [e])[..|es|] == es;
  }

  lemma {:induction false} WokenInRun(value: nat, es: seq<Event>, t: Tid)
    requires value < WORD && IsRun(Init(value), es)
    ensures Woken(After(Init(value), es), es, t) && Invariant(After(Init(value), es))
    decreases |es|
  {
    hide Apply, Enabled, Invariant, Disjoint, Woken;
    InitIsGood(value, t);
    if es != [] {
      var before, e := es[..|es| - 1], es[|es| - 1];
      assert before + [e] == es;
      RunSplit(Init(value), before, e);
      WokenInRun(value, before, t);
      InvariantDisjoint(After(Init(value), before));
      StepWakes(After(Init(value), before), before, e, t);
      StepKeeps(After(Init(value), before), e);
    }
  }

  lemma InitIsGood(value: nat, t: Tid)
    requires value < WORD
    ensures Invariant(Init(value)) && Woken(Init(value), [], t)
  {
  }

  lemma InvariantDisjoint(s: State)
    requires Invariant(s)
    ensures Disjoint(s)
  {
    hide Disjoint, Counted;
  }

  /** When a wait that just begins returns, and what. */
  lemma WaitReturns(s: State, t: Tid, tryOnly: bool, a: Answer)
    requires t !in InWaitLoop(s)
    ensures var e := Wait(t, tryOnly);
            && (Returns(s, e, t, a) <==> (a == Success && s.value > 0) || (a == Again && s.value == 0 && tryOnly))
            && (t in Apply(s, e).asleep <==> s.value == 0 && !tryOnly)
            && (Apply(s, e).waits == s.waits + 1 <==> s.value > 0)
  {
  }

  /** When a wait that was woken returns, and what. */
  lemma ResumeReturns(s: State, t: Tid, cancelled: bool, a: Answer)
    requires Disjoint(s) && t in InWaitLoop(s) - s.asleep
    ensures var e := Resume(t, cancelled);
            && (Returns(s, e, t, a) <==>
                match a
                case Late => t in s.timedOut
                case Cancelled => t in s.interrupted && cancelled
                case Success => s.value > 0 && (t in s.signalled || (t in s.interrupted && !cancelled))
                case Again => false)
            && (Apply(s, e).waits == s.waits + 1 <==> Returns(s, e, t, Success))
  {
    OnOneWay(s, t);
  }

  /**
   In every run, what a wait returns says what has happened: 0 exactly when it took a token, which was there; EAGAIN
   exactly to a try that found none; ETIMEDOUT and EINTR exactly to a thread whose sleep was last ended by the deadline
   or, with a cancellation, by an interruption. It takes a token exactly when it returns 0.
   */
  lemma AnswersAreRight(value: nat, es: seq<Event>, e: Event, t: Tid, a: Answer)
    requires value < WORD && IsRun(Init(value), es + [e]) && (e.Wait? || e.Resume?) && e.t == t
    ensures IsRun(Init(value), es) && Enabled(After(Init(value), es), e)
    ensures var s, why := After(Init(value), es), LastAbout(es, t);
            && (Returns(s, e, t, a) <==>
                match a
                case Success => s.value > 0 && (e.Wait? || why == Some(Post(Some(t)))
                                                        || (why == Some(Interrupt(t)) && !e.cancelled))
                case Again => e == Wait(t, true) && s.value == 0
                case Late => e.Resume? && why == Some(TimeOut(t))
                case Cancelled => e == Resume(t, true) && why == Some(Interrupt(t)))
            && (After(Init(value), es + [e]).waits == s.waits + 1 <==> Returns(s, e, t, Success))
  {
    hide Invariant, Disjoint, Apply, Returns, InWaitLoop;
    RunSplit(Init(value), es, e);
    WokenInRun(value, es, t);
    var s := After(Init(value), es);
    InvariantDisjoint(s);
    if e.Wait? {
      WaitReturns(s, t, e.tryOnly, a);
      WaitReturns(s, t, e.tryOnly, Success);
    } else {
      ResumeReturns(s, t, e.cancelled, a);
      ResumeReturns(s, t, e.cancelled, Success);
    }
  }

  // ----- conservation -----

  /** How many posts there are in a run, and how many waits that return 0. */
  function PostsIn(es: seq<Event>): nat {
    if es == [] then 0 else (if es[0].Post? then 1 else 0) + PostsIn(es[1..])
  }

  ghost function SuccessesIn(s: State, es: seq<Event>): nat
    requires IsRun(s, es)
    decreases |es|
  {
    if es == [] then 0
    else
      var e := es[0];
      (if (e.Wait? || e.Resume?) && Returns(s, e, e.t, Success) then 1 else 0) + SuccessesIn(Apply(s, e), es[1..])
  }

  lemma StepCounts(s: State, e: Event)
    requires Disjoint(s) && Enabled(s, e)
    ensures var s' := Apply(s, e);
            && s'.initial == s.initial && s'.posts == s.posts + (if e.Post? then 1 else 0)
            && s'.waits == s.waits + (if (e.Wait? || e.Resume?) && Returns(s, e, e.t, Success) then 1 else 0)
  {
    if e.Resume? { OnOneWay(s, e.t); }
  }

  lemma {:induction false} RunCounts(s: State, es: seq<Event>)
    requires Invariant(s) && IsRun(s, es)
    ensures var s' := After(s, es);
            s'.initial == s.initial && s'.posts == s.posts + PostsIn(es) && s'.waits == s.waits + SuccessesIn(s, es)
    decreases |es|
  {
    hide Invariant, Apply, Enabled, Disjoint, Returns;
    if es != [] {
      InvariantDisjoint(s);
      StepCounts(s, es[0]);
      StepKeeps(s, es[0]);
      RunCounts(Apply(s, es[0]), es[1..]);
    }
  }

  /**
   In every state that posts, waits, timeouts and interruptions of any number of threads can lead to, the counter
   is what it was at first, more by the posts and less by the waits that returned 0, in 32 bits; `waitcount` is the
   number of threads inside the wait loop, and while a thread sleeps no more is available than there are signalled
   threads on their way.
   */
  lemma EveryRunIsSafe(value: nat, es: seq<Event>)
    requires value < WORD && IsRun(Init(value), es)
    ensures var s := After(Init(value), es);
            var balance := value + PostsIn(es) - SuccessesIn(Init(value), es);
            && balance >= 0 && s.value == balance % WORD
            && s.waitcount == |InWaitLoop(s)|
            && (s.asleep != {} ==> s.value <= |s.signalled|)
  {
    hide SuccessesIn, PostsIn;
    RunKeeps(Init(value), es);
    RunCounts(Init(value), es);
    CountInLoop(After(Init(value), es));
  }

  // ----- when the counter is the balance itself -----

  const INT_MAX := 0x7FFF_FFFF
  const UINT_MAX := 0xFFFF_FFFF

  /**
   The 32-bit pattern as a number whose largest value is `top`. The field is an `int`, so that it reads as a signed
   number, with INT_MAX as the top; what waits and posts do depends on the pattern alone, which is the reading with
   UINT_MAX as the top.
   */
  function Reading(value: nat, top: nat): int {
    if value <= top then value else value - WORD
  }

  /** No post happens while the counter stands at its largest value. */
  predicate NeverFull(s: State, es: seq<Event>, top: nat)
    requires IsRun(s, es)
    decreases |es|
  {
    es == [] || ((es[0].Post? ==> s.value != top) && NeverFull(Apply(s, es[0]), es[1..], top))
  }

  /** At every point of the run the counter reads as the balance, not only modulo 2^32. */
  predicate ExactThroughout(s: State, es: seq<Event>, top: nat)
    requires IsRun(s, es)
    decreases |es|
  {
    Reading(s.value, top) == Balance(s) && (es != [] ==> ExactThroughout(Apply(s, es[0]), es[1..], top))
  }

  /** Only a post at the largest value parts the counter from the balance. */
  lemma StepExact(s: State, e: Event, top: nat)
    requires s.value == Balance(s) <= top < WORD && Enabled(s, e)
    ensures var s' := Apply(s, e);
            && (Reading(s'.value, top) == Balance(s') <==> (e.Post? ==> s.value != top))
            && (Reading(s'.value, top) == Balance(s') ==> s'.value <= top)
  {
  }

  lemma {:induction false} ExactFrom(s: State, es: seq<Event>, top: nat)
    requires s.value == Balance(s) <= top < WORD && IsRun(s, es)
    ensures ExactThroughout(s, es, top) <==> NeverFull(s, es, top)
    decreases |es|
  {
    if es != [] {
      StepExact(s, es[0], top);
      var s' := Apply(s, es[0]);
      hide Apply, Enabled;
      if Reading(s'.value, top) == Balance(s') { ExactFrom(s', es[1..], top); }
    }
  }

  /**
   `_sem_post` does not check for overflow, and `sem_init` takes any 32-bit value. Read as an `int` (INT_MAX as the
   top), and as a pattern (UINT_MAX), the counter is the balance of tokens throughout a run exactly when the initial
   value is at most that top and no post happens at it.
   */
  lemma ExactIffNeverFull(value: nat, es: seq<Event>, top: nat)
    requires value < WORD && top < WORD && IsRun(Init(value), es)
    ensures ExactThroughout(Init(value), es, top) <==> value <= top && NeverFull(Init(value), es, top)
  {
    if value <= top { ExactFrom(Init(value), es, top); }
  }

  /** One post at INT_MAX and the field is negative; the tokens can still be taken. */
  lemma PostAtIntMaxIsNegative()
    ensures var es := [Post(None)]; var s := Init(INT_MAX);
            && IsRun(s, es) && !NeverFull(s, es, INT_MAX) && NeverFull(s, es, UINT_MAX)
            && Reading(After(s, es).value, INT_MAX) == -INT_MAX - 1
            && After(s, es).value == Balance(After(s, es)) == INT_MAX + 1
  {
    assert [Post(None)][1..] == [];
  }

  /** One post at UINT_MAX and every token is gone. */
  lemma PostAtTheTopLosesAll()
    ensures var es := [Post(None)]; var s := Init(UINT_MAX);
            && IsRun(s, es) && After(s, es).value == 0 && Balance(After(s, es)) == WORD
  {
    assert [Post(None)][1..] == [];
  }
}
