/**
 The cross-thread task queue of the version 3.0 event loop (version3.0/net/EventLoop.cpp), as a transition system
 with any number of producer threads, and the object whose methods are its steps.
 */
module EventLoop {
  import opened Options

  type Functor = nat   // tasks are told apart by number; running one is an event of its own
  type ThreadId = nat

  /** Who calls queueInLoop: the loop's own thread or another one. */
  datatype Caller = Loop | Foreign(id: ThreadId)

  /** Where the loop thread is: in epoll_wait, in the event handlers, or in one of the parts of the rest of loop(). */
  datatype Phase = Polling | Handling | Entering | Running | Expiring

  /** The largest value an eventfd counter can hold. */
  const EVENTFD_MAX: nat := 0xffff_ffff_ffff_fffe

  datatype State = State(
    phase: Phase,
    pending: seq<Functor>,    // pendingFunctors_
    calling: bool,            // callingPendingFunctors_
    batch: seq<Functor>,      // functors, the vector swapped out
    done: nat,                // how many of them have been started
    counter: nat,             // the eventfd counter
    edge: bool,               // an edge of wakeupFd_ waits in the epoll ready list
    readDue: bool,            // the wakeup channel is active and handleRead has not run yet
    ownWake: bool,            // the loop thread has queued a task and is about to call wakeup
    producers: set<ThreadId>, // other threads that have queued a task and are about to call wakeup
    executed: seq<Functor>)   // every task started so far

  const INITIAL: State := State(Polling, [], false, [], 0, 0, false, false, false, {}, [])

  datatype Event =
    | Push(caller: Caller, task: Functor)  // queueInLoop, up to the decision whether to wake
    | Wake(caller: Caller)               // wakeup
    | PollReturn(woken: bool)          // epoll_wait returns, with or without the wakeup channel
    | Read                             // handleRead
    | Begin                            // doPendingFunctors sets callingPendingFunctors_
    | SwapPending
    | RunNext
    | End                              // doPendingFunctors clears callingPendingFunctors_
    | Expire                           // handleExpired, and back to poll

  predicate Enabled(s: State, e: Event) {
    match e
    case Push(Loop, f) => !s.ownWake && (s.phase == Handling || (s.phase == Running && s.done > 0))
    case Push(Foreign(t), f) => t !in s.producers
    case Wake(Loop) => s.ownWake
    case Wake(Foreign(t)) => t in s.producers
    case PollReturn(woken) => s.phase == Polling && (woken ==> s.edge && s.counter > 0)
    case Read => s.readDue
    case Begin => s.phase == Handling && !s.readDue
    case SwapPending => s.phase == Entering
    case RunNext => s.phase == Running && s.done < |s.batch| && !s.ownWake
    case End => s.phase == Running && s.done == |s.batch| && !s.ownWake
    case Expire => s.phase == Expiring
  }

  /** Adding one to the eventfd: refused when the counter is full, otherwise a new edge. */
  function Woken(s: State): State {
    if s.counter < EVENTFD_MAX then s.(counter := s.counter + 1, edge := true) else s
  }

  function Step(s: State, e: Event): State
    requires Enabled(s, e)
  {
    match e
    case Push(Loop, f) => s.(pending := s.pending + [f], ownWake := s.calling)
    case Push(Foreign(t), f) => s.(pending := s.pending + [f], producers := s.producers + {t})
    case Wake(Loop) => Woken(s).(ownWake := false)
    case Wake(Foreign(t)) => Woken(s).(producers := s.producers - {t})
    case PollReturn(woken) => s.(phase := Handling, readDue := woken, edge := s.edge && !woken)
    case Read => s.(counter := 0, readDue := false)
    case Begin => s.(phase := Entering, calling := true)
    case SwapPending => s.(phase := Running, batch := s.pending, pending := [], done := 0)
    case RunNext => s.(executed := s.executed + [s.batch[s.done]], done := s.done + 1)
    case End => s.(phase := Expiring, calling := false, batch := [], done := 0)
    case Expire => s.(phase := Polling)
  }

  function After(trace: seq<Event>): Option<State> {
    if trace == [] then Some(INITIAL)
    else
      var k := |trace| - 1;
      var s := After(trace[..k]);
      if s.Some? && Enabled(s.value, trace[k]) then Some(Step(s.value, trace[k])) else None
  }

  /** The flags follow the phase. */
  predicate Consistent(s: State) {
    && (s.calling <==> s.phase == Entering || s.phase == Running)
    && (s.phase != Running ==> s.batch == [] && s.done == 0)
    && s.done <= |s.batch|
    && (s.readDue ==> s.phase == Handling && s.counter > 0)
    && (s.ownWake ==> s.phase == Running)
    && s.counter <= EVENTFD_MAX
    && (s.counter > 0 ==> s.edge || s.readDue)
  }

  /** A task queued after the last swap is announced, or somebody is about to announce it. */
  predicate Announced(s: State) {
    s.phase in {Running, Expiring, Polling} && s.pending != []
    ==> s.producers != {} || s.ownWake || s.counter > 0
  }

  lemma StepKeepsAnnounced(s: State, e: Event)
    requires Consistent(s) && Announced(s) && Enabled(s, e)
    ensures Consistent(Step(s, e)) && Announced(Step(s, e))
  {
    match e
    case Push(Foreign(t), f) => assert t in Step(s, e).producers;
    case _ =>
  }

  /**
   No lost wakeup: in every reachable state where the loop is about to block with tasks pending, an edge of a
   positive eventfd counter is waiting for epoll, or another thread stands between its push and its wakeup.
   */
  lemma {:induction false} NoLostWakeup(trace: seq<Event>)
    requires After(trace).Some?
    ensures var s := After(trace).value;
            Consistent(s) && Announced(s)
            && (s.phase == Polling && s.pending != [] ==> (s.counter > 0 && s.edge) || s.producers != {})
  {
    if trace != [] {
      var k := |trace| - 1;
      NoLostWakeup(trace[..k]);
      StepKeepsAnnounced(After(trace[..k]).value, trace[k]);
    }
  }

  // ---------------------------------------------------------------------- order

  /** The tasks a run has queued, in order. */
  function Queued(trace: seq<Event>): seq<Functor> {
    if trace == [] then []
    else
      var k := |trace| - 1;
      Queued(trace[..k]) + if trace[k].Push? then [trace[k].task] else []
  }

  predicate Accounts(s: State, queued: seq<Functor>) {
    s.done <= |s.batch| && Tasks(s) == queued
  }

  /** Started, left of the batch, and pending. */
  function Tasks(s: State): seq<Functor>
    requires s.done <= |s.batch|
  {
    s.executed + s.batch[s.done..] + s.pending
  }

  lemma StepAccounts(s: State, e: Event, queued: seq<Functor>)
    requires Consistent(s) && Enabled(s, e) && Accounts(s, queued)
    ensures Accounts(Step(s, e), queued + if e.Push? then [e.task] else [])
  {
    hide Tasks, Consistent, Woken, Accounts;
    assert queued + [] == queued;
    match e
    case Push(caller, f) => PushAccounts(s, Step(s, e), f, queued);
    case RunNext => RunAccounts(s, queued);
    case SwapPending => SwapAccounts(s, queued);
    case End => EndAccounts(s, queued);
    case Wake(caller) =>
      WokenKeepsTasks(s);
      SameAccounts(s, Step(s, e), queued);
    case _ => SameAccounts(s, Step(s, e), queued);
  }

  lemma SameAccounts(s: State, t: State, queued: seq<Functor>)
    requires Accounts(s, queued)
    requires t.executed == s.executed && t.batch == s.batch && t.done == s.done && t.pending == s.pending
    ensures Accounts(t, queued)
  {
  }

  lemma PushAccounts(s: State, t: State, f: Functor, queued: seq<Functor>)
    requires Accounts(s, queued)
    requires t.executed == s.executed && t.batch == s.batch && t.done == s.done && t.pending == s.pending + [f]
    ensures Accounts(t, queued + [f])
  {
  }

  lemma RunAccounts(s: State, queued: seq<Functor>)
    requires Accounts(s, queued) && Enabled(s, RunNext)
    ensures Accounts(Step(s, RunNext), queued)
  {
    assert s.batch[s.done..] == [s.batch[s.done]] + s.batch[s.done + 1..];
  }

  lemma SwapAccounts(s: State, queued: seq<Functor>)
    requires Consistent(s) && Accounts(s, queued) && Enabled(s, SwapPending)
    ensures Accounts(Step(s, SwapPending), queued)
  {
  }

  lemma EndAccounts(s: State, queued: seq<Functor>)
    requires Accounts(s, queued) && Enabled(s, End)
    ensures Accounts(Step(s, End), queued)
  {
  }

  lemma WokenKeepsTasks(s: State)
    ensures var t := Woken(s);
            t.executed == s.executed && t.batch == s.batch && t.done == s.done && t.pending == s.pending
  {
  }

  /**
   Exactly once and in order: the tasks started, those left of the swapped batch and those pending are together
   the tasks queued, at every step of every run.
   */
  lemma {:induction false} ExactlyOnceInOrder(trace: seq<Event>)
    requires After(trace).Some?
    ensures Accounts(After(trace).value, Queued(trace))
  {
    if trace != [] {
      var k := |trace| - 1;
      NoLostWakeup(trace[..k]);
      ExactlyOnceInOrder(trace[..k]);
      StepAccounts(After(trace[..k]).value, trace[k], Queued(trace[..k]));
    }
  }

  /** Whether a run contains a swap after its first `from` events. */
  predicate SwapsSince(trace: seq<Event>, from: nat) {
    exists i :: from <= i < |trace| && trace[i] == SwapPending
  }

  function Covered(s: State): int {
    |s.executed| + |s.batch| - s.done
  }

  lemma StepCovers(s: State, e: Event)
    requires Consistent(s) && Enabled(s, e)
    ensures e != SwapPending ==> Covered(Step(s, e)) >= Covered(s)
    ensures e == SwapPending ==> Covered(Step(s, e)) == |s.executed| + |s.pending| && s.batch == []
  {
  }

  /** Once a swap has happened, everything queued before is executed or in the batch. */
  lemma {:induction false} SwapCovers(trace: seq<Event>, from: nat)
    requires After(trace).Some? && from <= |trace| && SwapsSince(trace, from)
    ensures |Queued(trace[..from])| <= Covered(After(trace).value)
    decreases |trace|
  {
    hide Step, Enabled, Consistent, Covered;
    var k := |trace| - 1;
    var init := trace[..k];
    assert init[..from] == trace[..from];
    NoLostWakeup(init);
    ExactlyOnceInOrder(init);
    StepCovers(After(init).value, trace[k]);
    if trace[k] == SwapPending {
      QueuedGrows(init, from);
    } else {
      var i :| from <= i < |trace| && trace[i] == SwapPending;
      assert init[i] == SwapPending;
      SwapCovers(init, from);
    }
  }

  lemma {:induction false} QueuedGrows(trace: seq<Event>, from: nat)
    requires from <= |trace|
    ensures Queued(trace[..from]) <= Queued(trace)
    decreases |trace|
  {
    if from < |trace| {
      QueuedGrows(trace[..|trace| - 1], from);
      assert trace[..|trace| - 1][..from] == trace[..from];
    } else {
      assert trace[..from] == trace;
    }
  }

  /** A round of the loop that has come back to poll after a swap has run every task queued before the round. */
  lemma {:induction false} RoundRunsEverything(trace: seq<Event>, from: nat)
    requires After(trace).Some? && After(trace).value.phase == Polling
    requires from <= |trace| && SwapsSince(trace, from)
    ensures Queued(trace[..from]) <= After(trace).value.executed
  {
    var s := After(trace).value;
    NoLostWakeup(trace);
    ExactlyOnceInOrder(trace);
    SwapCovers(trace, from);
    QueuedGrows(trace, from);
    assert s.executed + s.batch[s.done..] == s.executed;
    assert Queued(trace)[..|Queued(trace[..from])|] == s.executed[..|Queued(trace[..from])|];
  }

  /** Between the return of poll and the next one lies a swap: a phase that can only follow one. */
  lemma {:induction false} PhaseNeedsSwap(trace: seq<Event>, from: nat)
    requires After(trace).Some? && from <= |trace| && After(trace[..from]).Some?
    requires After(trace[..from]).value.phase in {Handling, Entering}
    requires After(trace).value.phase !in {Handling, Entering}
    ensures SwapsSince(trace, from)
    decreases |trace|
  {
    hide Step, Enabled, Consistent;
    var k := |trace| - 1;
    var init := trace[..k];
    assert trace[..|trace|] == trace;
    assert init[..from] == trace[..from];
    OnlySwapLeaves(After(init).value, trace[k]);
    if trace[k] != SwapPending {
      PhaseNeedsSwap(init, from);
      var i :| from <= i < |init| && init[i] == SwapPending;
      assert trace[i] == SwapPending;
    }
  }

  lemma OnlySwapLeaves(s: State, e: Event)
    requires Enabled(s, e)
    ensures s.phase in {Handling, Entering} && e != SwapPending ==> Step(s, e).phase in {Handling, Entering}
  {
  }

  /**
   So every task queued before poll returned has run when the loop is back at poll: for every run and every point of
   it at which the event handlers or doPendingFunctors had still to come.
   */
  lemma {:induction false} BackAtPollAllHaveRun(trace: seq<Event>, from: nat)
    requires After(trace).Some? && After(trace).value.phase == Polling
    requires from <= |trace| && After(trace[..from]).Some?
    requires After(trace[..from]).value.phase in {Handling, Entering}
    ensures Queued(trace[..from]) <= After(trace).value.executed
  {
    hide Step, Enabled, Consistent, After;
    PhaseNeedsSwap(trace, from);
    RoundRunsEverything(trace, from);
  }

  // ---------------------------------------------------------------------- the object

  class EventLoop {
    var pendingFunctors: seq<Functor>
    var callingPendingFunctors: bool
    var eventHandling: bool
    var wakeups: nat              // the counter behind wakeupFd_
    var edge: bool

    // the position of the loop thread and of the producers
    var phase: Phase
    var functors: seq<Functor>
    var next: nat
    var readDue: bool
    var ownWake: bool
    var producers: set<ThreadId>

    ghost var executed: seq<Functor>
    ghost var trace: seq<Event>  // what has happened so far

    ghost function Now(): State
      reads this
    {
      State(phase, pendingFunctors, callingPendingFunctors, functors, next, wakeups, edge, readDue, ownWake, producers,
            executed)
    }

    /** The object is where its history leads; the run theorems say what that means. */
    ghost predicate Valid()
      reads this
    {
      After(trace) == Some(Now()) && (eventHandling <==> phase == Handling)
    }

    constructor ()
      ensures Valid() && trace == []
    {
      pendingFunctors, callingPendingFunctors, eventHandling, wakeups, edge := [], false, false, 0, false;
      phase, functors, next, readDue, ownWake, producers, executed := Polling, [], 0, false, false, {}, [];
      trace := [];
    }

    /** Put an event on record, before its effect. */
    ghost method Record(e: Event)
      requires Valid() && Enabled(Now(), e)
      modifies this`trace
      ensures trace == old(trace) + [e] && After(trace) == Some(Step(Now(), e))
      ensures Consistent(Now())
    {
      NoLostWakeup(trace);
      AfterMore(trace, e);
      trace := trace + [e];
    }

    /** queueInLoop(cb) up to its last line; the answer is whether the caller goes on to wakeup(). */
    method QueueInLoop(cb: Functor, caller: Caller) returns (wake: bool)
      requires Valid() && Enabled(Now(), Push(caller, cb))
      modifies this
      ensures Valid() && trace == old(trace) + [Push(caller, cb)]
      ensures Now() == Step(old(Now()), Push(caller, cb))
      ensures wake <==> caller != Loop || callingPendingFunctors
      ensures pendingFunctors == old(pendingFunctors) + [cb]
      ensures wake ==> Enabled(Now(), Wake(caller))
    {
      hide After, Consistent;
      Record(Push(caller, cb));
      pendingFunctors := pendingFunctors + [cb];
      wake := caller.Foreign? || callingPendingFunctors;
      match caller {
        case Loop => ownWake := wake;
        case Foreign(t) => producers := producers + {t};
      }
    }

    /** wakeup() */
    method Wakeup(caller: Caller)
      requires Valid() && Enabled(Now(), Wake(caller))
      modifies this
      ensures Valid() && trace == old(trace) + [Wake(caller)]
      ensures Now() == Step(old(Now()), Wake(caller))
      ensures old(wakeups) < 0xffff_ffff_ffff_fffe ==> wakeups == old(wakeups) + 1 && edge
    {
      hide After, Consistent;
      Record(Wake(caller));
      if wakeups < EVENTFD_MAX {
        wakeups, edge := wakeups + 1, true;
      }
      match caller {
        case Loop => ownWake := false;
        case Foreign(t) => producers := producers - {t};
      }
    }

    /** poll() returns; `woken` says whether the wakeup channel is among the active ones. */
    method PollReturns(woken: bool)
      requires Valid() && Enabled(Now(), PollReturn(woken))
      modifies this
      ensures Valid() && trace == old(trace) + [PollReturn(woken)]
      ensures Now() == Step(old(Now()), PollReturn(woken))
    {
      hide After, Consistent;
      Record(PollReturn(woken));
      phase, eventHandling := Handling, true;
      readDue := woken;
      if woken {
        edge := false;
      }
    }

    /** handleRead(): reading an eventfd empties it. */
    method HandleRead()
      requires Valid() && Enabled(Now(), Read)
      modifies this
      ensures Valid() && trace == old(trace) + [Read]
      ensures Now() == Step(old(Now()), Read)
      ensures wakeups == 0
    {
      hide After, Consistent;
      Record(Read);
      wakeups, readDue := 0, false;
    }

    /** The first lines of doPendingFunctors, up to the lock. */
    method BeginPendingFunctors()
      requires Valid() && Enabled(Now(), Begin)
      modifies this
      ensures Valid() && trace == old(trace) + [Begin]
      ensures Now() == Step(old(Now()), Begin)
    {
      hide After, Consistent;
      Record(Begin);
      eventHandling := false;
      phase, callingPendingFunctors := Entering, true;
    }

    /** functors.swap(pendingFunctors_), under the lock */
    method SwapFunctors()
      requires Valid() && Enabled(Now(), SwapPending)
      modifies this
      ensures Valid() && trace == old(trace) + [SwapPending]
      ensures Now() == Step(old(Now()), SwapPending)
      ensures functors == old(pendingFunctors) && pendingFunctors == []
    {
      hide After;
      Record(SwapPending);
      functors, pendingFunctors := pendingFunctors, functors;
      phase, next := Running, 0;
    }

    /** functors[i]() */
    method RunFunctor() returns (task: Functor)
      requires Valid() && Enabled(Now(), RunNext)
      modifies this
      ensures Valid() && trace == old(trace) + [RunNext]
      ensures Now() == Step(old(Now()), RunNext)
      ensures executed == old(executed) + [task]
    {
      hide After, Consistent;
      Record(RunNext);
      task := functors[next];
      executed := executed + [task];
      next := next + 1;
    }

    /** The end of doPendingFunctors */
    method EndPendingFunctors()
      requires Valid() && Enabled(Now(), End)
      modifies this
      ensures Valid() && trace == old(trace) + [End]
      ensures Now() == Step(old(Now()), End)
    {
      hide After, Consistent;
      Record(End);
      callingPendingFunctors := false;
      functors, next, phase := [], 0, Expiring;
    }

    /** handleExpired(), which queues nothing */
    method HandleExpired()
      requires Valid() && Enabled(Now(), Expire)
      modifies this
      ensures Valid() && trace == old(trace) + [Expire]
      ensures Now() == Step(old(Now()), Expire)
    {
      hide After, Consistent;
      Record(Expire);
      phase := Polling;
    }

    /** One step of any kind. */
    method Perform(e: Event)
      requires Valid() && Enabled(Now(), e)
      modifies this
      ensures Valid() && trace == old(trace) + [e]
      ensures Now() == Step(old(Now()), e)
    {
      hide After, Step;
      match e {
        case Push(caller, task) => var wake := QueueInLoop(task, caller);
        case Wake(caller) => Wakeup(caller);
        case PollReturn(woken) => PollReturns(woken);
        case Read => HandleRead();
        case Begin => BeginPendingFunctors();
        case SwapPending => SwapFunctors();
        case RunNext => var task := RunFunctor();
        case End => EndPendingFunctors();
        case Expire => HandleExpired();
      }
    }
  }

  /** One more step of a run. */
  lemma AfterMore(trace: seq<Event>, e: Event)
    requires After(trace).Some? && Enabled(After(trace).value, e)
    ensures After(trace + [e]) == Some(Step(After(trace).value, e))
  {
    assert (trace + [e])[..|trace|] == trace;
  }

  /** The beginning of a run that can be carried out can be carried out, and so can the step after it. */
  lemma {:induction false} Prefix(trace: seq<Event>, k: nat)
    requires After(trace).Some? && k < |trace|
    ensures After(trace[..k]).Some? && Enabled(After(trace[..k]).value, trace[k])
    decreases |trace|
  {
    hide Enabled, Step;
    if k + 1 < |trace| {
      var init := trace[..|trace| - 1];
      Prefix(init, k);
      assert init[..k] == trace[..k];
    }
  }

  /**
   Every interleaving can be carried out on the object. The tasks it has started, the rest of its batch and its
   pending tasks are those queued, in order; and when it is about to block with tasks pending, it will be woken.
   */
  method Replay(trace: seq<Event>) returns (loop: EventLoop)
    requires After(trace).Some?
    ensures loop.Valid() && loop.trace == trace && loop.next <= |loop.functors|
    ensures loop.executed + loop.functors[loop.next..] + loop.pendingFunctors == Queued(trace)
    ensures loop.phase == Polling && loop.pendingFunctors != [] ==>
              (loop.wakeups > 0 && loop.edge) || loop.producers != {}
  {
    hide After, Enabled, Step, Queued;
    loop := new EventLoop();
    for k := 0 to |trace|
      invariant loop.Valid() && loop.trace == trace[..k] && fresh(loop)
    {
      Prefix(trace, k);
      loop.Perform(trace[k]);
    }
    assert trace[..|trace|] == trace;
    NoLostWakeup(trace);
    ExactlyOnceInOrder(trace);
  }
}
