/**
 The thread pool of version 2.0 (version2.0/threadpool/threadpool.h): any number of producers and workers around a
 list, a lock and a semaphore. Each step is one critical section or one operation on the semaphore.
 */
module ThreadPool {
  import opened Options

  type ThreadId = nat

  /** A request pointer; None is the null one, which a worker drops. */
  type Request = Option<nat>

  datatype State = State(
    max: nat,                     // m_max_requests
    queue: seq<Request>,          // m_workqueue
    sem: nat,                     // m_queuestat
    posting: set<ThreadId>,       // producers between push_back and post
    woken: set<ThreadId>,         // workers between wait and the test of the queue
    holding: map<ThreadId, nat>,  // workers between pop_front and the end of process(): which request, by its rank
    taken: seq<Request>,          // every request popped
    processed: set<nat>)          // the ranks of those whose process() has run

  function Initial(max: nat): State {
    State(max, [], 0, {}, {}, map[], [], {})
  }

  datatype Event =
    | Append(thread: ThreadId, request: Request)   // append, up to unlock
    | Post(thread: ThreadId)
    | Wait(worker: ThreadId)                       // m_queuestat.wait() returns
    | Take(worker: ThreadId)                       // run, from lock to unlock
    | Process(worker: ThreadId)                    // request->process(), or nothing for a null one

  predicate Enabled(s: State, e: Event) {
    match e
    case Append(t, request) => t !in s.posting
    case Post(t) => t in s.posting
    case Wait(w) => s.sem > 0 && w !in s.woken && w !in s.holding
    case Take(w) => w in s.woken
    case Process(w) => w in s.holding
  }

  predicate Refused(s: State) {
    |s.queue| > s.max
  }

  function Step(s: State, e: Event): State
    requires Enabled(s, e)
  {
    match e
    case Append(t, request) =>
      if Refused(s) then s else s.(queue := s.queue + [request], posting := s.posting + {t})
    case Post(t) => s.(posting := s.posting - {t}, sem := s.sem + 1)
    case Wait(w) => s.(sem := s.sem - 1, woken := s.woken + {w})
    case Take(w) =>
      if s.queue == [] then s.(woken := s.woken - {w})
      else
        s.(queue := s.queue[1..], woken := s.woken - {w},
           holding := s.holding[w := |s.taken|], taken := s.taken + [s.queue[0]])
    case Process(w) => s.(holding := s.holding - {w}, processed := s.processed + {s.holding[w]})
  }

  function After(max: nat, trace: seq<Event>): Option<State> {
    if trace == [] then Some(Initial(max))
    else
      var k := |trace| - 1;
      var s := After(max, trace[..k]);
      if s.Some? && Enabled(s.value, trace[k]) then Some(Step(s.value, trace[k])) else None
  }

  // ---------------------------------------------------------------------- the semaphore counts the queue

  predicate Counted(s: State) {
    && s.sem + |s.woken| + |s.posting| == |s.queue|
    && |s.queue| <= s.max + 1
  }

  lemma Removed(x: ThreadId, xs: set<ThreadId>)
    requires x in xs
    ensures |xs - {x}| == |xs| - 1
  {
    assert xs == (xs - {x}) + {x};
  }

  lemma StepCounts(s: State, e: Event)
    requires Counted(s) && Enabled(s, e)
    ensures Counted(Step(s, e)) && (e.Take? ==> s.queue != [])
  {
    match e
    case Post(t) => Removed(t, s.posting);
    case Take(w) => Removed(w, s.woken);
    case _ =>
  }

  /**
   In every reachable state the semaphore's value, the workers past their wait and the producers before their post
   add up to the queue's length; so a woken worker finds a request, the queue holds at most one more than the
   limit, and while nobody is between two steps a request in the queue lets a waiting worker through.
   */
  lemma {:induction false} SemaphoreCounts(max: nat, trace: seq<Event>)
    requires After(max, trace).Some?
    ensures var s := After(max, trace).value;
            && s.max == max && Counted(s)
            && (s.woken != {} ==> s.queue != [])
            && (s.queue != [] && s.woken == {} && s.posting == {} ==> s.sem > 0)
  {
    if trace != [] {
      var k := |trace| - 1;
      SemaphoreCounts(max, trace[..k]);
      StepCounts(After(max, trace[..k]).value, trace[k]);
    }
    var s := After(max, trace).value;
    if w :| w in s.woken {
      Removed(w, s.woken);
    }
  }

  /** The limit plus one is really reached: the test comes before the push and lets a full queue pass. */
  lemma {:induction false} QueueReachesMaxPlusOne(max: nat, n: nat) returns (trace: seq<Event>)
    requires n <= max + 1
    ensures After(max, trace).Some?
    ensures var s := After(max, trace).value;
            |s.queue| == n && s.posting == {} && s.max == max && (Refused(s) <==> n == max + 1)
  {
    if n == 0 {
      trace := [];
    } else {
      var init := QueueReachesMaxPlusOne(max, n - 1);
      var pushed := init + [Append(0, None)];
      assert pushed[..|init|] == init;
      trace := pushed + [Post(0)];
      assert trace[..|pushed|] == pushed;
    }
  }

  // ---------------------------------------------------------------------- each request once, in order

  /** The requests a run has accepted, in the order of their pushes. */
  function Accepted(max: nat, trace: seq<Event>): seq<Request>
    requires After(max, trace).Some?
  {
    if trace == [] then []
    else
      var k := |trace| - 1;
      var s := After(max, trace[..k]).value;
      Accepted(max, trace[..k])
      + if trace[k].Append? && !Refused(s) then [trace[k].request] else []
  }

  /** Of `n` requests popped, each is being held by one worker or has been processed, and not both. */
  predicate Held(holding: map<ThreadId, nat>, processed: set<nat>, n: nat) {
    && (forall w :: w in holding ==> holding[w] < n && holding[w] !in processed)
    && (forall v, w :: v in holding && w in holding && holding[v] == holding[w] ==> v == w)
    && (forall i :: i in processed ==> i < n)
    && (forall i :: 0 <= i < n && i !in processed ==> exists w :: w in holding && holding[w] == i)
  }

  predicate HeldOnce(s: State) {
    Held(s.holding, s.processed, |s.taken|) && forall w :: w in s.woken ==> w !in s.holding
  }

  /** A worker takes the next request. */
  lemma HeldMore(holding: map<ThreadId, nat>, processed: set<nat>, n: nat, w: ThreadId)
    requires Held(holding, processed, n) && w !in holding
    ensures Held(holding[w := n], processed, n + 1)
  {
    var more := holding[w := n];
    forall i | 0 <= i < n + 1 && i !in processed
      ensures exists v :: v in more && more[v] == i
    {
      if i == n {
        assert w in more && more[w] == i;
      } else {
        var v :| v in holding && holding[v] == i;
        assert v in more && more[v] == i;
      }
    }
  }

  /** A worker is done with its request. */
  lemma HeldLess(holding: map<ThreadId, nat>, processed: set<nat>, n: nat, w: ThreadId)
    requires Held(holding, processed, n) && w in holding
    ensures Held(holding - {w}, processed + {holding[w]}, n)
  {
    var less, done := holding - {w}, processed + {holding[w]};
    forall i | 0 <= i < n && i !in done
      ensures exists v :: v in less && less[v] == i
    {
      var v :| v in holding && holding[v] == i;
      assert v in less && less[v] == i;
    }
  }

  lemma {:induction false} StepHoldsOnce(s: State, e: Event)
    requires Counted(s) && HeldOnce(s) && Enabled(s, e)
    ensures HeldOnce(Step(s, e))
  {
    StepCounts(s, e);
    hide Held, Counted;
    match e
    case Process(w) => HeldLess(s.holding, s.processed, |s.taken|, w);
    case Take(w) => HeldMore(s.holding, s.processed, |s.taken|, w);
    case _ =>
  }

  /**
   Exactly once and in order: what was popped and what is queued is what was accepted, and every request popped is
   held by exactly one worker or has been processed.
   */
  lemma {:induction false} EachRequestOnce(max: nat, trace: seq<Event>)
    requires After(max, trace).Some?
    ensures var s := After(max, trace).value;
            s.taken + s.queue == Accepted(max, trace) && HeldOnce(s)
  {
    hide HeldOnce;
    if trace != [] {
      var k := |trace| - 1;
      var s := After(max, trace[..k]).value;
      EachRequestOnce(max, trace[..k]);
      SemaphoreCounts(max, trace[..k]);
      StepHoldsOnce(s, trace[k]);
      StepInOrder(s, trace[k]);
    } else {
      assert HeldOnce(Initial(max)) by { NothingHeld(max); }
    }
  }

  lemma NothingHeld(max: nat)
    ensures HeldOnce(Initial(max))
  {
  }

  lemma StepInOrder(s: State, e: Event)
    requires Enabled(s, e)
    ensures var t := Step(s, e);
            t.taken + t.queue == s.taken + s.queue + if e.Append? && !Refused(s) then [e.request] else []
  {
    if e.Take? && s.queue != [] {
      assert s.queue == [s.queue[0]] + s.queue[1..];
    }
  }

  // ---------------------------------------------------------------------- the object

  class ThreadPool {
    const maxRequests: nat
    var workqueue: seq<Request>
    var queuestat: nat

    // where the threads are
    var posting: set<ThreadId>
    var woken: set<ThreadId>
    var requests: map<ThreadId, Request>  // the local request of each worker that has popped one

    ghost var holding: map<ThreadId, nat>
    ghost var taken: seq<Request>
    ghost var processed: set<nat>
    ghost var trace: seq<Event>  // what has happened so far

    ghost function Now(): State
      reads this
    {
      State(maxRequests, workqueue, queuestat, posting, woken, holding, taken, processed)
    }

    /** The object is where its history leads; the run theorems say what that means. */
    ghost predicate Valid()
      reads this
    {
      && After(maxRequests, trace) == Some(Now())
      && (forall w :: w in holding ==> holding[w] < |taken| && w in requests && requests[w] == taken[holding[w]])
    }

    constructor (maxRequests: nat)
      ensures Valid() && trace == [] && this.maxRequests == maxRequests
    {
      this.maxRequests := maxRequests;
      workqueue, queuestat, posting, woken, requests := [], 0, {}, {}, map[];
      holding, taken, processed, trace := map[], [], {}, [];
    }

    /** Put an event on record, before its effect. */
    ghost method Record(e: Event)
      requires Valid() && Enabled(Now(), e)
      modifies this`trace
      ensures trace == old(trace) + [e] && After(maxRequests, trace) == Some(Step(Now(), e))
      ensures (woken != {} ==> workqueue != []) && HeldOnce(Now())
    {
      SemaphoreCounts(maxRequests, trace);
      EachRequestOnce(maxRequests, trace);
      AfterMore(maxRequests, trace, e);
      trace := trace + [e];
    }

    /** append(request) up to unlock; the caller posts only when it answers true. */
    method Push(request: Request, thread: ThreadId) returns (ok: bool)
      requires Valid() && Enabled(Now(), Append(thread, request))
      modifies this
      ensures Valid() && trace == old(trace) + [Append(thread, request)]
      ensures Now() == Step(old(Now()), Append(thread, request))
      ensures ok <==> old(|workqueue|) <= maxRequests
      ensures workqueue == if ok then old(workqueue) + [request] else old(workqueue)
      ensures ok ==> Enabled(Now(), Post(thread))
    {
      hide After;
      Record(Append(thread, request));
      if |workqueue| > maxRequests { return false; }
      workqueue := workqueue + [request];
      posting := posting + {thread};
      return true;
    }

    /** m_queuestat.post() */
    method SemPost(thread: ThreadId)
      requires Valid() && Enabled(Now(), Post(thread))
      modifies this
      ensures Valid() && trace == old(trace) + [Post(thread)]
      ensures Now() == Step(old(Now()), Post(thread))
      ensures queuestat == old(queuestat) + 1
    {
      hide After;
      Record(Post(thread));
      queuestat := queuestat + 1;
      posting := posting - {thread};
    }

    /** m_queuestat.wait() returns to `worker`. */
    method SemWait(worker: ThreadId)
      requires Valid() && Enabled(Now(), Wait(worker))
      modifies this
      ensures Valid() && trace == old(trace) + [Wait(worker)]
      ensures Now() == Step(old(Now()), Wait(worker))
      ensures queuestat + 1 == old(queuestat)
    {
      hide After;
      Record(Wait(worker));
      queuestat := queuestat - 1;
      woken := woken + {worker};
    }

    /** The critical section of run(); the branch for an empty queue is never taken. */
    method Pop(worker: ThreadId) returns (request: Request)
      requires Valid() && Enabled(Now(), Take(worker))
      modifies this
      ensures Valid() && trace == old(trace) + [Take(worker)]
      ensures Now() == Step(old(Now()), Take(worker))
      ensures old(workqueue) == [request] + workqueue && taken == old(taken) + [request]
    {
      hide After;
      Record(Take(worker));
      if workqueue == [] {
        assert false;
      }
      request := workqueue[0];
      workqueue := workqueue[1..];
      woken := woken - {worker};
      requests := requests[worker := request];
      holding := holding[worker := |taken|];
      taken := taken + [request];
    }

    /** The rest of the loop body; it answers whether there was a request to process. */
    method RunRequest(worker: ThreadId) returns (ran: bool)
      requires Valid() && Enabled(Now(), Process(worker))
      modifies this
      ensures Valid() && trace == old(trace) + [Process(worker)]
      ensures Now() == Step(old(Now()), Process(worker))
      ensures ran <==> old(taken[holding[worker]]).Some?
    {
      hide After;
      Record(Process(worker));
      ran := requests[worker].Some?;
      processed := processed + {holding[worker]};
      holding := holding - {worker};
    }

    /** One step of any kind. */
    method Perform(e: Event)
      requires Valid() && Enabled(Now(), e)
      modifies this
      ensures Valid() && trace == old(trace) + [e]
      ensures Now() == Step(old(Now()), e)
    {
      hide After, Step;
      match e {
        case Append(thread, request) => var ok := Push(request, thread);
        case Post(thread) => SemPost(thread);
        case Wait(worker) => SemWait(worker);
        case Take(worker) => var request := Pop(worker);
        case Process(worker) => var ran := RunRequest(worker);
      }
    }
  }

  /** One more step of a run. */
  lemma AfterMore(max: nat, trace: seq<Event>, e: Event)
    requires After(max, trace).Some? && Enabled(After(max, trace).value, e)
    ensures After(max, trace + [e]) == Some(Step(After(max, trace).value, e))
  {
    assert (trace + [e])[..|trace|] == trace;
  }

  /** The beginning of a run that can be carried out can be carried out, and so can the step after it. */
  lemma {:induction false} Prefix(max: nat, trace: seq<Event>, k: nat)
    requires After(max, trace).Some? && k < |trace|
    ensures After(max, trace[..k]).Some? && Enabled(After(max, trace[..k]).value, trace[k])
    decreases |trace|
  {
    hide Enabled, Step;
    if k + 1 < |trace| {
      var init := trace[..|trace| - 1];
      Prefix(max, init, k);
      assert init[..k] == trace[..k];
    }
  }

  /**
   Every interleaving can be carried out on the object. What it has taken and what it has queued is what was
   accepted, in order; each request taken is held by one worker or processed; and its semaphore, with the threads
   between two steps, counts its queue.
   */
  method Replay(max: nat, trace: seq<Event>) returns (pool: ThreadPool)
    requires After(max, trace).Some?
    ensures pool.Valid() && pool.maxRequests == max && pool.trace == trace
    ensures pool.taken + pool.workqueue == Accepted(max, trace)
    ensures Held(pool.holding, pool.processed, |pool.taken|)
    ensures pool.queuestat + |pool.woken| + |pool.posting| == |pool.workqueue| <= max + 1
  {
    hide After, Enabled, Step, Accepted, Held;
    pool := new ThreadPool(max);
    for k := 0 to |trace|
      invariant pool.Valid() && pool.maxRequests == max && pool.trace == trace[..k] && fresh(pool)
    {
      Prefix(max, trace, k);
      pool.Perform(trace[k]);
    }
    assert trace[..|trace|] == trace;
    SemaphoreCounts(max, trace);
    EachRequestOnce(max, trace);
  }
}
