/**
 How the version 2.0 server uses its timer list (version2.0/server.cpp): every accepted connection and every
 successful read or write sets a deadline three time slots ahead, a failed one removes it, and a tick closes what is
 due. With a clock that does not go back, this keeps the list in the order of last activity.
 */
module TimerServer {
  import opened TimerList

  const TIMESLOT: int := 5

  /**
   A timer in the list: the descriptor its callback closes, its deadline, the number of the event that set it, and
   whether it is still the timer of that descriptor. A descriptor that is accepted again gets a new one.
   */
  datatype Conn = Conn(fd: nat, deadline: int, armed: nat, current: bool)

  /** A hang-up closes the connection and leaves its timer in the list. */
  datatype What = Accept(fd: nat) | Transfer(fd: nat) | Fail(fd: nat) | HangUp(fd: nat) | Tick

  datatype Event = Event(what: What, now: int)

  predicate IsTimerOf(c: Conn, fd: nat) {
    c.fd == fd && c.current
  }

  /** The list without the timer of `fd`. */
  function Others(list: seq<Conn>, fd: nat): (r: seq<Conn>)
    ensures forall c :: c in r <==> c in list && !IsTimerOf(c, fd)
  {
    if list == [] then []
    else (if IsTimerOf(list[0], fd) then [] else [list[0]]) + Others(list[1..], fd)
  }

  /** The list when `fd` gets a new timer. */
  function Outdated(list: seq<Conn>, fd: nat): (r: seq<Conn>)
    ensures |r| == |list|
    ensures forall i :: 0 <= i < |r| ==> r[i] == if list[i].fd == fd then list[i].(current := false) else list[i]
  {
    seq(|list|, i requires 0 <= i < |list| => if list[i].fd == fd then list[i].(current := false) else list[i])
  }

  /** The timers that are not due at `now`. */
  function Alive(list: seq<Conn>, now: int): (r: seq<Conn>)
    ensures forall c :: c in r <==> c in list && now < c.deadline
  {
    if list == [] then []
    else (if now < list[0].deadline then [list[0]] else []) + Alive(list[1..], now)
  }

  function Armed(fd: nat, now: int, n: nat): Conn {
    Conn(fd, now + 3 * TIMESLOT, n, true)
  }

  /** The list after event number `n`. */
  function Step(list: seq<Conn>, e: Event, n: nat): seq<Conn> {
    match e.what
    case Accept(fd) => Outdated(list, fd) + [Armed(fd, e.now, n)]
    case Transfer(fd) => Others(list, fd) + [Armed(fd, e.now, n)]
    case Fail(fd) => Others(list, fd)
    case HangUp(fd) => list
    case Tick => Alive(list, e.now)
  }

  function After(trace: seq<Event>): seq<Conn> {
    if trace == [] then [] else Step(After(trace[..|trace| - 1]), trace[|trace| - 1], |trace| - 1)
  }

  ghost predicate ClockRuns(trace: seq<Event>) {
    forall i, j :: 0 <= i < j < |trace| ==> trace[i].now <= trace[j].now
  }

  /** The descriptor gets a new timer between events `a` and `k`. */
  ghost predicate Renewed(trace: seq<Event>, fd: nat, a: nat, k: nat)
    requires k <= |trace|
  {
    exists j :: a < j < k && trace[j].what == Accept(fd)
  }

  /** Event `a` is the latest activity on a timer of `fd`, and nothing has taken that timer out of the list since. */
  ghost predicate LastActivity(trace: seq<Event>, fd: nat, a: nat) {
    && a < |trace| && (trace[a].what == Accept(fd) || trace[a].what == Transfer(fd))
    && (forall k :: a < k < |trace| && (trace[k].what == Transfer(fd) || trace[k].what == Fail(fd)) ==>
          Renewed(trace, fd, a, k))
    && (forall k :: a < k < |trace| && trace[k].what == Tick ==> trace[k].now < trace[a].now + 3 * TIMESLOT)
  }

  ghost predicate InActivityOrder(list: seq<Conn>) {
    forall i, j :: 0 <= i < j < |list| ==> list[i].armed < list[j].armed
  }

  lemma {:induction false} OthersInOrder(list: seq<Conn>, fd: nat)
    requires InActivityOrder(list)
    ensures InActivityOrder(Others(list, fd))
  {
    if list != [] {
      OthersInOrder(list[1..], fd);
      var rest := Others(list[1..], fd);
      forall j | 0 <= j < |rest|
        ensures list[0].armed < rest[j].armed
      {
        assert rest[j] in list[1..];
      }
    }
  }

  lemma {:induction false} AliveInOrder(list: seq<Conn>, now: int)
    requires InActivityOrder(list)
    ensures InActivityOrder(Alive(list, now))
  {
    if list != [] {
      AliveInOrder(list[1..], now);
      var rest := Alive(list[1..], now);
      forall j | 0 <= j < |rest|
        ensures list[0].armed < rest[j].armed
      {
        assert rest[j] in list[1..];
      }
    }
  }

  /** A listed timer, and what its last activity gave it. */
  ghost predicate Pending(trace: seq<Event>, c: Conn) {
    && LastActivity(trace, c.fd, c.armed) && c.deadline == trace[c.armed].now + 3 * TIMESLOT
    && (c.current <==> !Renewed(trace, c.fd, c.armed, |trace|))
  }

  /**
   The list over every run: it holds exactly the timers that have been active and have not been removed or due since,
   each with the deadline of its last activity, in the order of that activity.
   */
  lemma {:induction false} ListIsLastActivity(trace: seq<Event>)
    ensures InActivityOrder(After(trace))
    ensures forall c :: c in After(trace) <==> Pending(trace, c)
  {
    hide Pending, Step, Others, Outdated, Alive, Stays, Outdates, Adds;
    if trace == [] {
      NothingPending();
    } else {
      var n := |trace| - 1;
      var was, e := After(trace[..n]), trace[n];
      ListIsLastActivity(trace[..n]);
      forall c: Conn
        ensures c in After(trace) <==> Pending(trace, c)
      {
        ActivityExtends(trace, c);
        StepMember(was, e, n, c);
      }
      forall c | c in was
        ensures c.armed < n
      {
        PendingArmed(trace[..n], c);
      }
      StepInOrder(was, e, n);
    }
  }

  lemma NothingPending()
    ensures forall c :: !Pending([], c)
  {
  }

  lemma PendingArmed(trace: seq<Event>, c: Conn)
    requires Pending(trace, c)
    ensures c.armed < |trace|
  {
  }

  /** Whether an event leaves a listed timer as it is. */
  predicate Stays(c: Conn, e: Event) {
    match e.what
    case Accept(fd) => !IsTimerOf(c, fd)
    case Transfer(fd) => !IsTimerOf(c, fd)
    case Fail(fd) => !IsTimerOf(c, fd)
    case HangUp(_) => true
    case Tick => e.now < c.deadline
  }

  /** Whether it makes `c` out of the timer of a descriptor that gets a new one. */
  predicate Outdates(c: Conn, e: Event) {
    e.what == Accept(c.fd) && !c.current
  }

  /** Whether event `n` puts `c` into the list. */
  predicate Adds(c: Conn, e: Event, n: nat) {
    (e.what == Accept(c.fd) || e.what == Transfer(c.fd)) && c == Armed(c.fd, e.now, n)
  }

  lemma StepMember(list: seq<Conn>, e: Event, n: nat, c: Conn)
    ensures c in Step(list, e, n)
            <==> (c in list && Stays(c, e)) || (Outdates(c, e) && c.(current := true) in list) || Adds(c, e, n)
  {
    match e.what
    case Accept(fd) => OutdatedMember(list, fd, c);
    case _ =>
  }

  lemma OutdatedMember(list: seq<Conn>, fd: nat, c: Conn)
    ensures c in Outdated(list, fd)
            <==> (c in list && !IsTimerOf(c, fd)) || (c.fd == fd && !c.current && c.(current := true) in list)
  {
    var r, d := Outdated(list, fd), c.(current := true);
    if c in list && !IsTimerOf(c, fd) {
      var i :| 0 <= i < |list| && list[i] == c;
      assert r[i] == c;
    }
    if c.fd == fd && !c.current && d in list {
      var i :| 0 <= i < |list| && list[i] == d;
      assert r[i] == c;
    }
    if c in r {
      var i :| 0 <= i < |r| && r[i] == c;
      assert list[i] == c || list[i] == d;
    }
  }

  lemma StepInOrder(list: seq<Conn>, e: Event, n: nat)
    requires InActivityOrder(list) && forall c :: c in list ==> c.armed < n
    ensures InActivityOrder(Step(list, e, n))
  {
    hide Others, Outdated, Alive, InActivityOrder;
    match e.what
    case Accept(fd) =>
      OutdatedInOrder(list, fd, n);
      MoreInOrder(Outdated(list, fd), Armed(fd, e.now, n));
    case Transfer(fd) =>
      OthersInOrder(list, fd);
      MoreInOrder(Others(list, fd), Armed(fd, e.now, n));
    case Fail(fd) => OthersInOrder(list, fd);
    case HangUp(_) =>
    case Tick => AliveInOrder(list, e.now);
  }

  lemma MoreInOrder(list: seq<Conn>, c: Conn)
    requires InActivityOrder(list) && forall d :: d in list ==> d.armed < c.armed
    ensures InActivityOrder(list + [c])
  {
    assert forall i :: 0 <= i < |list| ==> list[i] in list;
  }

  lemma OutdatedInOrder(list: seq<Conn>, fd: nat, n: nat)
    requires InActivityOrder(list) && forall c :: c in list ==> c.armed < n
    ensures InActivityOrder(Outdated(list, fd)) && forall c :: c in Outdated(list, fd) ==> c.armed < n
  {
    assert forall i :: 0 <= i < |list| ==> list[i] in list;
  }

  /** How the last event changes whether a descriptor has a new timer. */
  lemma RenewedExtends(trace: seq<Event>, fd: nat, a: nat)
    requires trace != []
    ensures var n := |trace| - 1;
            && (Renewed(trace, fd, a, |trace|)
                <==> (Renewed(trace[..n], fd, a, n) || (a < n && trace[n].what == Accept(fd))))
            && (forall k :: 0 <= k <= n ==> (Renewed(trace, fd, a, k) <==> Renewed(trace[..n], fd, a, k)))
  {
    var n := |trace| - 1;
    var init := trace[..n];
    assert forall k :: 0 <= k < n ==> init[k] == trace[k];
    if Renewed(init, fd, a, n) {
      var j :| a < j < n && init[j].what == Accept(fd);
      assert trace[j].what == Accept(fd);
    }
    forall k | 0 <= k <= n
      ensures Renewed(trace, fd, a, k) <==> Renewed(init, fd, a, k)
    {
      if Renewed(init, fd, a, k) {
        var j :| a < j < k && init[j].what == Accept(fd);
        assert trace[j].what == Accept(fd);
      }
      if Renewed(trace, fd, a, k) {
        var j :| a < j < k && trace[j].what == Accept(fd);
        assert init[j].what == Accept(fd);
      }
    }
  }

  lemma ActivityExtends(trace: seq<Event>, c: Conn)
    requires trace != []
    ensures var n := |trace| - 1;
            var init, e := trace[..n], trace[n];
            Pending(trace, c)
            <==> (Pending(init, c) && Stays(c, e)) || (Outdates(c, e) && Pending(init, c.(current := true)))
                 || Adds(c, e, n)
  {
    var n := |trace| - 1;
    var init, e := trace[..n], trace[n];
    assert forall k :: 0 <= k < n ==> init[k] == trace[k];
    RenewedExtends(trace, c.fd, c.armed);
    if c.armed == n {
      assert !Renewed(trace, c.fd, n, |trace|);
      assert !LastActivity(init, c.fd, c.armed);
    } else if c.armed < n {
      LastActivityExtends(trace, c.fd, c.armed);
    }
  }

  lemma LastActivityExtends(trace: seq<Event>, fd: nat, a: nat)
    requires trace != [] && a < |trace| - 1
    ensures var n := |trace| - 1;
            var init, e := trace[..n], trace[n];
            LastActivity(trace, fd, a)
            <==> LastActivity(init, fd, a)
                 && (e.what == Transfer(fd) || e.what == Fail(fd) ==> Renewed(init, fd, a, n))
                 && (e.what == Tick ==> e.now < init[a].now + 3 * TIMESLOT)
  {
    var n := |trace| - 1;
    var init := trace[..n];
    assert forall k :: 0 <= k < n ==> init[k] == trace[k];
    RenewedExtends(trace, fd, a);
    hide Renewed;
  }

  ghost predicate DeadlinesAscending(list: seq<Conn>) {
    forall i, j :: 0 <= i < j < |list| ==> list[i].deadline <= list[j].deadline
  }

  ghost predicate DeadlinesWithin(list: seq<Conn>, latest: int) {
    forall i :: 0 <= i < |list| ==> list[i].deadline <= latest
  }

  /** Deadlines ascend, and none is further away than three slots from the last event. */
  lemma {:induction false} DeadlinesAscend(trace: seq<Event>)
    requires ClockRuns(trace)
    ensures DeadlinesAscending(After(trace))
    ensures trace != [] ==> DeadlinesWithin(After(trace), trace[|trace| - 1].now + 3 * TIMESLOT)
  {
    ListIsLastActivity(trace);
    var list := After(trace);
    assert forall i :: 0 <= i < |list| ==> list[i] in list;
  }

  /** So a tick closes a prefix of the list: those longest inactive. */
  lemma {:induction false} TickFiresPrefix(trace: seq<Event>, now: int) returns (k: nat)
    requires ClockRuns(trace)
    ensures k <= |After(trace)|
    ensures forall i :: 0 <= i < k ==> After(trace)[i].deadline <= now
    ensures forall i :: k <= i < |After(trace)| ==> now < After(trace)[i].deadline
    ensures Alive(After(trace), now) == After(trace)[k..]
  {
    DeadlinesAscend(trace);
    k := AliveIsSuffix(After(trace), now);
  }

  lemma {:induction false} AliveIsSuffix(list: seq<Conn>, now: int) returns (k: nat)
    requires DeadlinesAscending(list)
    ensures k <= |list| && (forall i :: 0 <= i < k ==> list[i].deadline <= now)
    ensures forall i :: k <= i < |list| ==> now < list[i].deadline
    ensures Alive(list, now) == list[k..]
  {
    if list == [] {
      k := 0;
    } else if now < list[0].deadline {
      k := 0;
      AllAlive(list, now);
    } else {
      var m := AliveIsSuffix(list[1..], now);
      k := m + 1;
      assert list[1..][m..] == list[k..];
    }
  }

  lemma {:induction false} AllAlive(list: seq<Conn>, now: int)
    requires forall i :: 0 <= i < |list| ==> now < list[i].deadline
    ensures Alive(list, now) == list
  {
    if list != [] {
      AllAlive(list[1..], now);
    }
  }

  lemma {:induction false} OthersIsWithout(list: seq<Conn>, i: nat, fd: nat)
    requires i < |list| && forall j :: 0 <= j < |list| ==> (IsTimerOf(list[j], fd) <==> j == i)
    ensures Others(list, fd) == Without(list, i)
  {
    hide IsTimerOf, Without;
    WithoutStep(list, i);
    if i == 0 {
      NoOthers(list[1..], fd);
    } else {
      OthersIsWithout(list[1..], i - 1, fd);
    }
  }

  lemma WithoutStep(list: seq<Conn>, i: nat)
    requires i < |list|
    ensures Without(list, i) == if i == 0 then list[1..] else [list[0]] + Without(list[1..], i - 1)
  {
    assert list == [list[0]] + list[1..];
  }

  lemma {:induction false} NoOthers(list: seq<Conn>, fd: nat)
    requires forall j :: 0 <= j < |list| ==> !IsTimerOf(list[j], fd)
    ensures Others(list, fd) == list
  {
    hide IsTimerOf;
    if list != [] {
      NoOthers(list[1..], fd);
    }
  }

  /** What a tick leaves, once it is known how many are due. */
  lemma AliveFrom(list: seq<Conn>, now: int, j: nat)
    requires j <= |list| && DeadlinesAscending(list)
    requires forall i :: 0 <= i < |list| ==> (i < j <==> list[i].deadline <= now)
    ensures Alive(list, now) == list[j..]
  {
    hide DeadlinesAscending, Alive;
    var k := AliveIsSuffix(list, now);
    assert j < |list| ==> now < list[j].deadline;
    assert k < |list| ==> now < list[k].deadline;
  }

  lemma StepTransfer(list: seq<Conn>, fd: nat, now: int, n: nat)
    ensures Step(list, Event(Transfer(fd), now), n) == Others(list, fd) + [Armed(fd, now, n)]
  {
  }

  lemma StepFail(list: seq<Conn>, fd: nat, now: int, n: nat)
    ensures Step(list, Event(Fail(fd), now), n) == Others(list, fd)
  {
  }

  /** One more event at the end of a run. */
  lemma AfterMore(trace: seq<Event>, e: Event)
    ensures After(trace + [e]) == Step(After(trace), e, |trace|)
  {
    assert (trace + [e])[..|trace|] == trace;
  }

  /** The clock has not gone back in the run, and shows `clock` now. */
  ghost predicate Timed(trace: seq<Event>, clock: int) {
    ClockRuns(trace) && forall i :: 0 <= i < |trace| ==> trace[i].now <= clock
  }

  lemma TimedMore(trace: seq<Event>, clock: int, e: Event)
    requires Timed(trace, clock) && clock <= e.now
    ensures Timed(trace + [e], e.now)
  {
  }

  // ---------------------------------------------------------------------- open descriptors

  /** The descriptors a tick closes. */
  function ClosedBy(list: seq<Conn>, now: int): set<nat> {
    set c | c in list && c.deadline <= now :: c.fd
  }

  /** The descriptors that are open after a run. */
  function Open(trace: seq<Event>): set<nat> {
    if trace == [] then {}
    else
      var init, e := trace[..|trace| - 1], trace[|trace| - 1];
      match e.what
      case Accept(fd) => Open(init) + {fd}
      case Transfer(_) => Open(init)
      case Fail(fd) => Open(init) - {fd}
      case HangUp(fd) => Open(init) - {fd}
      case Tick => Open(init) - ClosedBy(After(init), e.now)
  }

  /** Since event `a` nothing has closed `fd`: no failure, no hang-up, no timer of it that was due at a tick. */
  ghost predicate KeptOpen(trace: seq<Event>, fd: nat, a: nat) {
    forall k :: a < k < |trace| ==>
      && trace[k].what != Fail(fd) && trace[k].what != HangUp(fd)
      && (trace[k].what == Tick ==>
            forall c :: c in After(trace[..k]) && c.deadline <= trace[k].now ==> c.fd != fd)
  }

  /** A descriptor is open if and only if it has been accepted and nothing has closed it since. */
  lemma {:induction false} OpenIff(trace: seq<Event>, fd: nat)
    ensures fd in Open(trace) <==> exists a :: 0 <= a < |trace| && trace[a].what == Accept(fd) && KeptOpen(trace, fd, a)
  {
    if trace != [] {
      hide KeptOpen, After;
      var n := |trace| - 1;
      var init, e := trace[..n], trace[n];
      OpenIff(init, fd);
      assert forall a :: 0 <= a < n ==> init[a] == trace[a];
      forall a | 0 <= a < n
        ensures KeptOpen(trace, fd, a) <==> KeptOpen(init, fd, a) && !Closes(After(init), e, fd)
      {
        KeptOpenMore(trace, fd, a);
      }
      JustOpened(trace, fd);
    }
  }

  /** Whether an event closes `fd`. */
  ghost predicate Closes(list: seq<Conn>, e: Event, fd: nat) {
    || e.what == Fail(fd) || e.what == HangUp(fd)
    || (e.what == Tick && exists c :: c in list && c.deadline <= e.now && c.fd == fd)
  }

  lemma JustOpened(trace: seq<Event>, fd: nat)
    requires trace != []
    ensures KeptOpen(trace, fd, |trace| - 1)
  {
  }

  lemma KeptOpenMore(trace: seq<Event>, fd: nat, a: nat)
    requires trace != [] && a < |trace| - 1
    ensures var n := |trace| - 1;
            KeptOpen(trace, fd, a)
            <==> KeptOpen(trace[..n], fd, a) && !Closes(After(trace[..n]), trace[n], fd)
  {
    hide After;
    var n := |trace| - 1;
    assert forall k :: 0 <= k < n ==> trace[..n][k] == trace[k] && trace[..n][..k] == trace[..k];
  }

  /** Every open descriptor has its own timer in the list, so no event on one follows a timer that was freed. */
  lemma {:induction false} OpenHasTimer(trace: seq<Event>, fd: nat)
    requires fd in Open(trace)
    ensures exists c :: c in After(trace) && IsTimerOf(c, fd)
  {
    hide Step, ClosedBy, Others, Outdated, Alive;
    var n := |trace| - 1;
    var init, e := trace[..n], trace[n];
    if e.what == Accept(fd) || e.what == Transfer(fd) {
      var c := Armed(fd, e.now, n);
      StepMember(After(init), e, n, c);
      assert c in After(trace) && IsTimerOf(c, fd);
    } else {
      OpenHasTimer(init, fd);
      var c :| c in After(init) && IsTimerOf(c, fd);
      OpenIsNotDue(After(init), e.now, c);
      StepMember(After(init), e, n, c);
      assert Stays(c, e);
      assert c in After(trace);
    }
  }

  lemma OpenIsNotDue(list: seq<Conn>, now: int, c: Conn)
    requires c in list
    ensures c.fd !in ClosedBy(list, now) ==> now < c.deadline
  {
  }

  // ---------------------------------------------------------------------- descriptors used again

  /** No descriptor is accepted while it has a timer in the list. */
  ghost predicate NoReuse(trace: seq<Event>) {
    forall k :: 0 <= k < |trace| && trace[k].what.Accept? ==>
      forall c :: c in After(trace[..k]) ==> c.fd != trace[k].what.fd
  }

  /** Every timer in the list is that of its descriptor. */
  ghost predicate AllCurrent(list: seq<Conn>) {
    forall c :: c in list ==> c.current
  }

  /**
   Throughout a run every timer in the list is that of its descriptor, so that a tick closes only connections that
   have been inactive themselves, if and only if no descriptor is accepted while a timer of it is listed.
   */
  lemma {:induction false} AllCurrentIffNoReuse(trace: seq<Event>)
    ensures (forall k :: 0 <= k <= |trace| ==> AllCurrent(After(trace[..k]))) <==> NoReuse(trace)
  {
    hide AllCurrent, After;
    if NoReuse(trace) {
      forall k | 0 <= k <= |trace|
        ensures AllCurrent(After(trace[..k]))
      {
        assert forall m :: 0 <= m < k ==> trace[..k][..m] == trace[..m];
        NoReuseKeepsCurrent(trace[..k]);
      }
    }
    if forall k :: 0 <= k <= |trace| ==> AllCurrent(After(trace[..k])) {
      forall k, c | 0 <= k < |trace| && trace[k].what.Accept? && c in After(trace[..k])
        ensures c.fd != trace[k].what.fd
      {
        if c.fd == trace[k].what.fd {
          assert trace[..k + 1] == trace[..k] + [trace[k]];
          AfterMore(trace[..k], trace[k]);
          AcceptOutdates(After(trace[..k]), trace[k], k, c);
        }
      }
    }
  }

  lemma AcceptOutdates(list: seq<Conn>, e: Event, n: nat, c: Conn)
    requires AllCurrent(list) && c in list && e.what == Accept(c.fd)
    ensures !AllCurrent(Step(list, e, n))
  {
    hide Step;
    assert c.(current := false).(current := true) == c;
    StepMember(list, e, n, c.(current := false));
  }

  lemma {:induction false} NoReuseKeepsCurrent(trace: seq<Event>)
    requires NoReuse(trace)
    ensures AllCurrent(After(trace))
  {
    hide Others, Outdated, Alive;
    if trace != [] {
      var n := |trace| - 1;
      var init := trace[..n];
      assert forall k :: 0 <= k < n ==> init[..k] == trace[..k];
      NoReuseKeepsCurrent(init);
      forall c | c in After(trace)
        ensures c.current
      {
        StepMember(After(init), trace[n], n, c);
      }
    }
  }

  /** After a hang-up the old timer of a descriptor can close the connection that came after it, a moment old. */
  lemma OldTimerClosesNewConnection()
    ensures var trace := [Event(Accept(7), 0), Event(HangUp(7), 1), Event(Accept(7), 14)];
            && ClockRuns(trace)
            && After(trace) == [Conn(7, 15, 0, false), Conn(7, 29, 2, true)]
            && Alive(After(trace), 15) == [Conn(7, 29, 2, true)]
  {
    var a, b, c := Event(Accept(7), 0), Event(HangUp(7), 1), Event(Accept(7), 14);
    AfterMore([], a);
    AfterMore([a], b);
    AfterMore([a, b], c);
    assert [] + [a] == [a] && [a] + [b] == [a, b] && [a, b] + [c] == [a, b, c];
    assert Outdated([], 7) == [];
    assert After([a, b]) == [Conn(7, 15, 0, true)];
    assert Outdated([Conn(7, 15, 0, true)], 7) == [Conn(7, 15, 0, false)];
    var list := [Conn(7, 15, 0, false), Conn(7, 29, 2, true)];
    assert list[1..] == [Conn(7, 29, 2, true)];
    AllAlive(list[1..], 15);
  }

  lemma WithinArm(list: seq<Conn>, c: Conn, clock: int, now: int)
    requires DeadlinesWithin(list, clock + 3 * TIMESLOT) && clock <= now && c.deadline == now + 3 * TIMESLOT
    ensures DeadlinesWithin(list + [c], now + 3 * TIMESLOT)
  {
  }

  lemma WithinOutdated(list: seq<Conn>, fd: nat, latest: int)
    requires DeadlinesWithin(list, latest)
    ensures DeadlinesWithin(Outdated(list, fd), latest)
  {
  }

  lemma WithinWithout(list: seq<Conn>, i: nat, latest: int)
    requires DeadlinesWithin(list, latest) && i < |list|
    ensures DeadlinesWithin(Without(list, i), latest)
  {
  }

  class Server {
    const timerLst: SortTimerLst
    var usersTimer: map<nat, UtilTimer>  // users_timer[fd].timer

    ghost var trace: seq<Event>          // what has happened so far
    ghost var list: seq<Conn>            // the list it leads to
    ghost var clock: int                 // the last reading of time()

    /** The timer objects carry the abstract list, and each descriptor knows its own. */
    ghost predicate Mirrors(nodes: seq<UtilTimer>, l: seq<Conn>)
      reads this`usersTimer, nodes`user, nodes`expire
    {
      && |nodes| == |l|
      && forall i :: 0 <= i < |nodes| ==>
           && nodes[i].user == l[i].fd && nodes[i].expire == l[i].deadline
           && (l[i].current ==> l[i].fd in usersTimer && usersTimer[l[i].fd] == nodes[i])
    }

    ghost predicate Valid()
      reads this, timerLst, timerLst.nodes
    {
      && timerLst.Valid() && Mirrors(timerLst.nodes, list)
      && list == After(trace) && Timed(trace, clock)
      && DeadlinesWithin(list, clock + 3 * TIMESLOT)
    }

    constructor (ghost now: int)
      ensures Valid() && trace == [] && clock == now
      ensures fresh(timerLst) && timerLst.nodes == []
    {
      timerLst := new SortTimerLst();
      usersTimer, trace, list, clock := map[], [], [], now;
    }

    /** So the timers in the list are those of the last activities, in order, whatever has happened. */
    lemma Listed()
      requires Valid()
      ensures |timerLst.nodes| == |list|
      ensures forall c :: c in list <==> Pending(trace, c)
      ensures InActivityOrder(list) && DeadlinesAscending(list)
    {
      hide Pending, After;
      ListIsLastActivity(trace);
      DeadlinesAscend(trace);
    }

    lemma InOrder()
      requires Valid()
      ensures DeadlinesAscending(list)
    {
      DeadlinesAscend(trace);
    }

    lemma MirrorsWithout(nodes: seq<UtilTimer>, l: seq<Conn>, i: nat)
      requires Mirrors(nodes, l) && i < |nodes|
      ensures Mirrors(Without(nodes, i), Without(l, i))
    {
    }

    lemma MirrorsMore(nodes: seq<UtilTimer>, l: seq<Conn>, timer: UtilTimer, c: Conn)
      requires Mirrors(nodes, l)
      requires timer.user == c.fd && timer.expire == c.deadline
      requires c.current ==> c.fd in usersTimer && usersTimer[c.fd] == timer
      ensures Mirrors(nodes + [timer], l + [c])
    {
    }

    lemma MirrorsSuffix(nodes: seq<UtilTimer>, l: seq<Conn>, k: nat)
      requires Mirrors(nodes, l) && k <= |nodes|
      ensures Mirrors(nodes[k..], l[k..])
    {
    }

    /** A deadline set now is not before any in the list. */
    lemma NoneLater(now: int)
      requires Valid() && clock <= now
      ensures forall t :: t in timerLst.nodes ==> t.expire <= now + 3 * TIMESLOT
    {
    }

    /** Adding a timer that is due last never takes the branch that would lose it. */
    method AddLast(timer: UtilTimer)
      requires timerLst.Valid() && timer !in timerLst.nodes && timer.prev == null && timer.next == null
      requires forall t :: t in timerLst.nodes ==> t.expire <= timer.expire
      modifies timerLst, timerLst.nodes`prev, timerLst.nodes`next, timer`prev, timer`next
      ensures timerLst.Valid() && timerLst.nodes == old(timerLst.nodes) + [timer]
    {
      hide SortTimerLst.Linked, Ascending;
      ghost var k := timerLst.AddTimer(timer);
    }

    /** Adjusting a timer that has become the last to be due moves it to the end. */
    method AdjustToLast(timer: UtilTimer, ghost i: nat)
      requires timerLst.Linked() && i < |timerLst.nodes| && timerLst.nodes[i] == timer
      requires Ascending(Without(timerLst.nodes, i))
      requires forall t :: t in timerLst.nodes ==> t.expire <= timer.expire
      modifies timerLst, timerLst.nodes`prev, timerLst.nodes`next
      ensures timerLst.Valid() && timerLst.nodes == Without(old(timerLst.nodes), i) + [timer]
    {
      hide SortTimerLst.Linked, Ascending;
      ghost var rest := Without(timerLst.nodes, i);
      assert forall j :: 0 <= j < |rest| ==> rest[j] in timerLst.nodes;
      ghost var k := timerLst.AdjustTimer(timer, i);
    }

    /** new util_timer, filled in and remembered. */
    method NewTimer(fd: nat, expire: int) returns (timer: UtilTimer)
      modifies this`usersTimer
      ensures fresh(timer) && timer.user == fd && timer.expire == expire && timer.prev == null && timer.next == null
      ensures usersTimer == old(usersTimer)[fd := timer]
    {
      timer := new UtilTimer();
      timer.user := fd;
      timer.expire := expire;
      usersTimer := usersTimer[fd := timer];
    }

    /** The callbacks of the timers that have fired. */
    method CloseAll(fired: seq<UtilTimer>) returns (closed: seq<nat>)
      ensures |closed| == |fired| && forall j :: 0 <= j < |fired| ==> closed[j] == fired[j].user
    {
      closed := [];
      for i := 0 to |fired|
        invariant |closed| == i && forall j :: 0 <= j < i ==> closed[j] == fired[j].user
      {
        closed := closed + [fired[i].user];
      }
    }

    /** When a descriptor gets a new timer, the old one stays in the list but is its own no more. */
    lemma MirrorsOutdated(nodes: seq<UtilTimer>, l: seq<Conn>, before: map<nat, UtilTimer>, fd: nat)
      requires |nodes| == |l| && usersTimer.Keys == before.Keys + {fd}
      requires forall f :: f in before && f != fd ==> usersTimer[f] == before[f]
      requires forall i :: 0 <= i < |nodes| ==>
                 && nodes[i].user == l[i].fd && nodes[i].expire == l[i].deadline
                 && (l[i].current ==> l[i].fd in before && before[l[i].fd] == nodes[i])
      ensures Mirrors(nodes, Outdated(l, fd))
    {
    }

    lemma MirrorsMeans(nodes: seq<UtilTimer>, l: seq<Conn>)
      requires Mirrors(nodes, l)
      ensures |nodes| == |l|
      ensures forall i :: 0 <= i < |nodes| ==>
                && nodes[i].user == l[i].fd && nodes[i].expire == l[i].deadline
                && (l[i].current ==> l[i].fd in usersTimer && usersTimer[l[i].fd] == nodes[i])
    {
    }

    /** Put the event on record. */
    ghost method Record(e: Event)
      requires Timed(trace, clock) && clock <= e.now
      modifies this`trace, this`clock
      ensures trace == old(trace) + [e] && clock == e.now && Timed(trace, clock)
      ensures After(trace) == Step(After(old(trace)), e, |old(trace)|)
    {
      AfterMore(trace, e);
      TimedMore(trace, clock, e);
      trace, clock := trace + [e], e.now;
    }

    /** add_client(fd): a new timer, which always goes to the end of the list, and an old one that stays in it. */
    method AddClient(fd: nat, now: int)
      requires Valid() && clock <= now
      modifies this, timerLst, timerLst.nodes`prev, timerLst.nodes`next
      ensures Valid() && trace == old(trace) + [Event(Accept(fd), now)]
      ensures clock == now && fd in usersTimer && fresh(usersTimer[fd]) && usersTimer[fd].expire == now + 15
      ensures timerLst.nodes == old(timerLst.nodes) + [usersTimer[fd]]
    {
      hide Others, Outdated, SortTimerLst.Linked, Ascending, DeadlinesWithin, Mirrors, Timed, After;
      ghost var nodes, c, before := timerLst.nodes, Armed(fd, now, |trace|), usersTimer;
      NoneLater(now);
      WithinOutdated(list, fd, clock + 3 * TIMESLOT);
      WithinArm(Outdated(list, fd), c, clock, now);
      MirrorsMeans(nodes, list);
      var timer := NewTimer(fd, now + 3 * TIMESLOT);
      MirrorsOutdated(nodes, list, before, fd);
      AddLast(timer);
      MirrorsMore(nodes, Outdated(list, fd), timer, c);
      Record(Event(Accept(fd), now));
      list := Outdated(list, fd) + [c];
    }

    /** The position of a descriptor's timer. */
    lemma Position(fd: nat) returns (i: nat)
      requires Valid() && exists c :: c in list && IsTimerOf(c, fd)
      ensures i < |list| == |timerLst.nodes| && fd in usersTimer && timerLst.nodes[i] == usersTimer[fd]
      ensures IsTimerOf(list[i], fd) && usersTimer[fd].user == fd
      ensures Others(list, fd) == Without(list, i)
    {
      i :| 0 <= i < |list| && IsTimerOf(list[i], fd);
      OnlyAt(timerLst.nodes, i);
      OthersIsWithout(list, i, fd);
    }

    /** A successful transfer: the connection's timer gets a new deadline and moves to the end of the list. */
    method Refresh(fd: nat, now: int)
      requires Valid() && clock <= now
      requires exists c :: c in list && IsTimerOf(c, fd)
      modifies this`list, this`clock, this`trace, timerLst, timerLst.nodes
      ensures Valid() && trace == old(trace) + [Event(Transfer(fd), now)] && clock == now
      ensures fd in usersTimer && usersTimer[fd].expire == now + 15
    {
      hide Step, Others, SortTimerLst.Linked, Ascending, DeadlinesWithin, Mirrors, Distinct, Timed, After;
      ghost var nodes, c := timerLst.nodes, Armed(fd, now, |trace|);
      ghost var i := Position(fd);
      NoneLater(now);
      StepTransfer(list, fd, now, |trace|);
      WithinWithout(list, i, clock + 3 * TIMESLOT);
      WithinArm(Without(list, i), c, clock, now);
      timerLst.NotInRest(i);
      AscendingWithout(nodes, i);
      MirrorsWithout(nodes, list, i);
      var timer := usersTimer[fd];
      timer.expire := now + 3 * TIMESLOT;
      AdjustToLast(timer, i);
      MirrorsMore(Without(nodes, i), Without(list, i), timer, c);
      Record(Event(Transfer(fd), now));
      list := Without(list, i) + [c];
    }

    /** A failed transfer: the connection's timer is removed. */
    method Forget(fd: nat, now: int)
      requires Valid() && clock <= now
      requires exists c :: c in list && IsTimerOf(c, fd)
      modifies this`list, this`clock, this`trace, timerLst, timerLst.nodes`prev, timerLst.nodes`next
      ensures Valid() && trace == old(trace) + [Event(Fail(fd), now)] && clock == now
    {
      hide Step, Others, SortTimerLst.Linked, Ascending, Mirrors, Distinct, Timed, After;
      ghost var nodes := timerLst.nodes;
      ghost var i := Position(fd);
      StepFail(list, fd, now, |trace|);
      WithinWithout(list, i, clock + 3 * TIMESLOT);
      MirrorsWithout(nodes, list, i);
      timerLst.DelTimer(usersTimer[fd], i);
      Record(Event(Fail(fd), now));
      list := Without(list, i);
    }

    /**
     deal_read_event(fd) and deal_write_event(fd), which epoll calls for on open descriptors: `ok` is whether the
     transfer succeeded. The timer that is then adjusted or removed is in the list.
     */
    method DealEvent(fd: nat, ok: bool, now: int)
      requires Valid() && clock <= now && fd in Open(trace)
      modifies this`list, this`clock, this`trace, timerLst, timerLst.nodes
      ensures Valid() && trace == old(trace) + [Event(if ok then Transfer(fd) else Fail(fd), now)] && clock == now
      ensures fd in Open(trace) <==> ok
    {
      OpenHasTimer(trace, fd);
      assert trace + [Event(if ok then Transfer(fd) else Fail(fd), now)] != [];
      assert (trace + [Event(if ok then Transfer(fd) else Fail(fd), now)])[..|trace|] == trace;
      if ok {
        Refresh(fd, now);
      } else {
        Forget(fd, now);
      }
    }

    /** The branch of start() for a hang-up, which leaves the timers alone. */
    method HungUp(fd: nat, now: int)
      requires Valid() && clock <= now
      modifies this`clock, this`trace
      ensures Valid() && trace == old(trace) + [Event(HangUp(fd), now)] && clock == now
    {
      hide SortTimerLst.Linked, Ascending, Mirrors, Distinct, Timed, After;
      Record(Event(HangUp(fd), now));
    }

    /** timer_handler(): the descriptors of the timers that are due are closed, the longest inactive first. */
    method TimerHandler(now: int) returns (closed: seq<nat>)
      requires Valid() && clock <= now
      modifies this`list, this`clock, this`trace, timerLst, timerLst.nodes`prev
      ensures Valid() && trace == old(trace) + [Event(Tick, now)] && clock == now
      ensures |closed| + |list| == |old(list)| && list == old(list)[|closed|..]
      ensures forall i :: 0 <= i < |closed| ==> closed[i] == old(list)[i].fd && old(list)[i].deadline <= now
    {
      hide Others, Alive, SortTimerLst.Linked, Ascending, Distinct, DeadlinesAscending, Mirrors, Timed, After;
      ghost var nodes := timerLst.nodes;
      InOrder();
      MirrorsMeans(nodes, list);
      var fired := timerLst.Tick(now);
      assert timerLst.nodes == nodes[|fired|..];
      AliveFrom(list, now, |fired|);
      MirrorsSuffix(nodes, list, |fired|);
      closed := CloseAll(fired);
      Record(Event(Tick, now));
      list := list[|fired|..];
    }
  }
}
