/**
 The lazy-deletion timer queue of version 3.0 (version3.0/net/Timer.cpp and .h) and the connections that arm it
 (version3.0/net/HttpData.cpp). A node is shared by the queue and, weakly, by its connection; it dies when it is
 popped, and a node that dies with its connection still attached closes it.
 */
module TimerQueue {
  import opened Connection
  import opened TimerClock

  const DEFAULT_EXPIRED_TIME: nat := 2000
  const DEFAULT_KEEP_ALIVE_TIME: nat := 5 * 60 * 1000

  class TimerNode {
    var deleted: bool
    var expiredTime: nat
    var http: HttpData?   // SPHttpData
    var alive: bool       // whether a shared_ptr to the node is left

    ghost const madeAt: nat   // the millisecond and the timeout it was made with
    ghost const timeout: nat

    constructor (requestData: HttpData, timeout: nat, now: nat)
      ensures !deleted && http == requestData && alive && expiredTime == ExpiryOf(now, timeout)
      ensures this.madeAt == now && this.timeout == timeout
    {
      deleted, http, alive := false, requestData, true;
      this.madeAt, this.timeout := now, timeout;
      expiredTime := Stamp(now) + timeout;
    }

    /** isValid(): a node found expired is marked deleted. */
    method IsValid(now: nat) returns (valid: bool)
      modifies this`deleted
      ensures valid <==> !TestsExpired(expiredTime, now)
      ensures deleted == (old(deleted) || !valid)
    {
      var temp := Stamp(now);
      if temp < expiredTime {
        return true;
      }
      deleted := true;
      return false;
    }

    method ClearReq()
      modifies this`http, this`deleted
      ensures http == null && deleted
    {
      http := null;
      deleted := true;
    }
  }

  class HttpData {
    var timer: TimerNode?  // timer_, a weak pointer: it yields nothing once the node is dead
    var connectionState: ConnectionState
    var error: bool
    var keepAlive: bool
    var events: Events

    ghost var latest: TimerNode?  // the node its last arming made
    ghost var idle: bool          // it waits in epoll: none of its handlers has run since handleConn or newEvent

    constructor ()
      ensures timer == null && latest == null && connectionState == Connected && !error && !keepAlive
      ensures !idle
    {
      timer, latest, connectionState, error, keepAlive, events := null, null, Connected, false, false, NO_EVENTS;
      idle := false;
    }

    /** handleClose() */
    method HandleClose()
      modifies this`connectionState
      ensures connectionState == Disconnected
    {
      connectionState := Disconnected;
    }
  }

  /** A queue and its connections at one time, as far as closing expired ones is concerned. */
  datatype Before = Before(
    queue: seq<TimerNode>,
    live: set<TimerNode>,
    due: set<TimerNode>,
    states: map<HttpData, ConnectionState>)

  class TimerManager {
    var queue: seq<TimerNode>  // timerNodeQueue; its order is of no importance

    ghost var nodes: set<TimerNode>  // every node ever made
    ghost var conns: set<HttpData>   // every connection

    ghost predicate NoRepeats()
      reads this`queue
    {
      forall i, j :: 0 <= i < j < |queue| ==> queue[i] != queue[j]
    }

    /** A queued node is alive. Unless deleted, it is the link of the connection it holds, made by its last arming. */
    ghost predicate GoodNode(n: TimerNode)
      reads this`nodes, this`conns, n, conns`timer, conns`latest
    {
      && n in nodes && n.alive && n.expiredTime == ExpiryOf(n.madeAt, n.timeout)
      && (n.deleted ==> n.http == null)
      && (!n.deleted ==> n.http != null && n.http in conns && n.http.timer == n && n.http.latest == n)
    }

    /** A link that still yields a node yields a queued one that holds the connection. */
    ghost predicate GoodLink(h: HttpData)
      reads this`nodes, this`queue, h`timer, nodes`alive, nodes`http
    {
      h.timer != null ==> h.timer in nodes && (h.timer.alive ==> h.timer in queue && h.timer.http == h)
    }

    /** A connection that waits has a timer while its peer sends, and none when its peer has stopped. */
    ghost predicate GoodIdle(h: HttpData)
      reads h`idle, h`connectionState, h`timer, if h.timer == null then {} else {h.timer}
    {
      h.idle ==>
        && (h.connectionState == Connected ==> Lock(h) != null)
        && (h.connectionState == Disconnecting ==> Lock(h) == null)
    }

    ghost predicate Valid()
      reads this, nodes, conns`timer, conns`latest, conns`idle, conns`connectionState
    {
      && NoRepeats()
      && (forall i :: 0 <= i < |queue| ==> queue[i] in nodes && GoodNode(queue[i]))
      && (forall h :: h in conns ==> GoodLink(h))
      && (forall h :: h in conns ==> GoodIdle(h))
    }

    constructor ()
      ensures Valid() && queue == [] && conns == {} && nodes == {}
    {
      queue, nodes, conns := [], {}, {};
    }

    /** A connection has been accepted. */
    method Accept() returns (h: HttpData)
      requires Valid()
      modifies this`conns
      ensures Valid() && fresh(h) && conns == old(conns) + {h} && h.timer == null && h.connectionState == Connected
    {
      h := new HttpData();
      conns := conns + {h};
      assert forall i :: 0 <= i < |queue| ==> old(GoodNode(queue[i]));
    }

    /** So a connection is held by at most one live node, and that node came from its last arming. */
    lemma OneLiveNode(m: TimerNode, n: TimerNode)
      requires Valid() && m in queue && n in queue && !m.deleted && !n.deleted && m.http == n.http
      ensures m == n && n == n.http.timer && n == n.http.latest
    {
      assert GoodNode(m) && GoodNode(n);
    }

    /** A connection that waits and whose peer sends is held by exactly one live node. */
    lemma WaitsWithOneNode(h: HttpData)
      requires Valid() && h in conns && h.idle && h.connectionState == Connected
      ensures h.timer != null && h.timer in queue
      ensures forall n :: n in queue && !n.deleted && n.http == h <==> n == h.timer
    {
      assert GoodIdle(h) && GoodLink(h);
      assert GoodNode(h.timer);
      forall n | n in queue && !n.deleted && n.http == h
        ensures n == h.timer
      {
        assert GoodNode(n);
      }
    }

    /** One whose peer has stopped sending is held by none, so that no timer will ever close it. */
    lemma HalfClosedHasNone(h: HttpData)
      requires Valid() && h in conns && h.idle && h.connectionState == Disconnecting
      ensures forall n :: n in queue ==> n.deleted || n.http != h
    {
      assert GoodIdle(h);
      NotHeld(h);
    }

    lemma HalfClosedHaveNone()
      requires Valid()
      ensures forall h, n :: h in conns && h.idle && h.connectionState == Disconnecting && n in queue ==>
                n.deleted || n.http != h
    {
      hide Valid;
      forall h | h in conns && h.idle && h.connectionState == Disconnecting
        ensures forall n :: n in queue ==> n.deleted || n.http != h
      {
        HalfClosedHasNone(h);
      }
    }

    /** The first handler of a dispatch is called. */
    ghost method Handle(h: HttpData)
      requires Valid() && h in conns
      modifies h`idle
      ensures Valid() && !h.idle
    {
      h.idle := false;
    }

    /** timer_.lock() */
    function Lock(h: HttpData): TimerNode?
      reads h`timer, if h.timer == null then {} else {h.timer}
    {
      if h.timer != null && h.timer.alive then h.timer else null
    }

    /** seperateTimer(), and the end of reset(): the node is left in the queue, deleted and without connection. */
    method SeparateTimer(h: HttpData)
      requires Valid() && h in conns
      modifies h`timer, h`idle, nodes`http, nodes`deleted
      ensures Valid() && !h.idle
      ensures Lock(h) == null
      ensures old(Lock(h)) != null ==> old(h.timer).deleted && old(h.timer).http == null
      ensures forall n :: n in nodes && n != old(Lock(h)) ==> n.http == old(n.http) && n.deleted == old(n.deleted)
      ensures forall n :: n in queue && !n.deleted ==> n.http != h
    {
      h.idle := false;
      var myTimer := Lock(h);
      if myTimer != null {
        assert GoodLink(h);
        myTimer.ClearReq();
        h.timer := null;
      }
    }

    /**
     addTimer(h, timeout). The new node becomes the one link of the connection; the invariant survives exactly when
     no live node held the connection before.
     */
    method AddTimer(h: HttpData, timeout: nat, now: nat) returns (node: TimerNode)
      requires Valid() && h in conns
      modifies this`queue, this`nodes, h`timer, h`latest, h`idle
      ensures fresh(node) && queue == old(queue) + [node] && nodes == old(nodes) + {node} && conns == old(conns)
      ensures !h.idle
      ensures !node.deleted && node.http == h && node.alive && node.expiredTime == ExpiryOf(now, timeout)
      ensures node.timeout == timeout && node.madeAt == now
      ensures h.timer == node && h.latest == node
      ensures Valid() <==> forall i :: 0 <= i < |old(queue)| ==> old(queue)[i].deleted || old(queue)[i].http != h
    {
      ghost var was := queue;
      node := new TimerNode(h, timeout, now);
      queue := queue + [node];
      h.timer := node;
      h.latest := node;
      h.idle := false;
      nodes := nodes + {node};
      assert queue[|was|] == node;
      forall i | 0 <= i < |was|
        ensures GoodNode(queue[i]) <==> was[i].deleted || was[i].http != h
      {
        assert queue[i] == was[i];
      }
    }

    /** newEvent(): the first arming of a connection, from addfd. */
    method NewEvent(h: HttpData, now: nat)
      requires Valid() && h in conns && h.timer == null
      modifies this`queue, this`nodes, h`timer, h`latest, h`idle, h`events
      ensures Valid() && (h.connectionState == Connected ==> h.idle)
      ensures h.timer != null && fresh(h.timer) && queue == old(queue) + [h.timer]
      ensures h.timer.http == h && h.timer.expiredTime == ExpiryOf(now, DEFAULT_EXPIRED_TIME)
      ensures h.timer.timeout == 2_000
      ensures h.events == DEFAULT_EVENT && nodes == old(nodes) + {h.timer}
    {
      NotHeld(h);
      h.events := DEFAULT_EVENT;
      var node := AddTimer(h, DEFAULT_EXPIRED_TIME, now);
      h.idle := h.connectionState == Connected;
    }

    /** A connection without a live link is held by no live node. */
    lemma NotHeld(h: HttpData)
      requires Valid() && h in conns && Lock(h) == null
      ensures forall i :: 0 <= i < |queue| ==> queue[i].deleted || queue[i].http != h
    {
      forall i | 0 <= i < |queue|
        ensures queue[i].deleted || queue[i].http != h
      {
        assert GoodNode(queue[i]);
      }
    }

    /** updatePoller, for a connection that no live node holds. */
    method Rearm(h: HttpData, timeout: nat, now: nat)
      requires Valid() && h in conns && Lock(h) == null
      modifies this`queue, this`nodes, h`timer, h`latest, h`idle
      ensures Valid() && conns == old(conns) && h.latest == h.timer && !h.idle && Lock(h) == h.timer
      ensures h.timer != null && fresh(h.timer) && queue == old(queue) + [h.timer] && nodes == old(nodes) + {h.timer}
      ensures !h.timer.deleted && h.timer.http == h && h.timer.expiredTime == ExpiryOf(now, timeout)
      ensures h.timer.timeout == timeout
    {
      NotHeld(h);
      var node := AddTimer(h, timeout, now);
    }

    /** How long handleConn keeps a connection that is up. */
    function KeepFor(h: HttpData): nat
      reads h`events, h`keepAlive
    {
      if h.keepAlive then DEFAULT_KEEP_ALIVE_TIME
      else if h.events == NO_EVENTS then DEFAULT_KEEP_ALIVE_TIME / 2
      else DEFAULT_EXPIRED_TIME
    }

    /**
     handleConn(): the old node is given up, and a new one made while the connection is up and without error; a
     connection that is being shut down keeps only its pending output; any other is closed.
     */
    method HandleConn(h: HttpData, now: nat)
      requires Valid() && h in conns
      modifies this`queue, this`nodes, h, nodes`http, nodes`deleted
      ensures Valid() && conns == old(conns)
      ensures old(Lock(h)) != null ==> old(h.timer).deleted && old(h.timer).http == null
      ensures match Conclude(old(h.error), old(h.connectionState), old(h.events))
              case Watch(events) =>
                && h.timer != null && fresh(h.timer) && queue == old(queue) + [h.timer] && h.latest == h.timer
                && !h.timer.deleted && h.timer.http == h && h.timer.expiredTime == ExpiryOf(now, old(KeepFor(h)))
                && h.events == events && h.connectionState == Connected && h.idle
              case SetOnly(events) =>
                && queue == old(queue) && Lock(h) == null && h.latest == old(h.latest)
                && h.events == events && h.connectionState == Disconnecting && h.idle
              case Close =>
                && queue == old(queue) && Lock(h) == null && h.latest == old(h.latest)
                && h.events == old(h.events) && h.connectionState == Disconnected
      ensures h.connectionState == Disconnected
              <==> old(h.error) || old(h.connectionState) == Disconnected
                   || (old(h.connectionState) == Disconnecting && !old(h.events.output))
      ensures h.connectionState == Connected ==>
                h.timer.timeout == (if old(h.keepAlive) then 300_000
                                    else if old(h.events) == Events(false, false, false, false) then 150_000
                                    else 2_000)
    {
      hide Valid;
      ConcludeMeans(h.error, h.connectionState, h.events);
      SeparateTimer(h);
      if !h.error && h.connectionState == Connected {
        WatchOn(h, now);
        Settle(h);
      } else if !h.error && h.connectionState == Disconnecting && h.events.output {
        h.events := Events(false, true, true, false);
        Settle(h);
      } else {
        Shut(h);
      }
    }

    /** The branch of handleConn for a connection that is up. */
    method WatchOn(h: HttpData, now: nat)
      requires Valid() && h in conns && Lock(h) == null && !h.error && h.connectionState == Connected
      modifies this`queue, this`nodes, h`timer, h`latest, h`idle, h`events
      ensures Valid() && conns == old(conns) && !h.idle && nodes == old(nodes) + {h.timer}
      ensures h.timer != null && fresh(h.timer) && queue == old(queue) + [h.timer] && h.latest == h.timer
      ensures Lock(h) == h.timer && !h.timer.deleted && h.timer.http == h
      ensures h.timer.expiredTime == ExpiryOf(now, old(KeepFor(h))) && h.timer.timeout == old(KeepFor(h))
      ensures Conclude(false, Connected, old(h.events)) == Watch(h.events)
    {
      hide Valid;
      if h.events != NO_EVENTS {
        var timeout := DEFAULT_EXPIRED_TIME;
        if h.keepAlive {
          timeout := DEFAULT_KEEP_ALIVE_TIME;
        }
        if h.events.input && h.events.output {
          h.events := NO_EVENTS;
          h.events := h.events.(output := true);
        }
        h.events := h.events.(edge := true);
        Rearm(h, timeout, now);
      } else if h.keepAlive {
        h.events := Events(true, false, true, false);
        Rearm(h, DEFAULT_KEEP_ALIVE_TIME, now);
      } else {
        h.events := Events(true, false, true, false);
        Rearm(h, DEFAULT_KEEP_ALIVE_TIME / 2, now);
      }
    }

    /** runInLoop(handleClose), which runs at once in the loop's own thread. */
    method Shut(h: HttpData)
      requires Valid() && h in conns
      modifies h`connectionState
      ensures Valid() && h.connectionState == Disconnected
    {
      h.HandleClose();
    }

    /** handleConn has come to its end, and the connection waits unless it is closed. */
    ghost method Settle(h: HttpData)
      requires Valid() && h in conns && !h.idle && h.connectionState != Disconnected
      requires h.connectionState == Connected <==> Lock(h) != null
      modifies h`idle
      ensures Valid() && h.idle
    {
      h.idle := true;
    }

    /** top(): a node whose deadline is not after any other's. */
    method Top() returns (k: nat)
      requires queue != []
      ensures k < |queue| && forall n :: n in queue ==> queue[k].expiredTime <= n.expiredTime
    {
      k := 0;
      for i := 1 to |queue|
        invariant k < |queue| && forall j :: 0 <= j < i ==> queue[k].expiredTime <= queue[j].expiredTime
      {
        if queue[i].expiredTime < queue[k].expiredTime {
          k := i;
        }
      }
    }

    /** Everything is in order but for the flag of the node at position `k`. */
    ghost predicate ValidBut(k: nat)
      requires k < |queue|
      reads this, nodes, conns`timer, conns`latest, conns`idle, conns`connectionState
    {
      && NoRepeats()
      && (forall i :: 0 <= i < |queue| ==> queue[i] in nodes && (i != k ==> GoodNode(queue[i])))
      && queue[k].alive
      && (queue[k].http != null ==> queue[k].http in conns && queue[k].http.timer == queue[k])
      && (forall h :: h in conns ==> GoodLink(h))
      && (forall h :: h in conns ==> GoodIdle(h))
    }

    /** pop(), and the end of the last shared_ptr to the node: its connection, if it still has one, is closed. */
    method Pop(k: nat)
      requires k < |queue| && ValidBut(k)
      modifies this`queue, {queue[k]}`alive, conns`connectionState
      ensures Valid() && queue == old(queue)[..k] + old(queue)[k + 1..]
      ensures var n := old(queue)[k];
              && !n.alive
              && (n.http != null ==> n.http.connectionState == Disconnected)
              && forall h :: h in conns && h != n.http ==> h.connectionState == old(h.connectionState)
    {
      var n := queue[k];
      queue := queue[..k] + queue[k + 1..];
      n.alive := false;
      if n.http != null {
        n.http.HandleClose();
      }
    }

    /** One round of handleExpiredEvent on the node at position `k`; it stays only if it is live and not due. */
    method Examine(k: nat, now: nat) returns (gone: bool)
      requires k < |queue| && Valid()
      modifies this`queue, {queue[k]}`alive, {queue[k]}`deleted, conns`connectionState
      ensures Valid()
      ensures var n := old(queue)[k];
              && (gone <==> old(n.deleted) || TestsExpired(n.expiredTime, now))
              && (!gone ==> queue == old(queue) && n.alive == old(n.alive) && n.deleted == old(n.deleted)
                            && forall h :: h in conns ==> h.connectionState == old(h.connectionState))
              && (gone ==> queue == old(queue)[..k] + old(queue)[k + 1..] && !n.alive
                           && (!old(n.deleted) ==> n.http != null && n.http in conns && n.http.latest == n)
                           && n.expiredTime == ExpiryOf(n.madeAt, n.timeout)
                           && forall h :: h in conns ==>
                                h.connectionState ==
                                if !old(n.deleted) && h == n.http then Disconnected else old(h.connectionState))
    {
      var top := queue[k];
      assert GoodNode(top);
      if top.deleted {
        Pop(k);
        return true;
      }
      var valid := top.IsValid(now);
      if valid {
        return false;
      }
      Pop(k);
      return true;
    }

    /** Taking one node out of a queue without repeats. */
    lemma Removed(s: seq<TimerNode>, k: nat)
      requires k < |s| && forall i, j :: 0 <= i < j < |s| ==> s[i] != s[j]
      ensures forall n :: n in s[..k] + s[k + 1..] <==> n in s && n != s[k]
    {
      var t := s[..k] + s[k + 1..];
      forall n | n in s && n != s[k]
        ensures n in t
      {
        var i :| 0 <= i < |s| && s[i] == n;
        assert t[if i < k then i else i - 1] == n;
      }
    }

    /** One round of the loop of handleExpiredEvent: the node that is due first goes, or nothing is due. */
    method Round(now: nat) returns (gone: bool, http: HttpData?, ghost node: TimerNode)
      requires Valid() && queue != []
      modifies this`queue, nodes`alive, nodes`deleted, conns`connectionState
      ensures Valid()
      ensures !gone ==> queue == old(queue) && forall n :: n in queue ==> !TestsExpired(n.expiredTime, now)
      ensures gone ==> node in old(queue) && !node.alive && |queue| < |old(queue)|
                       && forall n :: n in queue <==> n in old(queue) && n != node
      ensures forall n :: n in queue ==> n.deleted == old(n.deleted)
      ensures forall n :: n in nodes && n !in old(queue) ==> n.alive == old(n.alive)
      ensures gone ==> http == (if old(node.deleted) then null else node.http)
                       && (old(node.deleted) || TestsExpired(node.expiredTime, now))
      ensures gone && http != null ==> http in conns && http.latest == node && http.connectionState == Disconnected
      ensures gone ==> forall n :: n in queue ==> node.expiredTime <= n.expiredTime
      ensures forall h :: h in conns && (!gone || h != http) ==> h.connectionState == old(h.connectionState)
      ensures gone && !old(node.deleted) ==> http != null
    {
      hide GoodNode, GoodLink, TestsExpired, ExpiryOf;
      var k := Top();
      node := queue[k];
      http := if queue[k].deleted then null else queue[k].http;
      Removed(queue, k);
      gone := Examine(k, now);
      if !gone {
        NoneDue(k, now);
      }
    }

    /** Different nodes, in the order of their deadlines. */
    ghost predicate ByDeadline(s: seq<TimerNode>)
      reads s`expiredTime
    {
      forall i, j :: 0 <= i < j < |s| ==> s[i] != s[j] && s[i].expiredTime <= s[j].expiredTime
    }

    /** When the first deadline is not reached, none is. */
    lemma NoneDue(k: nat, now: nat)
      requires k < |queue| && forall n :: n in queue ==> queue[k].expiredTime <= n.expiredTime
      requires !TestsExpired(queue[k].expiredTime, now)
      ensures forall n :: n in queue ==> !TestsExpired(n.expiredTime, now)
    {
    }

    /** A queued node is not due before its timeout is over. */
    lemma DueIsNotEarly(now: nat)
      requires Valid()
      ensures forall n :: n in queue && TestsExpired(n.expiredTime, now) && n.madeAt <= now ==>
                now - n.madeAt >= n.timeout
    {
      hide ExpiryOf, TestsExpired;
      forall n | n in queue && TestsExpired(n.expiredTime, now) && n.madeAt <= now
        ensures now - n.madeAt >= n.timeout
      {
        assert GoodNode(n);
        NeverEarly(n.madeAt, n.timeout, now);
      }
    }

    lemma ByDeadlineMore(s: seq<TimerNode>, n: TimerNode)
      requires ByDeadline(s) && n !in s && forall m :: m in s ==> m.expiredTime <= n.expiredTime
      ensures ByDeadline(s + [n])
    {
      assert forall i :: 0 <= i < |s| ==> s[i] in s;
    }

    /** The queue and the connections as they were before anything was closed. */
    ghost function Snapshot(now: nat): Before
      reads this`queue, this`conns, queue`deleted, queue`expiredTime, conns`connectionState
    {
      Before(queue,
             set n | n in queue && !n.deleted,
             set n | n in queue && !n.deleted && TestsExpired(n.expiredTime, now),
             map h | h in conns :: h.connectionState)
    }

    /**
     How far a sweep has come since `b`: what has left the queue is dead, and `closers` are the live ones of it, all
     due, in the order of their deadlines; `closed` are their connections, and no other connection has changed.
     */
    ghost predicate Swept(b: Before, closed: seq<HttpData>, closers: seq<TimerNode>)
      reads this`queue, this`conns, b.queue`deleted, b.queue`alive, b.queue`expiredTime, queue`deleted,
        queue`expiredTime, closers`expiredTime, closers`http, closed`latest, conns`connectionState
    {
      && (forall n :: n in queue ==> n in b.queue && (n.deleted <==> n !in b.live))
      && (forall n :: n in b.queue && n !in queue ==> !n.alive && (n in b.live ==> n in closers))
      && (forall n :: n in closers ==> n in b.due && n !in queue)
      && ByDeadline(closers)
      && (forall m, n :: m in closers && n in queue ==> m.expiredTime <= n.expiredTime)
      && |closed| == |closers|
      && (forall i :: 0 <= i < |closed| ==>
            closed[i] == closers[i].http && closed[i] in conns && closed[i].latest == closers[i]
            && closed[i].connectionState == Disconnected)
      && b.states.Keys == conns
      && (forall h :: h in conns && h !in closed ==> h.connectionState == b.states[h])
    }

    /** Nothing has been swept yet. */
    lemma NoneSwept(now: nat)
      ensures Swept(Snapshot(now), [], [])
    {
    }

    /** One more round of a sweep. */
    method Sweep(now: nat, ghost b: Before, closed: seq<HttpData>, ghost closers: seq<TimerNode>)
      returns (gone: bool, moreClosed: seq<HttpData>, ghost moreClosers: seq<TimerNode>)
      requires Valid() && queue != [] && Swept(b, closed, closers)
      requires forall n :: n in b.live && TestsExpired(n.expiredTime, now) ==> n in b.due
      modifies this`queue, nodes`alive, nodes`deleted, conns`connectionState
      ensures Valid() && Swept(b, moreClosed, moreClosers)
      ensures if gone then |queue| < |old(queue)|
              else queue == old(queue) && forall n :: n in queue ==> !TestsExpired(n.expiredTime, now)
    {
      hide Valid, TestsExpired, ByDeadline;
      var http;
      ghost var node;
      gone, http, node := Round(now);
      moreClosed, moreClosers := closed, closers;
      if gone && http != null {
        ByDeadlineMore(closers, node);
        moreClosed := closed + [http];
        moreClosers := closers + [node];
      }
    }

    /**
     handleExpiredEvent(), at a fixed clock reading. No node that is due is left, whatever deleted nodes lie in
     between. The connections closed are those of exactly the live nodes that were due, each by the node that its
     last arming made, in the order of their deadlines and not before their timeouts are over; every other connection
     and every live node that was not due stays as it was.
     */
    method HandleExpiredEvent(now: nat) returns (closed: seq<HttpData>, ghost closers: seq<TimerNode>)
      requires Valid()
      modifies this`queue, nodes`alive, nodes`deleted, conns`connectionState
      ensures Valid() && conns == old(conns)
      ensures forall n :: n in queue ==>
                n in old(queue) && !TestsExpired(n.expiredTime, now) && n.deleted == old(n.deleted)
      ensures forall n :: n in old(queue) && !old(n.deleted) && n !in queue ==> TestsExpired(n.expiredTime, now)
      ensures forall n :: n in old(queue) && n !in queue ==> !n.alive
      ensures forall n :: n in closers <==>
                n in old(queue) && !old(n.deleted) && TestsExpired(n.expiredTime, now)
      ensures ByDeadline(closers)
      ensures forall n :: n in closers && n.madeAt <= now ==> now - n.madeAt >= n.timeout
      ensures |closed| == |closers|
      ensures forall i :: 0 <= i < |closed| ==> closed[i] == closers[i].http && closed[i].latest == closers[i]
                                                && closed[i].connectionState == Disconnected
      ensures forall h :: h in conns && h !in closed ==> h.connectionState == old(h.connectionState)
      ensures forall h :: h in conns && old(h.idle && h.connectionState == Disconnecting) ==> h !in closed
    {
      hide Valid, TestsExpired, ByDeadline, Swept;
      HalfClosedHaveNone();
      closed, closers := [], [];
      ghost var b := Snapshot(now);
      NoneSwept(now);
      DueIsNotEarly(now);
      while queue != []
        invariant Valid() && Swept(b, closed, closers)
        decreases |queue|
      {
        var gone;
        gone, closed, closers := Sweep(now, b, closed, closers);
        if !gone {
          break;
        }
      }
      SweptMeans(b, closed, closers);
    }

    lemma SweptMeans(b: Before, closed: seq<HttpData>, closers: seq<TimerNode>)
      requires Swept(b, closed, closers)
      ensures forall n :: n in queue ==> n in b.queue && (n.deleted <==> n !in b.live)
      ensures forall n :: n in b.queue && n !in queue ==> !n.alive && (n in b.live ==> n in closers)
      ensures forall n :: n in closers ==> n in b.due && n !in queue
      ensures ByDeadline(closers) && |closed| == |closers| && b.states.Keys == conns
      ensures forall i :: 0 <= i < |closed| ==> closed[i] == closers[i].http && closed[i].latest == closers[i]
                                                && closed[i].connectionState == Disconnected
      ensures forall h :: h in conns && h !in closed ==> h.connectionState == b.states[h]
    {
      hide ByDeadline;
    }
  }
}
