/**
 The sorted, doubly linked timer list of version 2.0 (version2.0/timer/lst_timer.cpp), on the linked objects
 themselves. The ghost field `nodes` is the sequence of timers reachable from `head`.
 */
module TimerList {
  class UtilTimer {
    var expire: int
    var user: nat           // the connection the callback is to close
    var prev: UtilTimer?
    var next: UtilTimer?

    constructor ()
      ensures prev == null && next == null
    {
      prev, next := null, null;
    }
  }

  function Without<T>(s: seq<T>, i: nat): seq<T>
    requires i < |s|
  {
    s[..i] + s[i + 1..]
  }

  function Inserted<T>(s: seq<T>, k: nat, x: T): seq<T>
    requires k <= |s|
  {
    s[..k] + [x] + s[k..]
  }

  ghost predicate Distinct(s: seq<UtilTimer>) {
    forall i, j :: 0 <= i < j < |s| ==> s[i] != s[j]
  }

  /** A member of a distinct sequence is at one position only. */
  lemma OnlyAt(s: seq<UtilTimer>, i: nat)
    requires Distinct(s) && i < |s|
    ensures forall j :: 0 <= j < |s| && j != i ==> s[j] != s[i]
  {
  }

  lemma DistinctWithout(s: seq<UtilTimer>, i: nat)
    requires Distinct(s) && i < |s|
    ensures Distinct(Without(s, i)) && s[i] !in Without(s, i)
  {
  }

  lemma DistinctInserted(s: seq<UtilTimer>, k: nat, x: UtilTimer)
    requires Distinct(s) && k <= |s| && x !in s
    ensures Distinct(Inserted(s, k, x))
  {
  }

  /** The two pointers of the node at position `i` of a list spelled out by `s`. */
  ghost predicate LinkedAt(s: seq<UtilTimer>, i: nat)
    requires i < |s|
    reads {s[i]}`prev, {s[i]}`next
  {
    && s[i].prev == (if i == 0 then null else s[i - 1])
    && s[i].next == (if i == |s| - 1 then null else s[i + 1])
  }

  ghost predicate Ascending(s: seq<UtilTimer>)
    reads s`expire
  {
    forall i, j :: 0 <= i < j < |s| ==> s[i].expire <= s[j].expire
  }

  lemma AscendingWithout(s: seq<UtilTimer>, i: nat)
    requires Ascending(s) && i < |s|
    ensures Ascending(Without(s, i))
  {
  }

  /** Where inserting keeps a sequence ascending. */
  lemma AscendingInserted(s: seq<UtilTimer>, k: nat, x: UtilTimer)
    requires Ascending(s) && k <= |s|
    ensures Ascending(Inserted(s, k, x))
            <==> (k > 0 ==> s[k - 1].expire <= x.expire) && (k < |s| ==> x.expire <= s[k].expire)
  {
    var t := Inserted(s, k, x);
    if Ascending(t) {
      assert k > 0 ==> t[k - 1].expire <= t[k].expire;
      assert k < |s| ==> t[k].expire <= t[k + 1].expire;
    }
  }

  /** In an ascending sequence, what is due after `e` is a suffix. */
  lemma LaterThan(s: seq<UtilTimer>, k: nat, e: int)
    requires Ascending(s) && (k < |s| ==> e < s[k].expire)
    ensures forall j :: k <= j < |s| ==> e < s[j].expire
  {
  }

  lemma Neighbours(s: seq<UtilTimer>, i: nat)
    requires Ascending(s)
    ensures 0 < i < |s| ==> s[i - 1].expire <= s[i].expire
  {
  }

  class SortTimerLst {
    var head: UtilTimer?
    var tail: UtilTimer?
    ghost var nodes: seq<UtilTimer>

    /** The links spell out `nodes`. With no node left, `tail` may dangle. */
    ghost predicate Linked()
      reads this, nodes`prev, nodes`next
    {
      && Distinct(nodes)
      && (nodes == [] <==> head == null)
      && (nodes != [] ==> head == nodes[0] && tail == nodes[|nodes| - 1])
      && (forall i :: 0 <= i < |nodes| ==> LinkedAt(nodes, i))
    }

    ghost predicate Valid()
      reads this, nodes
    {
      Linked() && Ascending(nodes)
    }

    constructor ()
      ensures Valid() && nodes == []
    {
      head, tail, nodes := null, null, [];
    }

    /** What a node's position says about it. */
    lemma AtPosition(i: nat)
      requires Linked() && i < |nodes|
      ensures nodes[i] == head <==> i == 0
      ensures nodes[i] == tail <==> i == |nodes| - 1
      ensures nodes[i].prev == (if i == 0 then null else nodes[i - 1])
      ensures nodes[i].next == (if i == |nodes| - 1 then null else nodes[i + 1])
    {
      assert LinkedAt(nodes, i);
    }

    lemma HeadIsFirst()
      requires Linked()
      ensures nodes == [] <==> head == null
      ensures nodes != [] ==> head == nodes[0]
    {
    }

    /** Put `timer` between the neighbours at positions k - 1 and k. */
    method LinkBetween(prev: UtilTimer, timer: UtilTimer, tmp: UtilTimer, ghost k: nat)
      requires Linked() && timer !in nodes
      requires 0 < k < |nodes| && nodes[k - 1] == prev && nodes[k] == tmp
      modifies this`nodes, prev`next, timer`next, tmp`prev, timer`prev
      ensures Linked() && nodes == Inserted(old(nodes), k, timer)
    {
      OnlyAt(nodes, k - 1);
      OnlyAt(nodes, k);
      DistinctInserted(nodes, k, timer);
      hide Distinct;
      assert LinkedAt(nodes, k) && LinkedAt(nodes, k - 1);
      prev.next := timer;
      timer.next := tmp;
      tmp.prev := timer;
      timer.prev := prev;
      ghost var was := nodes;
      nodes := Inserted(nodes, k, timer);
      forall i | 0 <= i < |nodes|
        ensures LinkedAt(nodes, i)
      {
        if i < k {
          assert old(LinkedAt(was, i));
        } else if i > k {
          assert old(LinkedAt(was, i - 1));
        }
      }
    }

    /** Put `timer` behind the last node. */
    method LinkLast(prev: UtilTimer, timer: UtilTimer)
      requires Linked() && timer !in nodes && nodes != [] && prev == nodes[|nodes| - 1]
      modifies this`nodes, this`tail, prev`next, timer`next, timer`prev
      ensures Linked() && nodes == Inserted(old(nodes), |old(nodes)|, timer)
    {
      OnlyAt(nodes, |nodes| - 1);
      DistinctInserted(nodes, |nodes|, timer);
      hide Distinct;
      assert LinkedAt(nodes, |nodes| - 1);
      prev.next := timer;
      timer.prev := prev;
      timer.next := null;
      tail := timer;
      ghost var was := nodes;
      nodes := Inserted(nodes, |nodes|, timer);
      forall i | 0 <= i < |nodes|
        ensures LinkedAt(nodes, i)
      {
        if i < |was| {
          assert old(LinkedAt(was, i));
        }
      }
    }

    /**
     add_timer(timer, lst_head): insert behind `lstHead`, which is at position `h`, before the first timer that is
     due later. `k` is the position it gets.
     */
    method AddTimerAfter(timer: UtilTimer, lstHead: UtilTimer, ghost h: nat) returns (ghost k: nat)
      requires Linked() && timer !in nodes
      requires h < |nodes| && nodes[h] == lstHead
      modifies this`tail, this`nodes, nodes`prev, nodes`next, timer`prev, timer`next
      ensures Linked() && h < k <= |old(nodes)| && nodes == Inserted(old(nodes), k, timer)
      ensures forall i :: h < i < k ==> old(nodes)[i].expire <= timer.expire
      ensures k < |old(nodes)| ==> timer.expire < old(nodes)[k].expire
    {
      var prev := lstHead;
      assert LinkedAt(nodes, h);
      var tmp := prev.next;
      k := h + 1;
      while tmp != null
        invariant h < k <= |nodes| && prev == nodes[k - 1]
        invariant tmp == if k == |nodes| then null else nodes[k]
        invariant forall i :: h < i < k ==> nodes[i].expire <= timer.expire
        decreases |nodes| - k
      {
        hide Distinct;
        if timer.expire < tmp.expire {
          LinkBetween(prev, timer, tmp, k);
          return;
        }
        assert LinkedAt(nodes, k);
        prev := tmp;
        tmp := tmp.next;
        k := k + 1;
      }
      LinkLast(prev, timer);
    }

    /**
     add_timer(timer). A timer that is due before the head is linked in front of it, but `head` is not moved: it
     never becomes part of the list. In every other case the list stays valid and has the timer in its place.
     */
    method AddTimer(timer: UtilTimer) returns (ghost k: nat)
      requires Valid() && timer !in nodes && timer.prev == null && timer.next == null
      modifies this, nodes`prev, nodes`next, timer`prev, timer`next
      ensures var lost := old(nodes) != [] && timer.expire < old(nodes)[0].expire;
              && (lost ==> nodes == old(nodes) && head == old(head) && tail == old(tail) && head.prev == timer
                           && forall i :: 0 <= i < |nodes| ==> nodes[i].next == old(nodes[i].next))
              && (Valid() <==> !lost)
              && (!lost ==> k <= |old(nodes)| && nodes == Inserted(old(nodes), k, timer)
                            && (forall i :: 0 <= i < k ==> old(nodes)[i].expire <= timer.expire)
                            && (forall i :: k <= i < |old(nodes)| ==> timer.expire < old(nodes)[i].expire))
    {
      hide Linked, Distinct, LinkedAt, Ascending;
      k := 0;
      HeadIsFirst();
      if head == null {
        LinkOnly(timer);
        return;
      }
      if timer.expire < head.expire {
        LinkBeforeHead(timer);
        return;
      }
      ghost var was := nodes;
      k := AddTimerAfter(timer, head, 0);
      AscendingInserted(was, k, timer);
      LaterThan(was, k, timer.expire);
    }

    /** The first timer of a list. */
    method LinkOnly(timer: UtilTimer)
      requires Valid() && head == null && timer.prev == null && timer.next == null
      modifies this
      ensures Valid() && nodes == [timer]
    {
      head := timer;
      tail := timer;
      nodes := [timer];
    }

    /** The head-insert branch: the timer and the head are linked, and nothing else happens. */
    method LinkBeforeHead(timer: UtilTimer)
      requires Linked() && head != null && timer !in nodes
      modifies {nodes[0]}`prev, timer`next
      ensures !Linked() && head.prev == timer
    {
      HeadIsFirst();
      hide Distinct;
      timer.next := head;
      head.prev := timer;
      assert !LinkedAt(nodes, 0);
    }

    /** head = head->next; head->prev = NULL, in a list of at least two. */
    method UnlinkHead()
      requires Linked() && |nodes| >= 2
      modifies this`head, this`nodes, {nodes[1]}`prev
      ensures Linked() && nodes == Without(old(nodes), 0)
    {
      OnlyAt(nodes, 1);
      DistinctWithout(nodes, 0);
      hide Distinct;
      ghost var was := nodes;
      assert LinkedAt(nodes, 0);
      head := head.next;
      head.prev := null;
      nodes := Without(nodes, 0);
      forall i | 0 <= i < |nodes|
        ensures LinkedAt(nodes, i)
      {
        assert old(LinkedAt(was, i + 1));
      }
    }

    /** timer->prev->next = timer->next; timer->next->prev = timer->prev, for a node with two neighbours. */
    method UnlinkMiddle(timer: UtilTimer, ghost i: nat)
      requires Linked() && 0 < i < |nodes| - 1 && nodes[i] == timer
      modifies this`nodes, {nodes[i - 1]}`next, {nodes[i + 1]}`prev
      ensures Linked() && nodes == Without(old(nodes), i)
    {
      OnlyAt(nodes, i - 1);
      OnlyAt(nodes, i + 1);
      DistinctWithout(nodes, i);
      hide Distinct;
      ghost var was := nodes;
      assert LinkedAt(nodes, i);
      timer.prev.next := timer.next;
      timer.next.prev := timer.prev;
      nodes := Without(nodes, i);
      forall j | 0 <= j < |nodes|
        ensures LinkedAt(nodes, j)
      {
        if j < i {
          assert old(LinkedAt(was, j));
        } else {
          assert old(LinkedAt(was, j + 1));
        }
      }
    }

    /** tail = timer->prev; tail->next = NULL, for the last of at least two. */
    method UnlinkTail(timer: UtilTimer)
      requires Linked() && |nodes| >= 2 && nodes[|nodes| - 1] == timer
      modifies this`tail, this`nodes, {nodes[|nodes| - 2]}`next
      ensures Linked() && nodes == Without(old(nodes), |old(nodes)| - 1)
    {
      OnlyAt(nodes, |nodes| - 2);
      DistinctWithout(nodes, |nodes| - 1);
      hide Distinct;
      ghost var was := nodes;
      assert LinkedAt(nodes, |nodes| - 1);
      tail := timer.prev;
      tail.next := null;
      nodes := Without(nodes, |nodes| - 1);
      forall j | 0 <= j < |nodes|
        ensures LinkedAt(nodes, j)
      {
        assert old(LinkedAt(was, j));
      }
    }

    /** Take the timer at position `i` out of the list and put it back further on. */
    method Reinsert(timer: UtilTimer, ghost i: nat) returns (ghost k: nat)
      requires Linked() && i < |nodes| - 1 && nodes[i] == timer && nodes[i + 1].expire <= timer.expire
      modifies this, nodes`prev, nodes`next
      ensures var rest := Without(old(nodes), i);
              && Linked() && i < k <= |rest| && nodes == Inserted(rest, k, timer)
              && (forall j :: i <= j < k ==> rest[j].expire <= timer.expire)
              && (k < |rest| ==> timer.expire < rest[k].expire)
    {
      hide Linked, Distinct, LinkedAt;
      NotInRest(i);
      AtPosition(i);
      if timer == head {
        UnlinkHead();
        HeadIsFirst();
        k := AddTimerAfter(timer, head, 0);
      } else {
        UnlinkMiddle(timer, i);
        k := AddTimerAfter(timer, timer.next, i);
      }
    }

    /**
     adjust_timer(timer), for the timer at position `i` whose deadline has changed. It only ever moves toward the
     tail; the list is sorted again exactly when the deadline has not fallen below that of the timer before.
     */
    method AdjustTimer(timer: UtilTimer, ghost i: nat) returns (ghost k: nat)
      requires Linked() && i < |nodes| && nodes[i] == timer && Ascending(Without(nodes, i))
      modifies this, nodes`prev, nodes`next
      ensures var rest := Without(old(nodes), i);
              && Linked() && i <= k <= |rest| && nodes == Inserted(rest, k, timer)
              && (forall j :: i <= j < k ==> rest[j].expire <= timer.expire)
              && (forall j :: k <= j < |rest| ==> timer.expire < rest[j].expire)
              && (Ascending(nodes) <==> i == 0 || rest[i - 1].expire <= timer.expire)
    {
      hide Linked, Distinct, LinkedAt, Ascending;
      ghost var rest := Without(nodes, i);
      k := i;
      AtPosition(i);
      var tmp := timer.next;
      if tmp == null || timer.expire < tmp.expire {
        assert nodes == Inserted(rest, i, timer);
        AscendingInserted(rest, i, timer);
        LaterThan(rest, i, timer.expire);
        return;
      }
      k := Reinsert(timer, i);
      assert rest[k - 1].expire <= timer.expire;
      Neighbours(rest, i);
      AscendingInserted(rest, k, timer);
      LaterThan(rest, k, timer.expire);
    }

    lemma NotInRest(i: nat)
      requires Linked() && i < |nodes|
      ensures nodes[i] !in Without(nodes, i)
    {
      DistinctWithout(nodes, i);
    }

    /** del_timer(timer), for the timer at position `i`. */
    method DelTimer(timer: UtilTimer, ghost i: nat)
      requires Linked() && i < |nodes| && nodes[i] == timer
      modifies this, nodes`prev, nodes`next
      ensures Linked() && nodes == Without(old(nodes), i)
      ensures old(Valid()) ==> Valid()
    {
      hide Linked, Distinct, LinkedAt, Ascending;
      if Ascending(nodes) {
        AscendingWithout(nodes, i);
      }
      AtPosition(i);
      if timer == head && timer == tail {
        head := null;
        tail := null;
        nodes := [];
        NothingLinked();
        return;
      }
      if timer == head {
        UnlinkHead();
        return;
      }
      if timer == tail {
        UnlinkTail(timer);
        return;
      }
      UnlinkMiddle(timer, i);
    }

    lemma NothingLinked()
      requires nodes == [] && head == null
      ensures Valid()
    {
    }

    /** tick() at time `cur`: the callbacks of exactly the timers that are due run, in list order. */
    method Tick(cur: int) returns (fired: seq<UtilTimer>)
      requires Valid()
      modifies this, nodes`prev
      ensures Valid()
      ensures fired + nodes == old(nodes)
      ensures forall i :: 0 <= i < |fired| ==> old(nodes)[i].expire <= cur
      ensures forall i :: |fired| <= i < |old(nodes)| ==> cur < old(nodes)[i].expire
    {
      hide Linked, Distinct, LinkedAt, Ascending;
      ghost var was := nodes;
      fired := [];
      var tmp := head;
      while tmp != null
        invariant Valid() && tmp == head
        invariant |fired| <= |was| && fired == was[..|fired|] && nodes == was[|fired|..]
        invariant forall i :: 0 <= i < |fired| ==> was[i].expire <= cur
        decreases |nodes|
      {
        HeadIsFirst();
        if cur < tmp.expire {
          LaterThan(nodes, 0, cur);
          assert forall i :: |fired| <= i < |was| ==> was[i] == nodes[i - |fired|];
          return;
        }
        fired := fired + [tmp];
        PopHead();
        tmp := head;
      }
      HeadIsFirst();
    }

    /** The part of tick that takes the head out of the list; `tail` is left alone. */
    method PopHead()
      requires Valid() && nodes != []
      modifies this`head, this`nodes, nodes`prev
      ensures Valid() && nodes == old(nodes)[1..]
    {
      hide Linked, Distinct, LinkedAt, Ascending;
      AscendingWithout(nodes, 0);
      assert Without(nodes, 0) == nodes[1..];
      AtPosition(0);
      if head.next == null {
        head := head.next;
        nodes := nodes[1..];
        NothingLinked();
      } else {
        UnlinkHead();
      }
    }
  }

  /** Two timers, the second due before the first: the second is linked to the head but is not in the list. */
  method HeadInsertLosesTimer() returns (list: SortTimerLst, lost: UtilTimer)
    ensures !list.Valid() && lost !in list.nodes && |list.nodes| == 1
    ensures list.head != null && list.head.prev == lost
  {
    hide SortTimerLst.Linked, Distinct, LinkedAt, Ascending;
    list := new SortTimerLst();
    var first := new UtilTimer();
    first.expire := 2;
    var k := list.AddTimer(first);
    list.HeadIsFirst();
    lost := new UtilTimer();
    lost.expire := 1;
    k := list.AddTimer(lost);
  }
}
