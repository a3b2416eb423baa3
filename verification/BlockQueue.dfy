/**
 The blocking queue of the version 2.0 logger (version2.0/logger/block_queue.h): a circular array that behaves as a
 bounded sequence. One call holds the lock throughout, except while it waits; what other threads push and pop
 during a wait is part of the call's input.
 */
module BlockQueue {
  import opened Options

  // ---------------------------------------------------------------------- the bounded sequence

  /** What another thread does to the queue during a wait. */
  datatype Other<T> = Puts(item: T) | Takes

  /** A wait on the condition: it fails or returns, in either case after other threads have been at the queue. */
  datatype Wait<T> = WaitFails(meanwhile: seq<Other<T>>) | Woken(meanwhile: seq<Other<T>>)

  datatype Op<T> = Push(item: T) | Pop(waits: seq<Wait<T>>) | PopTimed(wait: Wait<T>) | Clear

  datatype Answer<T> = Pushed(ok: bool) | Popped(item: Option<T>) | Cleared

  /** The contents, everything accepted so far, and everything that has left, in order. */
  datatype Bounded<T> = Bounded(items: seq<T>, accepted: seq<T>, left: seq<T>)

  function PushOne<T>(q: Bounded<T>, max: nat, item: T): Bounded<T> {
    if |q.items| >= max then q else Bounded(q.items + [item], q.accepted + [item], q.left)
  }

  function PopOne<T>(q: Bounded<T>): (Bounded<T>, Option<T>) {
    if q.items == [] then (q, None)
    else (Bounded(q.items[1..], q.accepted, q.left + [q.items[0]]), Some(q.items[0]))
  }

  function ByOther<T>(q: Bounded<T>, max: nat, other: Other<T>): Bounded<T> {
    match other
    case Puts(item) => PushOne(q, max, item)
    case Takes => PopOne(q).0
  }

  function ByOthers<T>(q: Bounded<T>, max: nat, others: seq<Other<T>>): Bounded<T>
    decreases |others|
  {
    if others == [] then q else ByOthers(ByOther(q, max, others[0]), max, others[1..])
  }

  /** pop(item): waits until there is an item or a wait fails; a run out of waits is a failure. */
  function PopWaiting<T>(q: Bounded<T>, max: nat, waits: seq<Wait<T>>): (Bounded<T>, Option<T>)
    decreases |waits|
  {
    if q.items != [] || waits == [] then PopOne(q)
    else
      var t := ByOthers(q, max, waits[0].meanwhile);
      if waits[0].WaitFails? then (t, None) else PopWaiting(t, max, waits[1..])
  }

  function Step<T>(q: Bounded<T>, max: nat, op: Op<T>): (Bounded<T>, Answer<T>) {
    match op
    case Push(item) => (PushOne(q, max, item), Pushed(|q.items| < max))
    case Pop(waits) => var (t, r) := PopWaiting(q, max, waits); (t, Popped(r))
    case PopTimed(wait) => var (t, r) := PopWaiting(q, max, [wait]); (t, Popped(r))
    case Clear => (Bounded([], q.accepted, q.left + q.items), Cleared)
  }

  function Run<T>(q: Bounded<T>, max: nat, ops: seq<Op<T>>): (r: (Bounded<T>, seq<Answer<T>>))
    ensures |r.1| == |ops|
  {
    if ops == [] then (q, [])
    else
      var k := |ops| - 1;
      var (t, answers) := Run(q, max, ops[..k]);
      var (u, answer) := Step(t, max, ops[k]);
      (u, answers + [answer])
  }

  // ---------------------------------------------------------------------- what each call does

  /** A push answers true exactly while there is room, and then its item is the last one there; else nothing changes. */
  lemma PushPutsLast<T>(q: Bounded<T>, max: nat, item: T)
    ensures var (t, answer) := Step(q, max, Push(item));
            && answer == Pushed(|q.items| < max)
            && t.left == q.left
            && (|q.items| < max ==> t.items == q.items + [item] && t.accepted == q.accepted + [item])
            && (|q.items| >= max ==> t.items == q.items && t.accepted == q.accepted)
  {
  }

  /** A pop of a queue that is not empty takes its first item at once. */
  lemma PopTakesFirst<T>(q: Bounded<T>, max: nat, waits: seq<Wait<T>>)
    requires q.items != []
    ensures var (t, r) := PopWaiting(q, max, waits);
            r == Some(q.items[0]) && [q.items[0]] + t.items == q.items && t.left == q.left + [q.items[0]]
  {
  }

  /** The queue after the first `k` waits of a pop that has not come to take anything. */
  function Waited<T>(q: Bounded<T>, max: nat, waits: seq<Wait<T>>, k: nat): Bounded<T>
    requires k <= |waits|
  {
    if k == 0 then q else ByOthers(Waited(q, max, waits, k - 1), max, waits[k - 1].meanwhile)
  }

  /** The first `k` waits return, and none but perhaps the last of them to an item. */
  predicate StillWaits<T>(q: Bounded<T>, max: nat, waits: seq<Wait<T>>, k: nat)
    requires k <= |waits|
  {
    forall i :: 0 <= i < k ==> waits[i].Woken? && Waited(q, max, waits, i).items == []
  }

  lemma {:induction false} PopWaits<T>(q: Bounded<T>, max: nat, waits: seq<Wait<T>>, k: nat)
    requires k <= |waits| && StillWaits(q, max, waits, k)
    ensures PopWaiting(q, max, waits) == PopWaiting(Waited(q, max, waits, k), max, waits[k..])
    decreases k
  {
    if k == 0 {
      assert waits[0..] == waits;
    } else {
      PopWaits(q, max, waits, k - 1);
      assert waits[k - 1..][1..] == waits[k..];
    }
  }

  /** A pop goes on waiting until it finds an item or a wait fails: the first item there after a wait is handed out. */
  lemma PopFindsItem<T>(q: Bounded<T>, max: nat, waits: seq<Wait<T>>, k: nat)
    requires k <= |waits| && StillWaits(q, max, waits, k) && Waited(q, max, waits, k).items != []
    ensures PopWaiting(q, max, waits).1 == Some(Waited(q, max, waits, k).items[0])
  {
    PopWaits(q, max, waits, k);
    PopTakesFirst(Waited(q, max, waits, k), max, waits[k..]);
  }

  /** And it hands out nothing when a wait fails before. */
  lemma PopGivesUp<T>(q: Bounded<T>, max: nat, waits: seq<Wait<T>>, k: nat)
    requires k < |waits| && StillWaits(q, max, waits, k)
    requires Waited(q, max, waits, k).items == [] && waits[k].WaitFails?
    ensures PopWaiting(q, max, waits) == (Waited(q, max, waits, k + 1), None)
  {
    PopWaits(q, max, waits, k);
  }

  /** The items of the pushes that were answered true. */
  function PushedItems<T>(ops: seq<Op<T>>, answers: seq<Answer<T>>): seq<T>
    requires |ops| == |answers|
  {
    if ops == [] then []
    else
      var k := |ops| - 1;
      PushedItems(ops[..k], answers[..k]) + if ops[k].Push? && answers[k] == Pushed(true) then [ops[k].item] else []
  }

  /** No other thread puts an item during these waits. */
  ghost predicate NothingPut<T>(waits: seq<Wait<T>>) {
    forall i, j :: 0 <= i < |waits| && 0 <= j < |waits[i].meanwhile| ==> waits[i].meanwhile[j] == Takes
  }

  ghost predicate OnlyPushes<T>(op: Op<T>) {
    match op
    case Pop(waits) => NothingPut(waits)
    case PopTimed(wait) => NothingPut([wait])
    case _ => true
  }

  lemma {:induction false} ByTakers<T>(q: Bounded<T>, max: nat, others: seq<Other<T>>)
    requires forall j :: 0 <= j < |others| ==> others[j] == Takes
    ensures ByOthers(q, max, others).accepted == q.accepted
    decreases |others|
  {
    if others != [] {
      assert others[0] == Takes;
      ByTakers(ByOther(q, max, others[0]), max, others[1..]);
    }
  }

  lemma {:induction false} PopAccepts<T>(q: Bounded<T>, max: nat, waits: seq<Wait<T>>)
    requires NothingPut(waits)
    ensures PopWaiting(q, max, waits).0.accepted == q.accepted
    decreases |waits|
  {
    if q.items == [] && waits != [] {
      ByTakers(q, max, waits[0].meanwhile);
      if waits[0].Woken? {
        PopAccepts(ByOthers(q, max, waits[0].meanwhile), max, waits[1..]);
      }
    }
  }

  /** Over every run: what was accepted is, in order, the items of exactly the pushes answered true. */
  lemma {:induction false} AcceptedIsPushed<T>(q: Bounded<T>, max: nat, ops: seq<Op<T>>)
    requires forall i :: 0 <= i < |ops| ==> OnlyPushes(ops[i])
    ensures var (t, answers) := Run(q, max, ops);
            t.accepted == q.accepted + PushedItems(ops, answers)
  {
    if ops != [] {
      var k := |ops| - 1;
      AcceptedIsPushed(q, max, ops[..k]);
      var (t, answers) := Run(q, max, ops[..k]);
      assert (answers + [Step(t, max, ops[k]).1])[..k] == answers;
      match ops[k]
      case Push(item) => PushPutsLast(t, max, item);
      case Pop(waits) => PopAccepts(t, max, waits);
      case PopTimed(wait) => PopAccepts(t, max, [wait]);
      case Clear =>
    }
  }

  // ---------------------------------------------------------------------- order

  /** First in, first out: what has left, followed by what is there, is what was accepted; never more than `max`. */
  ghost predicate InOrder<T>(q: Bounded<T>, max: nat) {
    q.left + q.items == q.accepted && |q.items| <= max
  }

  lemma {:induction false} ByOthersInOrder<T>(q: Bounded<T>, max: nat, others: seq<Other<T>>)
    requires InOrder(q, max)
    ensures InOrder(ByOthers(q, max, others), max) && q.left <= ByOthers(q, max, others).left
    ensures Takes !in others ==> ByOthers(q, max, others).left == q.left
    decreases |others|
  {
    if others != [] {
      OneInOrder(q, max, others[0]);
      ByOthersInOrder(ByOther(q, max, others[0]), max, others[1..]);
    }
  }

  lemma OneInOrder<T>(q: Bounded<T>, max: nat, other: Other<T>)
    requires InOrder(q, max)
    ensures InOrder(ByOther(q, max, other), max) && q.left <= ByOther(q, max, other).left
  {
    match other
    case Puts(item) => assert q.left + (q.items + [item]) == q.left + q.items + [item];
    case Takes =>
      if q.items != [] {
        assert q.items == [q.items[0]] + q.items[1..];
      }
  }

  /** No other thread takes an item during these waits. */
  ghost predicate Alone<T>(waits: seq<Wait<T>>) {
    forall i :: 0 <= i < |waits| ==> Takes !in waits[i].meanwhile
  }

  /** The queue as a wait that fails finds it, when one does. */
  function AtFailure<T>(q: Bounded<T>, max: nat, waits: seq<Wait<T>>): Option<Bounded<T>>
    decreases |waits|
  {
    if q.items != [] || waits == [] then None
    else
      var t := ByOthers(q, max, waits[0].meanwhile);
      if waits[0].WaitFails? then Some(t) else AtFailure(t, max, waits[1..])
  }

  /**
   What a pop hands out is the item that leaves last; while it is alone, the only one. It hands out nothing when a
   wait fails, whatever the other threads have put there meanwhile, and else only when there is nothing.
   */
  lemma {:induction false} PopWaitingInOrder<T>(q: Bounded<T>, max: nat, waits: seq<Wait<T>>)
    requires InOrder(q, max)
    ensures var (t, r) := PopWaiting(q, max, waits);
            && InOrder(t, max) && q.left <= t.left
            && (r.Some? ==> |t.left| > |q.left| && t.left[|t.left| - 1] == r.value)
            && (AtFailure(q, max, waits).Some? ==> r.None? && AtFailure(q, max, waits).value == t)
            && (AtFailure(q, max, waits).None? && r.None? ==> t.items == [])
            && (Alone(waits) ==> t.left == q.left + if r.Some? then [r.value] else [])
    decreases |waits|
  {
    if q.items != [] {
      assert q.items == [q.items[0]] + q.items[1..];
    } else if waits != [] {
      ByOthersInOrder(q, max, waits[0].meanwhile);
      if waits[0].Woken? {
        PopWaitingInOrder(ByOthers(q, max, waits[0].meanwhile), max, waits[1..]);
      }
    }
  }

  lemma OneWait<T>(q: Bounded<T>, max: nat, wait: Wait<T>)
    ensures PopWaiting(q, max, [wait]) ==
            if q.items != [] then PopOne(q)
            else
              var t := ByOthers(q, max, wait.meanwhile);
              if wait.WaitFails? then (t, None) else PopOne(t)
  {
    assert [wait][1..] == [];
  }

  /** A timed pop can answer false although there are items: exactly when others put them there before it timed out. */
  lemma FalseBesideItemsIff<T>(q: Bounded<T>, max: nat, wait: Wait<T>)
    ensures var (t, r) := PopWaiting(q, max, [wait]);
            r.None? && t.items != []
            <==> q.items == [] && wait.WaitFails? && ByOthers(q, max, wait.meanwhile).items != []
  {
    OneWait(q, max, wait);
  }

  /** For example, one item is put into an empty queue of one while a timed pop waits in vain. */
  lemma TimesOutBesideItem<T>(item: T)
    ensures var empty := Bounded([], [], []);
            PopWaiting(empty, 1, [WaitFails([Puts(item)])]) == (Bounded([item], [item], []), None)
  {
    var empty: Bounded<T> := Bounded([], [], []);
    OneWait(empty, 1, WaitFails([Puts(item)]));
    assert [Puts(item)][1..] == [] && [Puts(item)][0] == Puts(item);
    assert PushOne(empty, 1, item) == Bounded([item], [item], []);
    assert ByOthers(PushOne(empty, 1, item), 1, []) == PushOne(empty, 1, item);
    assert ByOthers(empty, 1, [Puts(item)]) == PushOne(empty, 1, item);
  }

  /** Over every sequence of calls: first in, first out, nothing lost but by clear, nothing twice. */
  lemma {:induction false} RunInOrder<T>(q: Bounded<T>, max: nat, ops: seq<Op<T>>)
    requires InOrder(q, max)
    ensures InOrder(Run(q, max, ops).0, max)
  {
    if ops != [] {
      var k := |ops| - 1;
      RunInOrder(q, max, ops[..k]);
      var t := Run(q, max, ops[..k]).0;
      match ops[k]
      case Push(item) => assert t.left + (t.items + [item]) == t.left + t.items + [item];
      case Pop(waits) => PopWaitingInOrder(t, max, waits);
      case PopTimed(wait) => PopWaitingInOrder(t, max, [wait]);
      case Clear => assert t.left + t.items + [] == t.left + t.items;
    }
  }

  /** The items the answers hand out. */
  function Out<T>(answers: seq<Answer<T>>): seq<T> {
    if answers == [] then []
    else
      var a := answers[|answers| - 1];
      Out(answers[..|answers| - 1]) + if a.Popped? && a.item.Some? then [a.item.value] else []
  }

  /** The call neither clears the queue nor waits while other threads take items. */
  ghost predicate Gentle<T>(op: Op<T>) {
    match op
    case Push(_) => true
    case Pop(waits) => Alone(waits)
    case PopTimed(wait) => Alone([wait])
    case Clear => false
  }

  /** While nobody clears the queue or pops beside them, the items the calls hand out are the first ones accepted. */
  lemma {:induction false} HandsOutInOrder<T>(max: nat, ops: seq<Op<T>>)
    requires forall i :: 0 <= i < |ops| ==> Gentle(ops[i])
    ensures var (q, answers) := Run(Bounded([], [], []), max, ops);
            Out(answers) == q.left && Out(answers) + q.items == q.accepted
  {
    var empty: Bounded<T> := Bounded([], [], []);
    RunInOrder(empty, max, ops);
    if ops != [] {
      var k := |ops| - 1;
      HandsOutInOrder(max, ops[..k]);
      RunInOrder(empty, max, ops[..k]);
      var (t, answers) := Run(empty, max, ops[..k]);
      var answer := Step(t, max, ops[k]).1;
      assert (answers + [answer])[..|answers|] == answers;
      match ops[k]
      case Push(item) =>
      case Pop(waits) => PopWaitingInOrder(t, max, waits);
      case PopTimed(wait) => PopWaitingInOrder(t, max, [wait]);
    }
  }

  // ---------------------------------------------------------------------- the circular array

  lemma Multiples(m: int, d: int)
    requires m > 0
    ensures d >= 1 ==> m * d >= m
    ensures d <= -1 ==> m * d <= -m
  {
  }

  /** The remainder of a number below three times the modulus. */
  lemma Wraps(x: int, m: int)
    requires 0 <= x < 3 * m
    ensures x % m == if x < m then x else if x < 2 * m then x - m else x - 2 * m
  {
    var q := if x < m then 0 else if x < 2 * m then 1 else 2;
    assert x == m * (x / m) + x % m;
    Multiples(m, x / m - q);
    assert m * (x / m - q) == m * (x / m) - m * q;
  }

  /** Where element `j` lies when the slot before the first one is `front`. */
  function Slot(front: int, j: nat, max: int): (i: nat)
    requires -1 <= front < max && 0 < max && j <= max
    ensures var x := front + 1 + j;
            i < max && i == if x < max then x else if x < 2 * max then x - max else x - 2 * max
  {
    Wraps(front + 1 + j, max);
    (front + 1 + j) % max
  }

  /** The slots of the `size` elements, in order. */
  function Ring<T>(slots: seq<T>, front: int, size: nat): (items: seq<T>)
    requires -1 <= front < |slots| && size <= |slots|
    ensures |items| == size
  {
    seq(size, j requires 0 <= j < size => slots[Slot(front, j, |slots|)])
  }

  lemma RingPush<T>(slots: seq<T>, front: int, size: nat, item: T)
    requires -1 <= front < |slots| && size < |slots|
    ensures Ring(slots[Slot(front, size, |slots|) := item], front, size + 1) == Ring(slots, front, size) + [item]
  {
    hide Slot;
  }

  lemma RingPop<T>(slots: seq<T>, front: int, size: nat)
    requires -1 <= front < |slots| && 0 < size <= |slots|
    ensures var next := Slot(front, 0, |slots|);
            Ring(slots, front, size) == [slots[next]] + Ring(slots, next, size - 1)
  {
    hide Slot;
  }

  lemma NextOther<T>(q: Bounded<T>, max: nat, others: seq<Other<T>>, i: nat)
    requires i < |others|
    ensures ByOthers(q, max, others[i..]) == ByOthers(ByOther(q, max, others[i]), max, others[i + 1..])
  {
    assert others[i..][1..] == others[i + 1..];
  }

  lemma NoOthers<T>(q: Bounded<T>, max: nat, others: seq<Other<T>>)
    requires others == []
    ensures ByOthers(q, max, others) == q
  {
  }

  class BlockQueue<T(0)> {
    const slots: array<T>   // m_array, whose length is m_max_size
    var size: int
    var front: int
    var back: int

    ghost var accepted: seq<T>
    ghost var left: seq<T>

    ghost predicate Valid()
      reads this
    {
      && 0 <= size <= slots.Length && 0 < slots.Length
      && -1 <= front < slots.Length
      && back == (if size == 0 then front else Slot(front, size - 1, slots.Length))
    }

    /** Element j lies at (front + 1 + j) mod max_size. */
    ghost function Contents(): Bounded<T>
      reads this, slots
      requires Valid()
    {
      Bounded(Ring(slots[..], front, size), accepted, left)
    }

    /** A size that is not positive makes the constructor leave the process. */
    constructor (maxSize: int)
      requires maxSize > 0
      ensures Valid() && fresh(slots) && slots.Length == maxSize && Contents() == Bounded([], [], [])
    {
      slots := new T[maxSize];
      size, front, back, accepted, left := 0, -1, -1, [], [];
    }

    /** clear() */
    method Clear()
      requires Valid()
      modifies this
      ensures Valid() && Contents() == Step(old(Contents()), slots.Length, Op.Clear).0
      ensures Contents().items == []
    {
      left := left + Ring(slots[..], front, size);
      size, front, back := 0, -1, -1;
    }

    method Full() returns (r: bool)
      requires Valid()
      ensures r <==> |Contents().items| == slots.Length
    {
      r := size >= slots.Length;
    }

    method Empty() returns (r: bool)
      requires Valid()
      ensures r <==> Contents().items == []
    {
      r := 0 == size;
    }

    method Size() returns (n: int)
      requires Valid()
      ensures n == |Contents().items|
    {
      n := size;
    }

    method Back() returns (r: Option<T>)
      requires Valid()
      ensures var items := Contents().items;
              r == if items == [] then None else Some(items[|items| - 1])
    {
      if 0 == size { return None; }
      r := Some(slots[back]);
    }

    /** push(item), with the answer true where the source forgets to return it. */
    method PushItem(item: T) returns (ok: bool)
      requires Valid()
      modifies this, slots
      ensures Valid() && (Contents(), Pushed(ok)) == Step(old(Contents()), slots.Length, Push(item))
      ensures !ok <==> |old(Contents().items)| == slots.Length
      ensures Contents().items == if ok then old(Contents().items) + [item] else old(Contents().items)
    {
      if size >= slots.Length { return false; }
      hide Ring, Slot;
      ghost var next := Slot(front, size, slots.Length);
      RingPush(slots[..], front, size, item);
      Wraps(back + 1, slots.Length);
      back := (back + 1) % slots.Length;
      slots[back] := item;
      assert slots[..] == old(slots[..])[next := item];
      size := size + 1;
      accepted := accepted + [item];
      return true;
    }

    /** The end of both pops, with the lock held and an item there. */
    method TakeFirst() returns (item: T)
      requires Valid() && size > 0
      modifies this
      ensures Valid() && (Contents(), Some(item)) == PopOne(old(Contents()))
    {
      hide Ring, Slot;
      RingPop(slots[..], front, size);
      Wraps(front + 1, slots.Length);
      left := left + [slots[Slot(front, 0, slots.Length)]];
      front := (front + 1) % slots.Length;
      item := slots[front];
      size := size - 1;
    }

    method RunOther(other: Other<T>)
      requires Valid()
      modifies this, slots
      ensures Valid() && Contents() == ByOther(old(Contents()), slots.Length, other)
    {
      hide Ring, Slot;
      match other {
        case Puts(item) => var ok := PushItem(item);
        case Takes => if size > 0 { var item := TakeFirst(); }
      }
    }

    /** What other threads do during a wait. */
    method RunOthers(others: seq<Other<T>>)
      requires Valid()
      modifies this, slots
      ensures Valid() && Contents() == ByOthers(old(Contents()), slots.Length, others)
    {
      hide Valid, Contents, ByOther, ByOthers;
      var i := 0;
      assert others[0..] == others;
      while i < |others|
        invariant 0 <= i <= |others| && Valid()
        invariant ByOthers(Contents(), slots.Length, others[i..]) == ByOthers(old(Contents()), slots.Length, others)
      {
        NextOther(Contents(), slots.Length, others, i);
        RunOther(others[i]);
        i := i + 1;
      }
      NoOthers(Contents(), slots.Length, others[i..]);
    }

    /** pop(item) */
    method PopItem(waits: seq<Wait<T>>) returns (item: Option<T>)
      requires Valid()
      modifies this, slots
      ensures Valid() && (Contents(), Popped(item)) == Step(old(Contents()), slots.Length, Pop(waits))
      ensures (Contents(), item) == PopWaiting(old(Contents()), slots.Length, waits)
      ensures old(Contents().items) != [] ==>
                item.Some? && old(Contents().items) == [item.value] + Contents().items
    {
      var i := 0;
      while size <= 0
        invariant 0 <= i <= |waits| && Valid()
        invariant PopWaiting(Contents(), slots.Length, waits[i..]) == PopWaiting(old(Contents()), slots.Length, waits)
        decreases |waits| - i
      {
        if i == |waits| { return None; }
        assert waits[i..][1..] == waits[i + 1..];
        RunOthers(waits[i].meanwhile);
        if waits[i].WaitFails? { return None; }
        i := i + 1;
      }
      var first := TakeFirst();
      item := Some(first);
    }

    /** pop(item, ms_timeout): one wait, then another look. */
    method PopItemTimed(wait: Wait<T>) returns (item: Option<T>)
      requires Valid()
      modifies this, slots
      ensures Valid() && (Contents(), Popped(item)) == Step(old(Contents()), slots.Length, PopTimed(wait))
      ensures (Contents(), item) == PopWaiting(old(Contents()), slots.Length, [wait])
      ensures old(Contents().items) != [] ==>
                item.Some? && old(Contents().items) == [item.value] + Contents().items
    {
      ghost var q := Contents();
      OneWait(q, slots.Length, wait);
      if size <= 0 {
        RunOthers(wait.meanwhile);
        if wait.WaitFails? { return None; }
      }
      if size <= 0 { return None; }
      var first := TakeFirst();
      item := Some(first);
    }

    /** Any sequence of calls gives the answers of the bounded sequence. */
    method Replay(ops: seq<Op<T>>) returns (answers: seq<Answer<T>>)
      requires Valid()
      modifies this, slots
      ensures Valid() && (Contents(), answers) == Run(old(Contents()), slots.Length, ops)
    {
      answers := [];
      var i := 0;
      assert ops[..0] == [];
      while i < |ops|
        invariant 0 <= i <= |ops| && Valid()
        invariant (Contents(), answers) == Run(old(Contents()), slots.Length, ops[..i])
      {
        assert ops[..i + 1][..i] == ops[..i];
        var answer := Call(ops[i]);
        answers := answers + [answer];
        i := i + 1;
      }
      assert ops[..i] == ops;
    }

    method Call(op: Op<T>) returns (answer: Answer<T>)
      requires Valid()
      modifies this, slots
      ensures Valid() && (Contents(), answer) == Step(old(Contents()), slots.Length, op)
    {
      match op {
        case Push(item) => var ok := PushItem(item); answer := Pushed(ok);
        case Pop(waits) => var item := PopItem(waits); answer := Popped(item);
        case PopTimed(wait) => var item := PopItemTimed(wait); answer := Popped(item);
        case Clear => Clear(); answer := Cleared;
      }
    }
  }
}
