/**
 The double-buffered asynchronous log of version 3.0 as a transition system over whole messages.

 Producers append under a lock; one backend thread swaps the filled buffers out, drops the excess, writes and
 refills. A buffer is the sequence of messages it holds; an absent buffer is a cleared flag.
 */
module AsyncLog {
  import opened LogStream
  import opened Options

  type Message = string

  /** How much of a batch is kept: all of it, or two buffers when more than 25 have piled up. */
  const MAX_BATCH: nat := 25

  /** Where the backend stands in its loop. Waiting includes the timed wait, which may return at any time. */
  datatype Phase = Waiting | Swapped | Writing

  datatype Log = Log(
    current: seq<Message>,           // currentBuffer_
    hasNext: bool,                   // nextBuffer_ is not null
    buffers: seq<seq<Message>>,      // buffers_
    hasNew1: bool,                   // newBuffer1 and newBuffer2 are not null
    hasNew2: bool,
    batch: seq<seq<Message>>,        // buffersToWrite
    written: nat,                    // how many buffers of the batch are in the file
    phase: Phase,
    file: string,
    history: seq<seq<seq<Message>>>) // every batch swapped out so far

  const INITIAL: Log := Log([], true, [], true, true, [], 0, Waiting, "", [])

  datatype Event = Append(message: Message) | Swap | Drop | Write | Refill

  function Text(messages: seq<Message>): string {
    if messages == [] then "" else messages[0] + Text(messages[1..])
  }

  function Flatten<T>(s: seq<seq<T>>): seq<T> {
    if s == [] then [] else s[0] + Flatten(s[1..])
  }

  function Kept(batch: seq<seq<Message>>): seq<seq<Message>> {
    if |batch| > MAX_BATCH then batch[..2] else batch
  }

  /** A message fits when it leaves a free character. */
  predicate Fits(held: seq<Message>, m: Message) {
    |Text(held)| + |m| < LARGE_BUFFER
  }

  predicate Enabled(s: Log, e: Event) {
    match e
    case Append(m) => true
    case Swap => s.phase == Waiting
    case Drop => s.phase == Swapped
    case Write => s.phase == Writing && s.written < |s.batch|
    case Refill => s.phase == Writing && s.written == |s.batch|
  }

  function Step(s: Log, e: Event): Log
    requires Enabled(s, e)
  {
    match e
    case Append(m) =>
      if Fits(s.current, m) then s.(current := s.current + [m])
      else s.(buffers := s.buffers + [s.current], current := if Fits([], m) then [m] else [], hasNext := false)
    case Swap =>
      var batch := s.buffers + [s.current];
      s.(buffers := [], current := [], batch := batch, hasNew1 := false, hasNext := true,
         hasNew2 := s.hasNew2 && s.hasNext, phase := Swapped, history := s.history + [batch])
    case Drop => s.(batch := Kept(s.batch), phase := Writing, written := 0)
    case Write => s.(file := s.file + Text(s.batch[s.written]), written := s.written + 1)
    case Refill => s.(batch := [], hasNew1 := true, hasNew2 := true, phase := Waiting, written := 0)
  }

  /** The state a sequence of steps leads to; None when one of them was not possible. */
  function After(trace: seq<Event>): Option<Log> {
    if trace == [] then Some(INITIAL)
    else
      var k := |trace| - 1;
      var s := After(trace[..k]);
      if s.Some? && Enabled(s.value, trace[k]) then Some(Step(s.value, trace[k])) else None
  }

  /** What the backend relies on: there is always a buffer to take back for each one handed out. */
  predicate Inv(s: Log) {
    && (!s.hasNext ==> s.buffers != [])
    && (s.phase == Waiting ==> s.hasNew1 && s.hasNew2 && s.batch == [])
    && (s.phase != Waiting ==> !s.hasNew1 && s.batch != [] && (!s.hasNew2 ==> |s.batch| >= 2))
    && s.written <= |s.batch| && (s.phase != Writing ==> s.written == 0)
  }

  lemma StepKeepsInv(s: Log, e: Event)
    requires Inv(s) && Enabled(s, e)
    ensures Inv(Step(s, e))
  {
  }

  lemma {:induction false} RunsKeepInv(trace: seq<Event>)
    requires After(trace).Some?
    ensures Inv(After(trace).value)
  {
    if trace != [] {
      var k := |trace| - 1;
      RunsKeepInv(trace[..k]);
      StepKeepsInv(After(trace[..k]).value, trace[k]);
    }
  }

  // ---------------------------------------------------------------------- conservation

  /** The message an event adds, if it is shorter than a buffer. */
  function Added(e: Event): seq<Message> {
    if e.Append? && Fits([], e.message) then [e.message] else []
  }

  /** The messages of a run that are shorter than a buffer, in the order they were appended. */
  function Accepted(trace: seq<Event>): seq<Message> {
    if trace == [] then [] else Accepted(trace[..|trace| - 1]) + Added(trace[|trace| - 1])
  }

  /** What has been kept of the batches swapped out so far. */
  function KeptOf(history: seq<seq<seq<Message>>>): seq<Message> {
    if history == [] then []
    else KeptOf(history[..|history| - 1]) + Flatten(Kept(history[|history| - 1]))
  }

  function AllOf(history: seq<seq<seq<Message>>>): seq<Message> {
    if history == [] then []
    else AllOf(history[..|history| - 1]) + Flatten(history[|history| - 1])
  }

  /** The buffers of the batch in hand that the backend still has to put into the file. */
  function Unwritten(s: Log): seq<seq<Message>>
    requires s.written <= |s.batch|
  {
    if s.phase == Writing then s.batch[s.written..] else Kept(s.batch)
  }

  lemma {:induction false} FlattenConcat<T>(a: seq<seq<T>>, b: seq<seq<T>>)
    ensures Flatten(a + b) == Flatten(a) + Flatten(b)
    decreases |a|
  {
    if a == [] {
      assert a + b == b;
    } else {
      FlattenConcat(a[1..], b);
      assert (a + b)[1..] == a[1..] + b;
    }
  }

  lemma {:induction false} TextConcat(a: seq<Message>, b: seq<Message>)
    ensures Text(a + b) == Text(a) + Text(b)
    decreases |a|
  {
    if a == [] {
      assert a + b == b;
    } else {
      TextConcat(a[1..], b);
      assert (a + b)[1..] == a[1..] + b;
    }
  }

  lemma FlattenOne<T>(x: seq<T>)
    ensures Flatten([x]) == x
  {
    assert [x][1..] == [];
  }

  lemma KeptMore(history: seq<seq<seq<Message>>>, batch: seq<seq<Message>>)
    ensures KeptOf(history + [batch]) == KeptOf(history) + Flatten(Kept(batch))
    ensures AllOf(history + [batch]) == AllOf(history) + Flatten(batch)
  {
    hide Flatten, Kept;
    assert (history + [batch])[..|history|] == history;
  }

  /** A batch of more than 25 buffers is cut to its first two; any other is kept as it is. */
  lemma KeptMeans(batch: seq<seq<Message>>)
    ensures |batch| > 25 ==> |Kept(batch)| == 2 && Kept(batch)[0] == batch[0] && Kept(batch)[1] == batch[1]
    ensures |batch| <= 25 ==> Kept(batch) == batch
    ensures Flatten(Kept(batch)) == if |batch| > 25 then batch[0] + batch[1] else Flatten(batch)
  {
    if |batch| > 25 {
      assert Kept(batch) == [batch[0]] + [batch[1]];
      FlattenConcat([batch[0]], [batch[1]]);
      FlattenOne(batch[0]);
      FlattenOne(batch[1]);
    }
  }

  /** So what is filed or still to be written of each batch of a run is its first two buffers, or all of it. */
  lemma {:induction false} KeptBatchByBatch(history: seq<seq<seq<Message>>>, i: nat)
    requires i < |history|
    ensures var b := history[i];
            KeptOf(history[..i + 1]) == KeptOf(history[..i]) + if |b| > 25 then b[0] + b[1] else Flatten(b)
    ensures KeptOf(history[..0]) == []
  {
    hide Kept, Flatten;
    assert history[..i + 1] == history[..i] + [history[i]];
    KeptMore(history[..i], history[i]);
    KeptMeans(history[i]);
  }

  /** What was swapped out last is in hand, cut once the excess has been dropped. */
  predicate InHand(s: Log) {
    s.phase != Waiting ==>
      && s.history != []
      && var b := s.history[|s.history| - 1];
         s.batch == if s.phase == Writing && |b| > 25 then [b[0], b[1]] else b
  }

  lemma StepInHand(s: Log, e: Event)
    requires InHand(s) && Enabled(s, e)
    ensures InHand(Step(s, e))
  {
    hide Fits, Text;
    match e
    case Drop => KeptMeans(s.batch);
    case _ =>
  }

  lemma {:induction false} BatchInHand(trace: seq<Event>)
    requires After(trace).Some?
    ensures InHand(After(trace).value)
  {
    hide Step, Enabled, InHand;
    if trace != [] {
      var k := |trace| - 1;
      BatchInHand(trace[..k]);
      StepInHand(After(trace[..k]).value, trace[k]);
    } else {
      NothingInHand();
    }
  }

  lemma NothingInHand()
    ensures InHand(INITIAL)
  {
  }

  /** A message is accepted when it is shorter than a buffer of four million characters. */
  lemma AcceptedIffShort(m: Message)
    ensures Added(Append(m)) == if |m| < 4_000_000 then [m] else []
    ensures Text([]) == "" && Text([m]) == m
  {
    assert [m][1..] == [];
  }

  /** Nothing accepted is lost or reordered before the file: batches, buffers and the current buffer hold it all. */
  ghost predicate Holds(s: Log, accepted: seq<Message>) {
    accepted == AllOf(s.history) + Flatten(s.buffers) + s.current
  }

  /** The file is the text of whole messages, and these with the unwritten ones are those kept of every batch. */
  ghost predicate Files(s: Log, done: seq<Message>) {
    && s.written <= |s.batch|
    && s.file == Text(done)
    && done + Flatten(Unwritten(s)) == KeptOf(s.history)
  }

  lemma FitsAlone(held: seq<Message>, m: Message)
    ensures Fits(held, m) ==> Fits([], m)
  {
  }

  lemma AppendHolds(s: Log, m: Message, accepted: seq<Message>)
    requires Holds(s, accepted)
    ensures Holds(Step(s, Append(m)), accepted + Added(Append(m)))
  {
    hide AllOf, Flatten, Text, Fits;
    FitsAlone(s.current, m);
    if !Fits(s.current, m) {
      FlattenConcat(s.buffers, [s.current]);
      FlattenOne(s.current);
    }
  }

  lemma SwapHolds(s: Log, accepted: seq<Message>)
    requires Holds(s, accepted) && Enabled(s, Swap)
    ensures Holds(Step(s, Swap), accepted)
  {
    hide AllOf, Kept;
    FlattenConcat(s.buffers, [s.current]);
    hide Flatten;
    FlattenOne(s.current);
    KeptMore(s.history, s.buffers + [s.current]);
    NothingFlat<Message>();
  }

  lemma NothingFlat<T>()
    ensures Flatten<T>([]) == []
  {
  }

  lemma SwapFiles(s: Log, done: seq<Message>)
    requires Inv(s) && Files(s, done) && Enabled(s, Swap)
    ensures Files(Step(s, Swap), done)
  {
    hide Text, KeptOf, Flatten, AllOf;
    KeptMore(s.history, s.buffers + [s.current]);
    NothingFlat<Message>();
    assert Unwritten(s) == [];
  }

  lemma WriteFiles(s: Log, done: seq<Message>)
    requires Files(s, done) && Enabled(s, Write)
    ensures Files(Step(s, Write), done + s.batch[s.written])
  {
    hide Text, KeptOf, Flatten;
    var first, rest := s.batch[s.written], s.batch[s.written + 1..];
    TextConcat(done, first);
    assert s.batch[s.written..] == [first] + rest;
    FlattenConcat([first], rest);
    FlattenOne(first);
    assert done + first + Flatten(rest) == done + (first + Flatten(rest));
  }

  lemma OtherSteps(s: Log, e: Event, done: seq<Message>)
    requires Inv(s) && Files(s, done) && Enabled(s, e) && !e.Swap? && !e.Write?
    ensures Files(Step(s, e), done)
  {
    hide Text, KeptOf, Flatten;
    assert e.Drop? ==> Kept(s.batch)[0..] == Kept(s.batch);
    assert e.Refill? ==> s.batch[s.written..] == Kept([]);
  }

  /** What a step adds to the file. */
  function Put(s: Log, e: Event): seq<Message>
    requires Enabled(s, e)
  {
    if e.Write? then s.batch[s.written] else []
  }

  lemma StepConserves(s: Log, e: Event, accepted: seq<Message>, done: seq<Message>)
    requires Inv(s) && Enabled(s, e) && Holds(s, accepted) && Files(s, done)
    ensures Holds(Step(s, e), accepted + Added(e)) && Files(Step(s, e), done + Put(s, e))
  {
    StepHolds(s, e, accepted);
    StepFiles(s, e, done);
  }

  lemma StepHolds(s: Log, e: Event, accepted: seq<Message>)
    requires Enabled(s, e) && Holds(s, accepted)
    ensures Holds(Step(s, e), accepted + Added(e))
  {
    hide Fits;
    match e
    case Append(m) => AppendHolds(s, m, accepted);
    case Swap =>
      SwapHolds(s, accepted);
      assert accepted + [] == accepted;
    case _ => assert accepted + [] == accepted;
  }

  lemma StepFiles(s: Log, e: Event, done: seq<Message>)
    requires Inv(s) && Enabled(s, e) && Files(s, done)
    ensures Files(Step(s, e), done + Put(s, e))
  {
    hide Files, Inv, Step, Enabled;
    assert done + [] == done;
    match e
    case Swap => SwapFiles(s, done);
    case Write => WriteFiles(s, done);
    case _ => OtherSteps(s, e, done);
  }

  /** The messages a run has put into the file, buffer by buffer. */
  ghost function Filed(trace: seq<Event>): seq<Message>
    requires After(trace).Some?
  {
    if trace == [] then []
    else
      var k := |trace| - 1;
      Filed(trace[..k]) + Put(After(trace[..k]).value, trace[k])
  }

  /**
   Log conservation, over every interleaving of producers and backend: the accepted messages are those of all
   batches, then those of the filled buffers, then those of the current buffer, in append order. The file is the
   text of whole messages; followed by those still to be written they are the messages of every batch, cut to two
   buffers where more than 25 had piled up.
   */
  lemma {:induction false} LogConservation(trace: seq<Event>)
    requires After(trace).Some?
    ensures var s := After(trace).value;
            Holds(s, Accepted(trace)) && Files(s, Filed(trace))
  {
    hide Step, Enabled, Inv, Holds, Files, Added, Put;
    if trace != [] {
      var k := |trace| - 1;
      LogConservation(trace[..k]);
      RunsKeepInv(trace[..k]);
      StepConserves(After(trace[..k]).value, trace[k], Accepted(trace[..k]), Filed(trace[..k]));
    } else {
      NothingYet();
    }
  }

  lemma NothingYet()
    ensures Holds(INITIAL, []) && Files(INITIAL, [])
  {
  }

  /** So the file ends where a message ends: it is the text of the first of the messages kept. */
  lemma FileIsWholeMessages(trace: seq<Event>)
    requires After(trace).Some?
    ensures var s := After(trace).value;
            && s.written <= |s.batch|
            && exists n: nat :: n <= |KeptOf(s.history)| && s.file == Text(KeptOf(s.history)[..n])
                                && KeptOf(s.history)[n..] == Flatten(Unwritten(s))
  {
    hide KeptOf, Flatten, Unwritten, After, Filed, Text;
    LogConservation(trace);
    var kept, done := KeptOf(After(trace).value.history), Filed(trace);
    assert kept[..|done|] == done;
  }

  /** Between batches, with no batch over the limit, the file is exactly what was accepted and has left the buffers. */
  lemma {:induction false} NothingDropped(history: seq<seq<seq<Message>>>)
    requires forall b :: b in history ==> |b| <= MAX_BATCH
    ensures KeptOf(history) == AllOf(history)
  {
    hide Flatten;
    if history != [] {
      NothingDropped(history[..|history| - 1]);
    }
  }
}
