/**
 The asynchronous log of version 3.0 with its recycled buffer objects (version3.0/base/AsyncLogging.cpp and .h).

 Each method is one atomic step: a producer inside its lock, or the backend between two points where producers can
 interfere. Each is proved to be the step of the same name in AsyncLog, on buffers that no two slots share.
 */
module AsyncLogging {
  import opened AsyncLog
  import opened LogStream
  import opened Options

  class AsyncLogging {
    // shared, under the lock
    var currentBuffer: FixedBuffer
    var nextBuffer: FixedBuffer?
    var buffers: seq<FixedBuffer>

    // the locals of threadFunc
    var newBuffer1: FixedBuffer?
    var newBuffer2: FixedBuffer?
    var buffersToWrite: seq<FixedBuffer>
    var written: nat
    var output: string

    ghost var log: Log
    ghost var pool: set<FixedBuffer>  // every buffer ever made

    ghost predicate Elsewhere(b: FixedBuffer?, s: seq<FixedBuffer>) {
      forall i :: 0 <= i < |s| ==> s[i] != b
    }

    ghost predicate NoRepeats(s: seq<FixedBuffer>) {
      forall i, j :: 0 <= i < j < |s| ==> s[i] != s[j]
    }

    /** The buffers held one by one are four different objects, as far as they are there. */
    ghost predicate SinglesApart()
      reads this
    {
      && currentBuffer != nextBuffer && currentBuffer != newBuffer1 && currentBuffer != newBuffer2
      && (nextBuffer != null ==> nextBuffer != newBuffer1 && nextBuffer != newBuffer2)
      && (newBuffer1 != null ==> newBuffer1 != newBuffer2)
    }

    /** No buffer of a list is held one by one as well. */
    ghost predicate Apart(s: seq<FixedBuffer>)
      reads this
    {
      && NoRepeats(s)
      && Elsewhere(currentBuffer, s) && Elsewhere(nextBuffer, s) && Elsewhere(newBuffer1, s) && Elsewhere(newBuffer2, s)
    }

    /** No buffer object is in two places. */
    ghost predicate Distinct()
      reads this
    {
      SinglesApart() && Apart(buffers) && Apart(buffersToWrite)
      && forall i :: 0 <= i < |buffers| ==> Elsewhere(buffers[i], buffersToWrite)
    }

    /** Everything comes from the pool, whose buffers share no characters. */
    ghost predicate Pooled()
      reads this
    {
      && currentBuffer in pool && (nextBuffer != null ==> nextBuffer in pool)
      && (newBuffer1 != null ==> newBuffer1 in pool) && (newBuffer2 != null ==> newBuffer2 in pool)
      && (forall i :: 0 <= i < |buffers| ==> buffers[i] in pool)
      && (forall i :: 0 <= i < |buffersToWrite| ==> buffersToWrite[i] in pool)
      && (forall a, b :: a in pool && b in pool && a != b ==> a.data != b.data)
    }

    ghost predicate Holding(b: FixedBuffer, messages: seq<Message>)
      reads b, b.data
    {
      b.data.Length == LARGE_BUFFER && b.Valid() && b.Contents() == Text(messages)
    }

    ghost predicate AllHolding(s: seq<FixedBuffer>, messages: seq<seq<Message>>)
      reads s, set b | b in s :: b.data
    {
      |s| == |messages| && forall i :: 0 <= i < |s| ==> Holding(s[i], messages[i])
    }

    ghost function Storage(): set<object>
      reads this
    {
      pool + set b | b in pool :: b.data
    }

    /** The buffers mirror the abstract state and belong to one slot each. */
    ghost predicate Shape()
      reads this, Storage()
    {
      && Distinct() && Pooled()
      && Holding(currentBuffer, log.current)
      && (nextBuffer != null <==> log.hasNext) && (nextBuffer != null ==> Holding(nextBuffer, []))
      && (newBuffer1 != null <==> log.hasNew1) && (newBuffer1 != null ==> Holding(newBuffer1, []))
      && (newBuffer2 != null <==> log.hasNew2) && (newBuffer2 != null ==> Holding(newBuffer2, []))
      && AllHolding(buffers, log.buffers)
      && AllHolding(buffersToWrite, log.batch)
      && written == log.written && output == log.file
    }

    ghost predicate Valid()
      reads this, Storage()
    {
      Inv(log) && Shape()
    }

    constructor ()
      ensures Valid() && log == INITIAL && forall b :: b in pool ==> fresh(b) && fresh(b.data)
    {
      var b1, b2, b3, b4 := FourBuffers();
      currentBuffer, nextBuffer, newBuffer1, newBuffer2 := b1, b2, b3, b4;
      buffers, buffersToWrite, written, output := [], [], 0, "";
      log, pool := INITIAL, {b1, b2, b3, b4};
      new;
      hide Text;
      NoText();
    }

    /** The buffers of the producers and those of the backend. */
    static method FourBuffers() returns (a: FixedBuffer, b: FixedBuffer, c: FixedBuffer, d: FixedBuffer)
      ensures fresh({a, b, c, d}) && fresh({a.data, b.data, c.data, d.data})
      ensures a != b && a != c && a != d && b != c && b != d && c != d
      ensures a.data != b.data && a.data != c.data && a.data != d.data
      ensures b.data != c.data && b.data != d.data && c.data != d.data
      ensures a.data.Length == b.data.Length == c.data.Length == d.data.Length == LARGE_BUFFER
      ensures a.Valid() && b.Valid() && c.Valid() && d.Valid()
      ensures a.Contents() == b.Contents() == c.Contents() == d.Contents() == ""
    {
      a, b := TwoBuffers();
      c, d := TwoBuffers();
    }

    /** Two new buffers, zeroed. */
    static method TwoBuffers() returns (a: FixedBuffer, b: FixedBuffer)
      ensures fresh(a) && fresh(b) && fresh(a.data) && fresh(b.data) && a != b && a.data != b.data
      ensures a.data.Length == b.data.Length == LARGE_BUFFER
      ensures a.Valid() && b.Valid() && a.Contents() == b.Contents() == ""
    {
      a := new FixedBuffer(LARGE_BUFFER);
      b := new FixedBuffer(LARGE_BUFFER);
      a.BZero();
      b.BZero();
    }

    lemma NoText()
      ensures Text([]) == ""
    {
    }

    lemma TextSnoc(messages: seq<Message>, m: Message)
      ensures Text(messages + [m]) == Text(messages) + m
    {
      TextConcat(messages, [m]);
      assert [m][1..] == [] && Text([m]) == m + Text([]);
    }

    /** The last lines of append: the message goes into the current buffer if it fits there. */
    method AppendToCurrent(logline: Message)
      requires Valid()
      modifies this`log, currentBuffer, currentBuffer.data
      ensures Valid()
      ensures log == if Fits(old(log).current, logline) then old(log).(current := old(log).current + [logline])
                     else old(log)
    {
      TextSnoc(log.current, logline);
      if Fits(log.current, logline) {
        log := log.(current := log.current + [logline]);
      }
      currentBuffer.Append(logline);
    }

    /** new Buffer */
    method NewBuffer() returns (b: FixedBuffer)
      requires Shape()
      modifies this`pool
      ensures Shape() && pool == old(pool) + {b} && fresh(b) && fresh(b.data)
      ensures Holding(b, [])
    {
      hide Text, NoRepeats, Elsewhere;
      b := new FixedBuffer(LARGE_BUFFER);
      NoText();
      pool := pool + {b};
    }

    /** The spare buffer, or a new one. */
    method TakeSpare() returns (spare: FixedBuffer)
      requires Shape()
      modifies this`nextBuffer, this`log, this`pool
      ensures Shape()
      ensures forall b :: b in pool - old(pool) ==> fresh(b) && fresh(b.data)
      ensures spare == old(nextBuffer) || fresh({spare, spare.data})
      ensures log == old(log).(hasNext := false)
      ensures spare in pool && Holding(spare, [])
      ensures spare != currentBuffer && spare != newBuffer1 && spare != newBuffer2
      ensures Elsewhere(spare, buffers) && Elsewhere(spare, buffersToWrite)
    {
      hide Text, Holding;
      if nextBuffer != null {
        spare := nextBuffer;
        nextBuffer := null;
      } else {
        spare := NewBuffer();
      }
      log := log.(hasNext := false);
    }

    /** A full buffer is queued and the spare one, or a new one, takes its place. */
    method Rotate()
      requires Valid()
      modifies this`currentBuffer, this`nextBuffer, this`buffers, this`log, this`pool
      ensures Valid()
      ensures forall b :: b in pool - old(pool) ==> fresh(b) && fresh(b.data)
      ensures currentBuffer == old(nextBuffer) || fresh({currentBuffer, currentBuffer.data})
      ensures log == old(log).(buffers := old(log).buffers + [old(log).current], current := [], hasNext := false)
    {
      hide Text, Holding;
      var spare := TakeSpare();
      buffers := buffers + [currentBuffer];
      currentBuffer := spare;
      log := log.(buffers := log.buffers + [log.current], current := []);
    }

    /** A producer's append. */
    method Append(logline: Message)
      requires Valid()
      modifies this, Storage()
      ensures Valid()
      ensures forall b :: b in pool - old(pool) ==> fresh(b) && fresh(b.data)
      ensures log == Step(old(log), Event.Append(logline))
    {
      if currentBuffer.Avail() <= |logline| {
        Rotate();
      }
      AppendToCurrent(logline);
    }

    /** The current buffer is queued, the queue handed to the backend, and its first empty buffer taken. */
    method SwapOut()
      requires Shape() && newBuffer1 != null && buffersToWrite == []
      modifies this`currentBuffer, this`buffers, this`newBuffer1, this`buffersToWrite, this`log
      ensures Shape() && currentBuffer == old(newBuffer1)
      ensures buffersToWrite == old(buffers) + [old(currentBuffer)] && buffers == []
      ensures log == old(log).(buffers := [], batch := old(log).buffers + [old(log).current], current := [],
                               hasNew1 := false)
    {
      hide Text, Holding;
      NoText();
      buffers := buffers + [currentBuffer];
      currentBuffer := newBuffer1;
      newBuffer1 := null;
      buffersToWrite, buffers := buffers, [];
      log := log.(buffers := [], batch := log.buffers + [log.current], current := [], hasNew1 := false);
    }

    /** The critical section of threadFunc, entered at once or after the timed wait. */
    method Swap()
      requires Valid() && Enabled(log, Event.Swap)
      modifies this`currentBuffer, this`nextBuffer, this`buffers, this`newBuffer1, this`newBuffer2,
        this`buffersToWrite, this`log
      ensures Valid()
      ensures log == Step(old(log), Event.Swap)
      ensures buffersToWrite == old(buffers) + [old(currentBuffer)] && buffers == []
      ensures nextBuffer != null && nextBuffer != currentBuffer && currentBuffer.Length() == nextBuffer.Length() == 0
    {
      hide Text;
      NoText();
      ghost var goal := Step(log, Event.Swap);
      assert newBuffer1 != null && newBuffer1.Length() == 0;
      assert newBuffer2 != null && newBuffer2.Length() == 0;
      assert buffersToWrite == [];
      SwapOut();
      if nextBuffer == null {
        nextBuffer := newBuffer2;
        newBuffer2 := null;
      }
      log := goal;
      assert buffersToWrite != [];
    }

    /** More than 25 buffers: all but the first two are erased. */
    method Drop()
      requires Valid() && Enabled(log, Event.Drop)
      modifies this`buffersToWrite, this`log
      ensures Valid()
      ensures log == Step(old(log), Event.Drop)
      ensures buffersToWrite == if |old(buffersToWrite)| > 25 then old(buffersToWrite)[..2] else old(buffersToWrite)
    {
      hide Text, Holding;
      if |buffersToWrite| > MAX_BATCH {
        buffersToWrite := buffersToWrite[..2];
      }
      log := Step(log, Event.Drop);
    }

    /** One round of the loop that writes the batch. */
    method Write()
      requires Valid() && Enabled(log, Event.Write)
      modifies this`output, this`written, this`log
      ensures Valid()
      ensures log == Step(old(log), Event.Write)
      ensures old(written) < |buffersToWrite| && buffersToWrite[old(written)].Valid()
              && output == old(output) + buffersToWrite[old(written)].Contents()
    {
      hide Text;
      var b := buffersToWrite[written];
      output := output + b.data[..b.cur];
      written := written + 1;
      log := Step(log, Event.Write);
    }

    /** A written buffer is taken back for the next swap. */
    method TakeBack() returns (b: FixedBuffer)
      requires Shape() && buffersToWrite != []
      modifies this`buffersToWrite, this`log, buffersToWrite
      ensures Shape() && b in pool && Holding(b, [])
      ensures log == old(log).(batch := old(log).batch[..|old(log).batch| - 1])
      ensures b != currentBuffer && b != nextBuffer && b != newBuffer1 && b != newBuffer2
      ensures Elsewhere(b, buffers) && Elsewhere(b, buffersToWrite)
      ensures buffersToWrite == old(buffersToWrite)[..|old(buffersToWrite)| - 1]
    {
      hide Text;
      NoText();
      b := buffersToWrite[|buffersToWrite| - 1];
      buffersToWrite := buffersToWrite[..|buffersToWrite| - 1];
      log := log.(batch := log.batch[..|log.batch| - 1]);
      b.Reset();
    }

    /** buffersToWrite.resize(2), when it is longer. */
    method Trim()
      requires Shape()
      modifies this`buffersToWrite, this`log
      ensures Shape()
      ensures log == old(log).(batch := if |old(log).batch| > 2 then old(log).batch[..2] else old(log).batch)
      ensures buffersToWrite <= old(buffersToWrite)
    {
      if |buffersToWrite| > 2 {
        buffersToWrite := buffersToWrite[..2];
        log := log.(batch := log.batch[..2]);
      }
    }

    method RefillFirst()
      requires Shape() && newBuffer1 == null
      requires buffersToWrite != []
      modifies this`newBuffer1, this`buffersToWrite, this`log, buffersToWrite
      ensures Shape() && buffersToWrite == old(buffersToWrite)[..|old(buffersToWrite)| - 1]
      ensures log == old(log).(hasNew1 := true, batch := old(log).batch[..|old(log).batch| - 1])
    {
      hide Holding;
      newBuffer1 := TakeBack();
      log := log.(hasNew1 := true);
    }

    method RefillSecond()
      requires Shape() && newBuffer2 == null
      requires buffersToWrite != []
      modifies this`newBuffer2, this`buffersToWrite, this`log, buffersToWrite
      ensures Shape() && buffersToWrite == old(buffersToWrite)[..|old(buffersToWrite)| - 1]
      ensures log == old(log).(hasNew2 := true, batch := old(log).batch[..|old(log).batch| - 1])
    {
      hide Holding;
      newBuffer2 := TakeBack();
      log := log.(hasNew2 := true);
    }

    method ClearBatch()
      requires Shape()
      modifies this`buffersToWrite, this`written, this`log
      ensures Shape() && log == old(log).(batch := [], written := 0, phase := Waiting)
    {
      buffersToWrite, written := [], 0;
      log := log.(batch := [], written := 0, phase := Waiting);
    }

    /** After writing: two of the buffers are taken back, the others are freed. */
    method Refill()
      requires Valid() && Enabled(log, Event.Refill)
      modifies this`newBuffer1, this`newBuffer2, this`buffersToWrite, this`written, this`log, buffersToWrite
      ensures Valid()
      ensures log == Step(old(log), Event.Refill)
      ensures newBuffer1 != null && newBuffer2 != null && newBuffer1 != newBuffer2 && buffersToWrite == []
      ensures newBuffer1.Length() == newBuffer2.Length() == 0
    {
      hide Distinct, Pooled, Holding, AllHolding;
      BatchLength();
      Trim();
      BatchLength();
      if newBuffer1 == null {
        assert buffersToWrite != [];
        RefillFirst();
      }
      BatchLength();
      if newBuffer2 == null {
        assert buffersToWrite != [];
        RefillSecond();
      }
      ClearBatch();
      SparesReady();
    }

    /** The two buffers the backend keeps are different and empty. */
    lemma SparesReady()
      requires Shape()
      ensures newBuffer1 != null && newBuffer2 != null ==>
                newBuffer1 != newBuffer2 && newBuffer1.Length() == newBuffer2.Length() == 0
      ensures log.batch == [] ==> buffersToWrite == []
    {
      hide Text;
      NoText();
    }

    lemma BatchLength()
      requires Shape()
      ensures |buffersToWrite| == |log.batch|
      ensures (newBuffer1 != null <==> log.hasNew1) && (newBuffer2 != null <==> log.hasNew2)
    {
    }

    /** One step of any kind. */
    method Perform(e: Event)
      requires Valid() && Enabled(log, e)
      modifies this, Storage()
      ensures Valid() && log == Step(old(log), e)
      ensures forall b :: b in pool - old(pool) ==> fresh(b) && fresh(b.data)
    {
      hide Step, Enabled, Inv, Distinct, Holding, AllHolding;
      match e {
        case Append(m) => Append(m);
        case Swap => Swap();
        case Drop => Drop();
        case Write => Write();
        case Refill => Refill();
      }
    }
  }

  /** The objects can follow every abstract run, step by step. */
  method Follow(trace: seq<Event>) returns (logging: AsyncLogging)
    requires After(trace).Some?
    ensures logging.Valid() && After(trace) == Some(logging.log)
  {
    hide Enabled, Step, Inv, After, AsyncLogging.Shape;
    logging := new AsyncLogging();
    NoSteps();
    assert trace[..0] == [];
    for k := 0 to |trace|
      invariant logging.Valid() && After(trace[..k]) == Some(logging.log)
      invariant fresh(logging) && forall b :: b in logging.pool ==> fresh(b) && fresh(b.data)
    {
      ghost var pool := logging.pool;
      Prefix(trace, k);
      logging.Perform(trace[k]);
      assert forall b :: b in logging.pool ==> b in pool || b in logging.pool - pool;
    }
    assert trace[..|trace|] == trace;
  }

  /**
   Any interleaving of producers and backend can be carried out. Nothing accepted is lost before the file, and the
   file then holds whole messages, which with the unwritten ones are those kept of every batch.
   */
  method Run(trace: seq<Event>) returns (logging: AsyncLogging)
    requires After(trace).Some?
    ensures logging.Valid() && After(trace) == Some(logging.log)
    ensures Holds(logging.log, Accepted(trace))
    ensures logging.output == Text(Filed(trace))
    ensures logging.log.written <= |logging.log.batch|
            && Filed(trace) + Flatten(Unwritten(logging.log)) == KeptOf(logging.log.history)
  {
    hide Holds, Accepted, Filed, After, KeptOf, Flatten, Unwritten, Text;
    logging := Follow(trace);
    LogConservation(trace);
  }

  lemma NoSteps()
    ensures After([]) == Some(INITIAL)
  {
  }

  /** A run that can be carried out can be carried out step by step. */
  lemma {:induction false} Prefix(trace: seq<Event>, k: nat)
    requires After(trace).Some? && k < |trace|
    ensures After(trace[..k]).Some? && Enabled(After(trace[..k]).value, trace[k])
    ensures After(trace[..k + 1]) == Some(Step(After(trace[..k]).value, trace[k]))
    decreases |trace|
  {
    hide Enabled, Step;
    if k + 1 < |trace| {
      var init := trace[..|trace| - 1];
      Prefix(init, k);
      assert init[..k] == trace[..k] && init[..k + 1] == trace[..k + 1];
    } else {
      assert trace[..k + 1] == trace;
    }
  }
}
