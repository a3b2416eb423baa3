/**
 The output path of version 3.0: writen() and readn() (version3.0/net/Util.cpp) over a kernel that answers as it
 likes, and the part of HttpData and Channel that decides when the rest of outBuffer_ is sent.
 */
module OutputPath {
  import opened Connection
  import opened CStrings
  import opened Options

  // ---------------------------------------------------------------------- writen and readn

  /** What write(2) can answer; the kernel never takes more than it is offered. */
  datatype Answer = Wrote(n: nat) | Interrupted | WouldBlock | Failed

  datatype Sending = Sending(sent: nat, failed: bool)

  function Min(a: nat, b: nat): nat {
    if a < b then a else b
  }

  /** How many of `left` bytes go out, and whether a write fails. A run out of answers is EAGAIN. */
  function Send(left: nat, answers: seq<Answer>): (r: Sending)
    ensures r.sent <= left
    ensures r.failed ==> left > 0 && Failed in answers
  {
    if left == 0 || answers == [] then Sending(0, false)
    else
      var more := answers[1..];
      match answers[0]
      case Wrote(n) =>
        var k := Min(n, left);
        var r := Send(left - k, more);
        r.(sent := k + r.sent)
      case Interrupted => Send(left, more)
      case WouldBlock => Sending(0, false)
      case Failed => Sending(0, true)
  }

  lemma SendOver(left: nat, answers: seq<Answer>)
    ensures left == 0 || answers == [] ==> Send(left, answers) == Sending(0, false)
  {
  }

  /** One answer of several. */
  lemma SendMore(left: nat, answers: seq<Answer>, next: nat)
    requires left > 0 && next < |answers|
    ensures Send(left, answers[next..]) ==
            match answers[next]
            case Wrote(n) =>
              var k := Min(n, left);
              var r := Send(left - k, answers[next + 1..]);
              r.(sent := k + r.sent)
            case Interrupted => Send(left, answers[next + 1..])
            case WouldBlock => Sending(0, false)
            case Failed => Sending(0, true)
  {
    assert answers[next..][1..] == answers[next + 1..];
  }

  /** The bytes some answers let through together. */
  function Total(answers: seq<Answer>): nat {
    if answers == [] then 0 else (if answers[0].Wrote? then answers[0].n else 0) + Total(answers[1..])
  }

  lemma {:induction false} TotalConcat(a: seq<Answer>, b: seq<Answer>)
    ensures Total(a + b) == Total(a) + Total(b)
    ensures forall n :: Total([Wrote(n)]) == n
    ensures Total([]) == Total([Interrupted]) == Total([WouldBlock]) == Total([Failed]) == 0
    decreases |a|
  {
    forall x: Answer
      ensures Total([x]) == if x.Wrote? then x.n else 0
    {
      assert [x][1..] == [];
    }
    if a == [] {
      assert a + b == b;
    } else {
      TotalConcat(a[1..], b);
      assert (a + b)[1..] == a[1..] + b;
    }
  }

  /** The answers after which writen does not ask again. */
  predicate Stops(answer: Answer) {
    answer.WouldBlock? || answer.Failed?
  }

  /**
   Everything goes out that the answers before the first EAGAIN or error let through, up to what there is; and
   writen fails exactly when an error comes before all is sent.
   */
  lemma {:induction false} SendMeans(left: nat, answers: seq<Answer>, k: nat)
    requires k <= |answers| && (forall i :: 0 <= i < k ==> !Stops(answers[i]))
    requires k < |answers| ==> Stops(answers[k])
    ensures var total := Total(answers[..k]);
            && Send(left, answers).sent == (if total < left then total else left)
            && (Send(left, answers).failed <==> total < left && k < |answers| && answers[k].Failed?)
    decreases k
  {
    if left > 0 && k > 0 {
      var more := answers[1..];
      assert answers[..k][1..] == more[..k - 1];
      match answers[0]
      case Wrote(n) => SendMeans(left - Min(n, left), more, k - 1);
      case Interrupted => SendMeans(left, more, k - 1);
    }
  }

  /** The test that decides whether everything was sent compares with the length as an int. */
  predicate TakenForAll(size: nat, sum: nat) {
    sum == ToInt32(size)
  }

  /** What writen leaves in the buffer when `sum` bytes were sent. */
  function Remaining(buffer: string, sum: nat): string
    requires sum <= |buffer|
  {
    if TakenForAll(|buffer|, sum) then "" else buffer[sum..]
  }

  /** A part of the buffer was sent and taken for the whole. */
  predicate Misjudged(size: nat, sum: nat) {
    sum < size && TakenForAll(size, sum)
  }

  /** Conservation, and exactly when it fails: what was sent and what remains make up the buffer. */
  lemma WritenConserves(buffer: string, sum: nat)
    requires sum <= |buffer|
    ensures buffer[..sum] + Remaining(buffer, sum) == buffer <==> !Misjudged(|buffer|, sum)
    ensures |buffer| < 0x1_0000_0000 ==> !Misjudged(|buffer|, sum)
  {
    if Misjudged(|buffer|, sum) {
      assert |buffer[..sum] + Remaining(buffer, sum)| < |buffer|;
    } else {
      assert buffer[sum..] == Remaining(buffer, sum);
    }
  }

  /** Which lengths can lose bytes at all: the ones whose low 32 bits are a smaller non-negative int. */
  lemma LossySizes(size: nat)
    ensures (exists answers :: !Send(size, answers).failed && Misjudged(size, Send(size, answers).sent))
       <==> size >= 0x1_0000_0000 && size % 0x1_0000_0000 < 0x8000_0000
  {
    if size >= 0x1_0000_0000 && size % 0x1_0000_0000 < 0x8000_0000 {
      var low := size % 0x1_0000_0000;
      var answers := [Wrote(low)];
      assert Send(size - low, answers[1..]) == Sending(0, false);
      assert Send(size, answers) == Sending(low, false);
    }
  }

  /** writen(fd, sbuff): the result, the new buffer and the bytes handed to the socket. */
  method Writen(sbuff: string, answers: seq<Answer>) returns (result: int, buffer: string, wire: string)
    ensures var r := Send(|sbuff|, answers);
            && wire == sbuff[..r.sent]
            && (r.failed ==> result == -1 && buffer == sbuff)
            && (!r.failed ==> result == r.sent && buffer == Remaining(sbuff, r.sent))
  {
    var nleft, writeSum, ptr, next := |sbuff|, 0, 0, 0;
    buffer, wire := sbuff, "";
    hide ToInt32, Send;
    assert answers[0..] == answers;
    while nleft > 0
      invariant 0 <= nleft && 0 <= next <= |answers| && ptr == writeSum == |sbuff| - nleft
      invariant buffer == sbuff && wire == sbuff[..ptr]
      invariant var r := Send(nleft, answers[next..]);
                Send(|sbuff|, answers) == Sending(writeSum + r.sent, r.failed)
      decreases |answers| - next
    {
      if next == |answers| { break; }
      SendMore(nleft, answers, next);
      var answer := answers[next];
      next := next + 1;
      match answer {
        case Interrupted => continue;
        case WouldBlock => break;
        case Failed => return -1, sbuff, wire;
        case Wrote(n) =>
          var nwritten := if n < nleft then n else nleft;
          wire := wire + sbuff[ptr..ptr + nwritten];
          writeSum := writeSum + nwritten;
          nleft := nleft - nwritten;
          ptr := ptr + nwritten;
      }
    }
    SendOver(nleft, answers[next..]);
    if writeSum == ToInt32(|sbuff|) {
      buffer := "";
    } else {
      buffer := sbuff[writeSum..];
    }
    result := writeSum;
  }

  /** What read(2) can answer; no bytes is the end of the input. */
  datatype Input = Got(data: string) | ReadInterrupted | ReadWouldBlock | ReadFailed

  function Data(inputs: seq<Input>): string {
    if inputs == [] then ""
    else Data(inputs[..|inputs| - 1]) + match inputs[|inputs| - 1] case Got(data) => data case _ => ""
  }

  /** What answers deliver, one by one: the bytes of each, in order, and nothing else. */
  lemma DataOne(input: Input)
    ensures Data([]) == "" && Data([input]) == if input.Got? then input.data else ""
  {
    assert [input][..0] == [];
  }

  lemma DataLast(inputs: seq<Input>, input: Input)
    ensures Data(inputs + [input]) == Data(inputs) + Data([input])
  {
    DataOne(input);
    assert (inputs + [input])[..|inputs|] == inputs;
  }

  lemma {:induction false} DataConcat(a: seq<Input>, b: seq<Input>)
    ensures Data(a + b) == Data(a) + Data(b)
    decreases |b|
  {
    hide Data;
    if b == [] {
      DataNone();
      assert a + b == a;
    } else {
      var k := |b| - 1;
      DataConcat(a, b[..k]);
      DataLast(a + b[..k], b[k]);
      DataLast(b[..k], b[k]);
      assert a + b == a + b[..k] + [b[k]] && b == b[..k] + [b[k]];
    }
  }

  lemma DataNone()
    ensures Data([]) == ""
  {
  }

  /** Every chunk lies behind the chunks before it. */
  lemma ChunkLies(inputs: seq<Input>, i: nat)
    requires i < |inputs| && inputs[i].Got?
    ensures var at := |Data(inputs[..i])|;
            at + |inputs[i].data| <= |Data(inputs)| && Data(inputs)[at..at + |inputs[i].data|] == inputs[i].data
  {
    hide Data;
    var before, x, after := inputs[..i], inputs[i], inputs[i + 1..];
    DataOne(x);
    DataConcat(before, [x]);
    DataConcat(before + [x], after);
    SplitAt(inputs, i);
    MiddleLies(Data(before), x.data, Data(after));
  }

  lemma SplitAt(inputs: seq<Input>, i: nat)
    requires i < |inputs|
    ensures inputs == inputs[..i] + [inputs[i]] + inputs[i + 1..]
  {
  }

  lemma MiddleLies(a: string, d: string, b: string)
    ensures (a + d + b)[|a|..|a| + |d|] == d
  {
  }

  /** The answers after which readn asks again. */
  predicate GoesOn(input: Input) {
    input.ReadInterrupted? || (input.Got? && input.data != "")
  }

  /** readn(fd, inBuffer, zero), and how many answers it took; a run out of answers is EAGAIN. */
  method ReadN(buffer: string, inputs: seq<Input>)
    returns (result: int, inBuffer: string, zero: bool, taken: nat)
    ensures taken <= |inputs| && inBuffer == buffer + Data(inputs[..taken])
    ensures forall i :: 0 <= i < taken - 1 ==> GoesOn(inputs[i])
    ensures taken < |inputs| ==> taken > 0 && !GoesOn(inputs[taken - 1])
    ensures zero <==> taken > 0 && inputs[taken - 1] == Got("")
    ensures result == if taken > 0 && inputs[taken - 1] == ReadFailed then -1 else |Data(inputs[..taken])|
  {
    var readSum := 0;
    inBuffer, zero, taken := buffer, false, 0;
    while taken < |inputs|
      invariant 0 <= taken <= |inputs| && !zero
      invariant inBuffer == buffer + Data(inputs[..taken]) && readSum == |Data(inputs[..taken])|
      invariant forall i :: 0 <= i < taken ==> GoesOn(inputs[i])
    {
      var input := inputs[taken];
      taken := taken + 1;
      assert inputs[..taken][..taken - 1] == inputs[..taken - 1];
      match input {
        case ReadInterrupted => continue;
        case ReadWouldBlock => return readSum, inBuffer, zero, taken;
        case ReadFailed => return -1, inBuffer, zero, taken;
        case Got(data) =>
          if data == "" {
            zero := true;
            break;
          }
          readSum := readSum + |data|;
          inBuffer := inBuffer + data;
      }
    }
    result := readSum;
  }

  // ---------------------------------------------------------------------- a connection and its dispatches

  /** Waiting in epoll; called by Channel::handleEvents; after its first handler. */
  datatype Phase = Waiting | Called | Served

  datatype State = State(
    phase: Phase,
    connection: ConnectionState,
    error: bool,
    out: string,         // outBuffer_
    events: Events,      // events_ of the channel
    registered: Events,  // lastEvents_, what epoll was told
    armed: bool,         // whether epoll still reports it: EPOLLONESHOT lasts for one report
    sent: string,        // what has left through handleWrite
    appended: string)    // everything ever appended to outBuffer_

  /** After newEvent(). */
  const INITIAL: State := State(Waiting, Connected, false, "", DEFAULT_EVENT, DEFAULT_EVENT, true, "", "")

  /** What the rest of handleRead makes of the input. */
  datatype Outcome = Incomplete | Bad | Finished(produced: string)

  /** The result of readn, and the outcome. */
  datatype Reading = Reading(failed: bool, zero: bool, bytes: nat, outcome: Outcome)

  datatype Event =
    | Dispatch                                    // epoll reports the channel
    | Read(reading: Reading, readAnswers: seq<Answer>)   // handleRead
    | Write(answers: seq<Answer>)                 // handleWrite, on EPOLLOUT
    | Settle                                      // handleConn
    | Abort                                       // EPOLLHUP or EPOLLERR: handleEvents returns at once
    | Expire                                      // the timer closes the connection

  predicate Enabled(s: State, e: Event) {
    && s.connection != Disconnected
    && match e
       case Dispatch => s.phase == Waiting && s.armed
       case Read(_, _) => s.phase != Waiting && !s.error
       case Write(_) => s.phase != Waiting
       case Settle => s.phase == Served
       case Abort => s.phase == Called
       case Expire => s.phase == Waiting
  }

  /** handleWrite() */
  function Flushed(s: State, answers: seq<Answer>): State {
    if s.error || s.connection == Disconnected then s
    else
      var r := Send(|s.out|, answers);
      var sent := s.sent + s.out[..r.sent];
      if r.failed then s.(sent := sent, events := NO_EVENTS.(output := s.out != ""), error := true)
      else
        var left := Remaining(s.out, r.sent);
        s.(sent := sent, out := left, events := s.events.(output := s.events.output || left != ""))
  }

  /** The part of handleRead before its last block: what is read and what it leads to. */
  function Consumed(s: State, r: Reading): State {
    if s.connection == Disconnecting then s
    else if r.failed then s.(error := true)
    else
      var t := if r.zero then s.(connection := Disconnecting) else s;
      if r.zero && r.bytes == 0 then t
      else
        match r.outcome
        case Incomplete => t
        case Bad => t.(error := true)
        case Finished(produced) => t.(out := t.out + produced, appended := t.appended + produced)
  }

  /** Whether this call of handleRead ends with a request answered. */
  predicate Answered(s: State, r: Reading) {
    s.connection != Disconnecting && !r.failed && !(r.zero && r.bytes == 0) && r.outcome.Finished?
  }

  /** handleRead(), without the call it makes to itself: that is a further Read. */
  function AfterRead(s: State, r: Reading, answers: seq<Answer>): State {
    var t := Consumed(s, r);
    if t.error then t
    else
      var u := if t.out != "" then Flushed(t, answers) else t;
      if !u.error && !Answered(s, r) then u.(events := u.events.(input := true)) else u
  }

  /** handleConn(); modfd tells epoll only about a mask that has changed. */
  function Settled(s: State): State {
    match Conclude(s.error, s.connection, s.events)
    case Watch(events) => s.(events := events, registered := events, armed := s.armed || events != s.registered)
    case SetOnly(events) => s.(events := events)
    case Close => Closed(s)
  }

  /** handleClose() */
  function Closed(s: State): State {
    s.(connection := Disconnected, armed := false)
  }

  function Step(s: State, e: Event): State
    requires Enabled(s, e)
  {
    match e
    case Dispatch => s.(phase := Called, events := NO_EVENTS, armed := !s.registered.oneShot)
    case Read(r, answers) => AfterRead(s, r, answers).(phase := Served)
    case Write(answers) => Flushed(s, answers).(phase := Served)
    case Settle => Settled(s).(phase := Waiting)
    case Abort => s.(phase := Waiting, events := NO_EVENTS)
    case Expire => Closed(s)
  }

  function After(trace: seq<Event>): Option<State> {
    if trace == [] then Some(INITIAL)
    else
      var k := |trace| - 1;
      var s := After(trace[..k]);
      if s.Some? && Enabled(s.value, trace[k]) then Some(Step(s.value, trace[k])) else None
  }

  // ---------------------------------------------------------------------- nothing is lost

  /** The step sends part of the buffer and forgets the rest. */
  predicate Forgets(s: State, e: Event) {
    && Enabled(s, e) && !s.error
    && match e
       case Read(r, answers) =>
         var t := Consumed(s, r);
         !t.error && t.out != "" && !Send(|t.out|, answers).failed && Misjudged(|t.out|, Send(|t.out|, answers).sent)
       case Write(answers) =>
         !Send(|s.out|, answers).failed && Misjudged(|s.out|, Send(|s.out|, answers).sent)
       case _ => false
  }

  predicate EverForgets(trace: seq<Event>) {
    exists i :: 0 <= i < |trace| && After(trace[..i]).Some? && Forgets(After(trace[..i]).value, trace[i])
  }

  /** The bytes sent are the first ones appended, and without an error the buffer holds the others. */
  predicate Conserved(s: State) {
    && s.sent <= s.appended
    && (!s.error ==> s.sent + s.out == s.appended)
  }

  lemma FlushConserves(s: State, answers: seq<Answer>)
    requires !s.error && Conserved(s)
    requires Send(|s.out|, answers).failed || !Misjudged(|s.out|, Send(|s.out|, answers).sent)
    ensures Conserved(Flushed(s, answers))
  {
    var r := Send(|s.out|, answers);
    WritenConserves(s.out, r.sent);
    assert s.appended == s.sent + s.out[..r.sent] + s.out[r.sent..];
  }

  /** Conservation is about four fields. */
  lemma SameConserves(s: State, t: State)
    requires Conserved(s)
    requires t.sent == s.sent && t.out == s.out && t.appended == s.appended && (s.error ==> t.error)
    ensures Conserved(t)
  {
  }

  lemma ConsumeConserves(s: State, r: Reading)
    requires Conserved(s) && !s.error
    ensures Conserved(Consumed(s, r))
  {
    if Answered(s, r) {
      assert s.sent + (s.out + r.outcome.produced) == s.sent + s.out + r.outcome.produced;
    }
  }

  lemma {:induction false} StepConserves(s: State, e: Event)
    requires Enabled(s, e) && Conserved(s) && !Forgets(s, e)
    ensures Conserved(Step(s, e))
  {
    hide Conserved, Flushed, Consumed, Send, Misjudged;
    match e
    case Read(r, answers) =>
      var t := Consumed(s, r);
      ConsumeConserves(s, r);
      if !t.error && t.out != "" {
        FlushConserves(t, answers);
        SameConserves(Flushed(t, answers), Step(s, e));
      } else {
        SameConserves(t, Step(s, e));
      }
    case Write(answers) =>
      if s.error {
        FlushIdle(s, answers);
        SameConserves(s, Step(s, e));
      } else {
        FlushConserves(s, answers);
        SameConserves(Flushed(s, answers), Step(s, e));
      }
    case _ => SameConserves(s, Step(s, e));
  }

  /** The last step of a run, and what it means for EverForgets. */
  lemma LastStep(trace: seq<Event>)
    requires trace != [] && After(trace).Some?
    ensures var init, e := trace[..|trace| - 1], trace[|trace| - 1];
            && After(init).Some? && Enabled(After(init).value, e) && After(trace) == Some(Step(After(init).value, e))
            && (EverForgets(trace) <==> EverForgets(init) || Forgets(After(init).value, e))
  {
    hide Forgets, Enabled, Step;
    var init := trace[..|trace| - 1];
    assert forall i :: 0 <= i < |init| ==> init[..i] == trace[..i];
  }

  /** Output conservation: over every run without a misjudged length, whatever the kernel answers. */
  lemma {:induction false} OutputConservation(trace: seq<Event>)
    requires After(trace).Some? && !EverForgets(trace)
    ensures Conserved(After(trace).value)
  {
    if trace != [] {
      hide EverForgets, Forgets, Step, Enabled, Conserved;
      var k := |trace| - 1;
      LastStep(trace);
      OutputConservation(trace[..k]);
      StepConserves(After(trace[..k]).value, trace[k]);
    } else {
      assert Conserved(INITIAL);
    }
  }

  /** How many of the bytes appended are neither sent nor in the buffer. */
  function Lost(s: State): int {
    |s.appended| - |s.sent| - |s.out|
  }

  /** A step loses bytes for good exactly if it forgets them. */
  lemma StepLoses(s: State, e: Event)
    requires Enabled(s, e) && !Step(s, e).error
    ensures !s.error && Lost(Step(s, e)) >= Lost(s)
    ensures Lost(Step(s, e)) > Lost(s) <==> Forgets(s, e)
  {
    hide Flushed, AfterRead, Misjudged, Send;
    match e
    case Read(r, answers) => ReadLoses(s, r, answers);
    case Write(answers) => FlushLoses(s, answers);
    case _ =>
  }

  lemma ReadLoses(s: State, r: Reading, answers: seq<Answer>)
    requires !s.error && s.connection != Disconnected
    ensures var c, t := Consumed(s, r), AfterRead(s, r, answers);
            !t.error ==>
            && !c.error && Lost(t) >= Lost(s)
            && (Lost(t) > Lost(s) <==>
                  c.out != "" && !Send(|c.out|, answers).failed
                  && Misjudged(|c.out|, Send(|c.out|, answers).sent))
  {
    hide Flushed, Misjudged, Send;
    var c := Consumed(s, r);
    assert Lost(c) == Lost(s);
    FlushLoses(c, answers);
  }

  lemma FlushLoses(s: State, answers: seq<Answer>)
    requires s.connection != Disconnected
    ensures var t, r := Flushed(s, answers), Send(|s.out|, answers);
            && t.appended == s.appended
            && (s.error || r.failed ==> t.error)
            && (!s.error && !r.failed ==>
                  Lost(t) >= Lost(s) && (Lost(t) > Lost(s) <==> Misjudged(|s.out|, r.sent)))
  {
    hide Send, ToInt32;
  }

  lemma {:induction false} LostIffForgets(trace: seq<Event>)
    requires After(trace).Some? && !After(trace).value.error
    ensures var s := After(trace).value;
            Lost(s) >= 0 && (Lost(s) > 0 <==> EverForgets(trace))
  {
    if trace != [] {
      hide EverForgets, Forgets, Step, Enabled, Lost;
      var k := |trace| - 1;
      LastStep(trace);
      StepLoses(After(trace[..k]).value, trace[k]);
      LostIffForgets(trace[..k]);
    }
  }

  /** As long as there is no error, a run conserves the output if and only if it has never misjudged a length. */
  lemma {:induction false} ConservedIffNeverForgets(trace: seq<Event>)
    requires After(trace).Some? && !After(trace).value.error
    ensures var s := After(trace).value;
            s.sent + s.out == s.appended <==> !EverForgets(trace)
  {
    hide EverForgets, After;
    LostIffForgets(trace);
    if !EverForgets(trace) {
      OutputConservation(trace);
    }
  }

  /** No run that appends less than 4 GiB misjudges a length. */
  lemma {:induction false} SmallRunsNeverForget(trace: seq<Event>)
    requires After(trace).Some? && |After(trace).value.appended| < 0x1_0000_0000
    ensures !EverForgets(trace)
  {
    hide EverForgets, Forgets, Step, Enabled, Conserved;
    if trace != [] {
      var k := |trace| - 1;
      var s := After(trace[..k]).value;
      LastStep(trace);
      StepAppends(s, trace[k]);
      assert |s.appended| < 0x1_0000_0000;
      SmallRunsNeverForget(trace[..k]);
      OutputConservation(trace[..k]);
      SmallStepKeeps(s, trace[k]);
    } else {
      NothingForgotten();
    }
  }

  lemma NothingForgotten()
    ensures !EverForgets([])
  {
  }

  lemma StepAppends(s: State, e: Event)
    requires Enabled(s, e)
    ensures |s.appended| <= |Step(s, e).appended|
  {
    hide Flushed, Conclude;
    match e
    case Read(r, answers) => FlushLoses(Consumed(s, r), answers);
    case Write(answers) => FlushLoses(s, answers);
    case _ =>
  }

  lemma SmallStepKeeps(s: State, e: Event)
    requires Enabled(s, e) && Conserved(s)
    ensures |Step(s, e).appended| < 0x1_0000_0000 ==> !Forgets(s, e)
  {
    hide Send, Remaining, Misjudged;
    match e
    case Read(r, answers) =>
      var t := Consumed(s, r);
      assert |t.out| <= |t.appended| == |Step(s, e).appended|;
      SmallIsNotMisjudged(|t.out|, Send(|t.out|, answers).sent);
    case Write(answers) =>
      assert |s.out| <= |s.appended| || s.error;
      SmallIsNotMisjudged(|s.out|, Send(|s.out|, answers).sent);
    case _ =>
  }

  lemma SmallIsNotMisjudged(size: nat, sum: nat)
    ensures size < 0x1_0000_0000 ==> !Misjudged(size, sum)
  {
  }

  // ---------------------------------------------------------------------- what the handlers decide

  /** The peer has stopped sending in the course of the run. */
  ghost predicate HasHungUp(trace: seq<Event>) {
    exists j :: 0 <= j < |trace| && trace[j].Read? && !trace[j].reading.failed && trace[j].reading.zero
  }

  /** A reading that ends with a reply. */
  predicate Replies(r: Reading) {
    !r.failed && !(r.zero && r.bytes == 0) && r.outcome.Finished?
  }

  /** The replies of a run, in order; nothing is read after the peer has stopped sending. */
  ghost function AllReplies(trace: seq<Event>): string {
    if trace == [] then ""
    else
      var init, e := trace[..|trace| - 1], trace[|trace| - 1];
      AllReplies(init)
      + if e.Read? && !HasHungUp(init) && Replies(e.reading) then e.reading.outcome.produced else ""
  }

  lemma HungUpLast(trace: seq<Event>)
    requires trace != []
    ensures var init, e := trace[..|trace| - 1], trace[|trace| - 1];
            HasHungUp(trace) <==> HasHungUp(init) || (e.Read? && !e.reading.failed && e.reading.zero)
  {
    var init := trace[..|trace| - 1];
    assert forall j :: 0 <= j < |init| ==> init[j] == trace[j];
  }

  /** What a run has appended is every reply, once and in order. */
  lemma {:induction false} AppendedIsReplies(trace: seq<Event>)
    requires After(trace).Some?
    ensures After(trace).value.appended == AllReplies(trace)
    ensures After(trace).value.connection != Disconnected ==>
              (After(trace).value.connection == Disconnecting <==> HasHungUp(trace))
  {
    hide HasHungUp, Flushed, AfterRead, Settled;
    if trace != [] {
      var k := |trace| - 1;
      var s, e := After(trace[..k]).value, trace[k];
      AppendedIsReplies(trace[..k]);
      HungUpLast(trace);
      match e
      case Read(r, answers) => ReadAppends(s, r, answers);
      case Write(answers) => FlushAppendsNothing(s, answers);
      case Settle => SettleKeepsPeer(s);
      case _ =>
    } else {
      NoneHungUp();
    }
  }

  lemma NoneHungUp()
    ensures !HasHungUp([])
  {
  }

  lemma FlushAppendsNothing(s: State, answers: seq<Answer>)
    ensures Flushed(s, answers).appended == s.appended && Flushed(s, answers).connection == s.connection
  {
    hide Send, Remaining;
  }

  lemma ReadAppends(s: State, r: Reading, answers: seq<Answer>)
    requires !s.error && s.connection != Disconnected
    ensures var t := AfterRead(s, r, answers);
            && t.appended
               == s.appended + (if s.connection == Connected && Replies(r) then r.outcome.produced else "")
            && t.connection != Disconnected
            && (t.connection == Disconnecting <==> s.connection == Disconnecting || (!r.failed && r.zero))
  {
    hide Flushed;
    FlushAppendsNothing(Consumed(s, r), answers);
  }

  lemma SettleKeepsPeer(s: State)
    requires s.connection != Disconnected
    ensures Settled(s).appended == s.appended
    ensures Settled(s).connection == Disconnected || Settled(s).connection == s.connection
  {
  }

  /** handleConn closes a connection exactly after an error, or when its peer has stopped sending and it is done. */
  lemma SettleClosesIff(s: State)
    requires Enabled(s, Settle)
    ensures Step(s, Settle).connection == Disconnected
            <==> s.error || (s.connection == Disconnecting && !s.events.output)
  {
    ConcludeMeans(s.error, s.connection, s.events);
  }

  /** What a write sends, and what it leaves. */
  lemma WriteSends(s: State, answers: seq<Answer>)
    requires !s.error && s.connection != Disconnected
    ensures var t, r := Flushed(s, answers), Send(|s.out|, answers);
            && t.sent == s.sent + s.out[..r.sent]
            && (r.failed ==> t.out == s.out)
            && (!r.failed && !Misjudged(|s.out|, r.sent) ==> t.out == s.out[r.sent..])
  {
    hide Send, ToInt32;
  }

  lemma FlushFails(s: State, answers: seq<Answer>)
    requires !s.error && s.connection != Disconnected
    ensures Flushed(s, answers).error == Send(|s.out|, answers).failed
    ensures Flushed(s, answers).events.input ==> s.events.input
  {
    hide Send, Remaining;
  }

  /** A reading that ends with an error page. */
  predicate IsBad(r: Reading) {
    r.failed || (!(r.zero && r.bytes == 0) && r.outcome.Bad?)
  }

  /**
   handleRead on a connection that is up, and then handleConn: when there is an error, when the connection is closed
   or half closed, when input is asked for, and what is appended.
   */
  lemma ReadThenSettle(s: State, r: Reading, answers: seq<Answer>)
    requires Enabled(s, Read(r, answers)) && s.connection == Connected
    ensures var t := Step(s, Read(r, answers));
            var out := s.out + if Replies(r) then r.outcome.produced else "";
            && (t.error <==> IsBad(r) || (out != "" && Send(|out|, answers).failed))
            && t.appended == s.appended + (if Replies(r) then r.outcome.produced else "")
            && (!IsBad(r) ==> t.sent == s.sent + out[..Send(|out|, answers).sent])
            && (!r.failed ==> (t.connection == Disconnecting <==> r.zero))
            && (!t.error && !Replies(r) ==> t.events.input)
            && Enabled(t, Settle)
            && (Step(t, Settle).connection == Disconnected <==> t.error || (r.zero && !t.events.output))
  {
    hide Flushed, Settled;
    var c := Consumed(s, r);
    if !c.error {
      WriteSends(c, answers);
      FlushRequests(c, answers);
      FlushFails(c, answers);
    }
    SettleClosesIff(Step(s, Read(r, answers)));
    ReadAppends(s, r, answers);
  }

  /** After the peer has stopped sending, a read only sends what is left. */
  lemma ReadAfterHangUp(s: State, r: Reading, answers: seq<Answer>)
    requires Enabled(s, Read(r, answers)) && s.connection == Disconnecting
    ensures var t := Step(s, Read(r, answers));
            t.appended == s.appended && (t.error <==> s.out != "" && Send(|s.out|, answers).failed)
  {
    hide Send, Remaining;
  }

  /** A client that simply closes is closed. */
  lemma ClosingClientIsClosed()
    ensures var trace := [Dispatch, Read(Reading(false, true, 0, Incomplete), []), Settle];
            After(trace).Some? && After(trace).value.connection == Disconnected
  {
    var read := Read(Reading(false, true, 0, Incomplete), []);
    assert After([]) == Some(INITIAL);
    AfterMore([], Dispatch);
    AfterMore([Dispatch], read);
    AfterMore([Dispatch, read], Settle);
    assert [] + [Dispatch] == [Dispatch] && [Dispatch] + [read] == [Dispatch, read];
    assert [Dispatch, read] + [Settle] == [Dispatch, read, Settle];
  }

  // ---------------------------------------------------------------------- what waits is asked for

  predicate Asks(events: Events) {
    events.input || events.output
  }

  /** Only the registration of newEvent is for one report. */
  predicate Registered(s: State) {
    && (s.phase != Waiting ==> !s.events.edge && !s.events.oneShot)
    && Asks(s.registered) && (s.registered.oneShot ==> s.registered == DEFAULT_EVENT)
    && (s.connection != Disconnected && !s.armed ==> s.registered.oneShot)
    && (s.phase != Waiting && s.registered.oneShot ==> !s.armed)
  }

  /** While epoll waits on a connection, output that is left has been registered; a handler in between requests it. */
  predicate OutputAwaited(s: State) {
    && (s.connection == Disconnected ==> s.phase == Waiting)
    && (s.error ==> s.phase == Served || s.connection == Disconnected)
    && (s.phase == Served && !s.error && s.out != "" ==> s.events.output)
    && (s.phase != Served && s.connection == Connected && s.out != "" ==> s.registered.output)
  }

  /** A handler requests output for what it leaves, and changes no registration. */
  predicate Requests(s: State, t: State) {
    && t.registered == s.registered && t.armed == s.armed
    && (t.connection == Disconnected <==> s.connection == Disconnected)
    && (t.events.edge ==> s.events.edge) && (t.events.oneShot ==> s.events.oneShot)
    && (!t.error && t.out != "" ==> t.events.output)
  }

  lemma FlushRequests(s: State, answers: seq<Answer>)
    requires !s.error && s.connection != Disconnected
    ensures Requests(s, Flushed(s, answers)) && Flushed(s, answers).connection == s.connection
  {
    hide Send, Remaining;
  }

  lemma ReadRequests(s: State, r: Reading, answers: seq<Answer>)
    requires !s.error && s.connection != Disconnected
    ensures Requests(s, AfterRead(s, r, answers))
  {
    hide Flushed;
    var t := Consumed(s, r);
    if !t.error {
      FlushRequests(t, answers);
    }
  }

  lemma StepKeepsAwaited(s: State, e: Event)
    requires Registered(s) && OutputAwaited(s) && Enabled(s, e)
    ensures Registered(Step(s, e)) && OutputAwaited(Step(s, e))
  {
    hide Flushed, AfterRead;
    match e
    case Read(r, answers) => ReadRequests(s, r, answers);
    case Write(answers) =>
      if s.error {
        FlushIdle(s, answers);
      } else {
        FlushRequests(s, answers);
      }
    case _ =>
  }

  /** After an error nothing is written. */
  lemma FlushIdle(s: State, answers: seq<Answer>)
    requires s.error
    ensures Flushed(s, answers) == s
  {
  }

  /**
   In every run, a connection that epoll waits on and whose peer still sends is without error and registered for
   something; and whenever bytes are left it is registered for output, and epoll will report it.
   */
  lemma {:induction false} PendingOutputIsRegistered(trace: seq<Event>)
    requires After(trace).Some?
    ensures var s := After(trace).value;
            && Registered(s) && OutputAwaited(s)
            && (s.phase == Waiting && s.connection == Connected
                ==> !s.error && Asks(s.registered) && (s.out != "" ==> s.registered.output && s.armed))
  {
    if trace != [] {
      hide Step, Enabled;
      var k := |trace| - 1;
      PendingOutputIsRegistered(trace[..k]);
      StepKeepsAwaited(After(trace[..k]).value, trace[k]);
    }
  }

  /** The runs after which the registration of newEvent is still the one in force. */
  predicate OnlyOneShot(trace: seq<Event>, s: State) {
    || (trace == [] && s == INITIAL)
    || (trace == [Dispatch] && s.phase == Called && !s.armed)
    || (trace == [Dispatch, Abort] && s.phase == Waiting && !s.armed)
  }

  lemma {:induction false} OneShotRuns(trace: seq<Event>)
    requires After(trace).Some?
    ensures var s := After(trace).value;
            s.registered.oneShot && s.connection == Connected && s.phase != Served ==> OnlyOneShot(trace, s)
  {
    hide AfterRead, Flushed;
    if trace != [] {
      var k := |trace| - 1;
      assert trace == trace[..k] + [trace[k]];
      OneShotRuns(trace[..k]);
      PendingOutputIsRegistered(trace[..k]);
    }
  }

  /**
   A connected connection that waits is deaf in one run only: the one whose first report was EPOLLHUP or EPOLLERR,
   because handleEvents then returns without the handlers and the descriptor stays disarmed.
   */
  lemma DeafIff(trace: seq<Event>)
    requires After(trace).Some?
    requires After(trace).value.phase == Waiting && After(trace).value.connection == Connected
    ensures !After(trace).value.armed <==> trace == [Dispatch, Abort]
  {
    PendingOutputIsRegistered(trace);
    OneShotRuns(trace);
    if trace == [Dispatch, Abort] {
      assert After([]) == Some(INITIAL);
      assert trace[..1] == [Dispatch] && [Dispatch][..0] == [];
    }
  }

  /** That run exists. */
  lemma FirstReportCanDeafen()
    ensures var s := After([Dispatch, Abort]);
            && s.Some? && s.value.phase == Waiting && s.value.connection == Connected && !s.value.error
            && !s.value.armed
  {
    assert After([]) == Some(INITIAL);
    AfterMore([], Dispatch);
    AfterMore([Dispatch], Abort);
    assert [] + [Dispatch] == [Dispatch] && [Dispatch] + [Abort] == [Dispatch, Abort];
  }

  /**
   The same is not true of a connection whose peer has stopped sending: handleConn sets its mask but does not pass
   it to epoll. With bytes left, epoll reports output after handleConn exactly if the connection is still connected
   or output was registered before.
   */
  lemma {:induction false} RegisteredAfterSettle(trace: seq<Event>)
    requires After(trace).Some? && Enabled(After(trace).value, Settle)
    requires !After(trace).value.error && After(trace).value.out != ""
    ensures var s := After(trace).value;
            var t := Step(s, Settle);
            && t.connection != Disconnected && t.events.output
            && (t.armed && t.registered.output <==> s.connection == Connected || s.registered.output)
  {
    PendingOutputIsRegistered(trace);
  }

  /** A run in which the reply to a half-closed connection waits for an event that epoll will never report. */
  lemma HalfClosedWaits()
    ensures var trace := [Dispatch, Read(Reading(false, true, 1, Finished("reply")), []), Settle];
            && After(trace).Some?
            && var s := After(trace).value;
               && s.phase == Waiting && s.connection == Disconnecting && s.out == "reply"
               && !s.armed && !s.registered.output
  {
    var read := Read(Reading(false, true, 1, Finished("reply")), []);
    var s1 := Step(INITIAL, Dispatch);
    var s2 := Step(s1, read);
    assert Remaining("reply", 0) == "reply";
    assert After([]) == Some(INITIAL);
    assert [Dispatch][..0] == [] && After([Dispatch]) == Some(s1);
    assert [Dispatch, read][..1] == [Dispatch] && After([Dispatch, read]) == Some(s2);
    assert [Dispatch, read, Settle][..2] == [Dispatch, read];
  }

  // ---------------------------------------------------------------------- the object

  /** One more step of a run. */
  lemma AfterMore(trace: seq<Event>, e: Event)
    requires After(trace).Some? && Enabled(After(trace).value, e)
    ensures After(trace + [e]) == Some(Step(After(trace).value, e))
  {
    assert (trace + [e])[..|trace|] == trace;
  }

  class HttpData {
    var outBuffer: string
    var error: bool
    var connection: ConnectionState
    var events: Events
    var registered: Events
    var armed: bool
    var phase: Phase

    ghost var sent: string
    ghost var appended: string
    ghost var trace: seq<Event>  // what has happened to the connection so far

    ghost function Now(): State
      reads this
    {
      State(phase, connection, error, outBuffer, events, registered, armed, sent, appended)
    }

    /** The object is where its history leads; the run theorems say what that means. */
    ghost predicate Valid()
      reads this
    {
      After(trace) == Some(Now())
    }

    /** A connection after newEvent(). */
    constructor ()
      ensures Valid() && trace == []
    {
      outBuffer, error, connection, phase := "", false, Connected, Waiting;
      events, registered, armed := DEFAULT_EVENT, DEFAULT_EVENT, true;
      sent, appended, trace := "", "", [];
    }

    /** poll() reports the channel: its mask is cleared. */
    method Report()
      requires Valid() && Enabled(Now(), Dispatch)
      modifies this
      ensures Valid() && trace == old(trace) + [Dispatch]
      ensures events == Events(false, false, false, false) && (armed <==> !old(registered.oneShot))
      ensures registered == old(registered) && outBuffer == old(outBuffer)
    {
      hide After;
      AfterMore(trace, Dispatch);
      phase, events, armed := Called, NO_EVENTS, !registered.oneShot;
      trace := trace + [Dispatch];
    }

    /** The body of handleWrite. */
    method Flush(answers: seq<Answer>)
      modifies this
      ensures Now() == Flushed(old(Now()), answers) && trace == old(trace)
    {
      if !error && connection != Disconnected {
        var n, left, wire := Writen(outBuffer, answers);
        sent := sent + wire;
        outBuffer := left;
        if n < 0 {
          events := NO_EVENTS;
          error := true;
        }
        if |outBuffer| > 0 {
          events := events.(output := true);
        }
      }
    }

    /** handleWrite(), called for EPOLLOUT: while bytes are left, output is requested. */
    method HandleWrite(answers: seq<Answer>)
      requires Valid() && Enabled(Now(), Write(answers))
      modifies this
      ensures Valid() && trace == old(trace) + [Write(answers)]
      ensures !error && outBuffer != "" ==> events.output
      ensures !old(error) ==> sent == old(sent) + old(outBuffer)[..Send(|old(outBuffer)|, answers).sent]
    {
      hide After, Flushed;
      if !error {
        WriteSends(Now(), answers);
      }
      AfterMore(trace, Write(answers));
      Flush(answers);
      phase := Served;
      trace := trace + [Write(answers)];
      PendingOutputIsRegistered(trace);
    }

    /**
     The do-block of handleRead; the answer is whether a request was finished. A reply goes behind what is in the
     buffer, and nothing that was appended is lost.
     */
    method Consume(r: Reading) returns (finished: bool)
      requires connection != Disconnected
      modifies this
      ensures Now() == Consumed(old(Now()), r) && trace == old(trace)
      ensures connection != Disconnected && finished == Answered(old(Now()), r)
      ensures finished ==> outBuffer == old(outBuffer) + r.outcome.produced
      ensures old(Conserved(Now())) ==> Conserved(Now())
    {
      finished := false;
      if connection == Disconnecting { return; }
      if r.failed {
        error := true;
        return;
      }
      if r.zero {
        connection := Disconnecting;
        if r.bytes == 0 { return; }
      }
      match r.outcome {
        case Incomplete =>
        case Bad => error := true;
        case Finished(produced) =>
          assert sent + (outBuffer + produced) == (sent + outBuffer) + produced;
          outBuffer := outBuffer + produced;
          appended := appended + produced;
          finished := true;
      }
    }

    /** handleRead(): while bytes are left, output is requested. */
    method HandleRead(r: Reading, answers: seq<Answer>)
      requires Valid() && Enabled(Now(), Read(r, answers))
      modifies this
      ensures Valid() && trace == old(trace) + [Read(r, answers)]
      ensures !error && outBuffer != "" ==> events.output
      ensures !error && old(connection) == Connected && !Replies(r) ==> events.input
    {
      hide After, Flushed, Consumed;
      AfterMore(trace, Read(r, answers));
      var finished := Consume(r);
      if !error {
        if |outBuffer| > 0 {
          Flush(answers);
        }
        FlushRequests(Consumed(old(Now()), r), answers);
        if !error && !finished && connection != Disconnected {
          events := events.(input := true);
        }
      }
      phase := Served;
      trace := trace + [Read(r, answers)];
      PendingOutputIsRegistered(trace);
    }

    /** handleConn(): a connection that is up is then registered, for output if bytes are left. */
    method HandleConn()
      requires Valid() && Enabled(Now(), Settle)
      modifies this
      ensures Valid() && trace == old(trace) + [Settle]
      ensures connection == Connected ==> Asks(registered) && armed && (outBuffer != "" ==> registered.output)
      ensures connection == Disconnected
              <==> old(error) || (old(connection) == Disconnecting && !old(events.output))
    {
      hide After;
      AfterMore(trace, Settle);
      PendingOutputIsRegistered(trace);
      if !error && connection == Connected {
        if events != NO_EVENTS {
          if events.input && events.output {
            events := NO_EVENTS;
            events := events.(output := true);
          }
          events := events.(edge := true);
        } else {
          events := Events(true, false, true, false);
        }
        if events != registered {
          registered, armed := events, true;
        }
      } else if !error && connection == Disconnecting && events.output {
        events := Events(false, true, true, false);
      } else {
        connection, armed := Disconnected, false;
      }
      phase := Waiting;
      trace := trace + [Settle];
      PendingOutputIsRegistered(trace);
    }

    /** handleEvents() after EPOLLHUP or EPOLLERR: no handler of the connection is called. */
    method HangUp()
      requires Valid() && Enabled(Now(), Abort)
      modifies this
      ensures Valid() && trace == old(trace) + [Abort]
    {
      hide After;
      AfterMore(trace, Abort);
      events, phase := NO_EVENTS, Waiting;
      trace := trace + [Abort];
    }

    /** handleClose(), called by the timer. */
    method HandleClose()
      requires Valid() && Enabled(Now(), Expire)
      modifies this
      ensures Valid() && trace == old(trace) + [Expire] && connection == Disconnected
    {
      hide After;
      AfterMore(trace, Expire);
      connection, armed := Disconnected, false;
      trace := trace + [Expire];
    }

    /** One step of any kind. */
    method Perform(e: Event)
      requires Valid() && Enabled(Now(), e)
      modifies this
      ensures Valid() && trace == old(trace) + [e]
    {
      hide After;
      match e {
        case Dispatch => Report();
        case Read(r, answers) => HandleRead(r, answers);
        case Write(answers) => HandleWrite(answers);
        case Settle => HandleConn();
        case Abort => HangUp();
        case Expire => HandleClose();
      }
    }
  }

  /** The beginning of a run that can be carried out can be carried out, and so can the step after it. */
  lemma {:induction false} Prefix(trace: seq<Event>, k: nat)
    requires After(trace).Some? && k < |trace|
    ensures After(trace[..k]).Some? && Enabled(After(trace[..k]).value, trace[k])
    decreases |trace|
  {
    hide Enabled, Step;
    if k + 1 < |trace| {
      var init := trace[..|trace| - 1];
      Prefix(init, k);
      assert init[..k] == trace[..k];
    }
  }

  /**
   Every run can be carried out on the object, whatever the kernel answers. Without a misjudged length the bytes on
   the wire are the first ones appended, and without an error the buffer holds the others. While the connection is
   up and waits, bytes that are left are waited for.
   */
  method Replay(trace: seq<Event>) returns (http: HttpData)
    requires After(trace).Some?
    ensures http.Valid() && http.trace == trace
    ensures !EverForgets(trace) ==> http.sent <= http.appended
                                    && (!http.error ==> http.sent + http.outBuffer == http.appended)
    ensures |http.appended| < 0x1_0000_0000 ==> !EverForgets(trace)
    ensures http.phase == Waiting && http.connection == Connected && http.outBuffer != "" ==>
              http.armed && http.registered.output
  {
    hide After, Enabled, EverForgets;
    http := new HttpData();
    for k := 0 to |trace|
      invariant http.Valid() && http.trace == trace[..k] && fresh(http)
    {
      Prefix(trace, k);
      http.Perform(trace[k]);
    }
    assert trace[..|trace|] == trace;
    PendingOutputIsRegistered(trace);
    if |http.appended| < 0x1_0000_0000 {
      SmallRunsNeverForget(trace);
    }
    if !EverForgets(trace) {
      OutputConservation(trace);
    }
  }
}
