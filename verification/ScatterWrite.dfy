/**
 The sending half of the version 2.0 connection (process_write and write in version2.0/http/http_conn.cpp): a
 response header and a mapped file pushed through a pair of iovecs across short writes.

 A pending response is described by offsets into its two memory blocks. A byte outside its block is None, so that
 a descriptor that points before the start of the file is visible in what is sent.
 */
module ScatterWrite {
  import opened Options
  import CStrings

  datatype Out = Out(
    base0: int, len0: int,  // m_iv[0], relative to m_write_buffer
    base1: int, len1: int,  // m_iv[1], relative to m_file_address
    count: int,             // m_iv_count
    toSend: int,            // bytes_to_send
    have: int)              // bytes_have_send

  /** What a writev call, or the lack of room for one, reports. */
  datatype Kernel = Wrote(n: nat) | Blocked | Failed

  /** The two memory blocks of a response. Without a file the body is empty and one iovec is used. */
  datatype Response = Response(head: string, body: string, mapped: bool) {
    ghost predicate Valid() {
      !mapped ==> body == ""
    }
  }

  /** The descriptors process_write sets up; `left` is what an earlier response left in them. */
  function Start(r: Response, left: Out): Out {
    if r.mapped then Out(0, |r.head|, 0, |r.body|, 2, CStrings.ToInt32(|r.head| + |r.body|), left.have)
    else left.(base0 := 0, len0 := |r.head|, count := 1, toSend := |r.head|)
  }

  /** The bookkeeping after writev has taken `n` bytes of a response whose header has `h`. */
  function Advance(o: Out, h: int, n: int): Out {
    var have, toSend := o.have + n, o.toSend - n;
    if have >= o.len0 then o.(have := have, toSend := toSend, len0 := 0, base1 := have - h, len1 := toSend)
    else o.(have := have, toSend := toSend, base0 := have, len0 := o.len0 - n)
  }

  function Window(block: string, base: int, len: int): seq<Option<char>> {
    seq(if len < 0 then 0 else len,
        i requires 0 <= i => if 0 <= base + i < |block| then Some(block[base + i]) else None)
  }

  /** The bytes the iovecs describe. */
  function Described(o: Out, r: Response): seq<Option<char>> {
    Window(r.head, o.base0, o.len0) + if o.count == 2 then Window(r.body, o.base1, o.len1) else []
  }

  /** writev takes at most what is described. */
  function Taken(o: Out, r: Response, n: nat): (k: nat)
    ensures k <= |Described(o, r)|
  {
    if n <= |Described(o, r)| then n else |Described(o, r)|
  }

  /** A run of write() over what the kernel reports; a call that blocks is continued by the next one. */
  function Drive(o: Out, r: Response, sent: seq<Option<char>>, kernel: seq<Kernel>): (Out, seq<Option<char>>)
    decreases |kernel|
  {
    if o.toSend <= 0 || kernel == [] || kernel[0].Failed? then (o, sent)
    else if kernel[0].Blocked? then Drive(o, r, sent, kernel[1..])
    else
      var n := Taken(o, r, kernel[0].n);
      Drive(Advance(o, |r.head|, n), r, sent + Described(o, r)[..n], kernel[1..])
  }

  function Whole(r: Response): seq<Option<char>> {
    Window(r.head, 0, |r.head|) + Window(r.body, 0, |r.body|)
  }

  /** Bytes sent ++ what the iovecs still describe is the response, and bytes_to_send counts the latter. */
  ghost predicate Accounted(o: Out, r: Response, sent: seq<Option<char>>) {
    && sent + Described(o, r) == Whole(r)
    && o.toSend == |Described(o, r)|
  }

  ghost predicate AlwaysAccounted(o: Out, r: Response, sent: seq<Option<char>>, kernel: seq<Kernel>)
    decreases |kernel|
  {
    && Accounted(o, r, sent)
    && (o.toSend > 0 && kernel != [] ==>
          match kernel[0]
          case Failed => true
          case Blocked => AlwaysAccounted(o, r, sent, kernel[1..])
          case Wrote(k) =>
            var n := Taken(o, r, k);
            AlwaysAccounted(Advance(o, |r.head|, n), r, sent + Described(o, r)[..n], kernel[1..]))
  }

  /**
   The condition under which the code meets conservation, on the byte counts alone. The test on the first block
   compares all bytes sent with the header bytes that were left, so a write that stops inside the header is taken
   for one that finished it when the bytes sent before it count twice.
   */
  predicate Quiet(h: nat, total: nat, have: nat, kernel: seq<Kernel>)
    decreases |kernel|
  {
    have >= total || kernel == [] || kernel[0].Failed?
    || (kernel[0].Blocked? && Quiet(h, total, have, kernel[1..]))
    || (kernel[0].Wrote? &&
        var n := if kernel[0].n <= total - have then kernel[0].n else total - have;
        (have + n < h ==> 2 * have + n < h) && Quiet(h, total, have + n, kernel[1..]))
  }

  /** What the descriptors look like after `o.have` bytes while no write has been misjudged. */
  ghost predicate OnTrack(o: Out, r: Response) {
    var h, f := |r.head|, |r.body|;
    && r.Valid() && (o.count == 2 <==> r.mapped)
    && 0 <= o.have <= h + f && o.toSend == h + f - o.have
    && (o.have < h ==> o.base0 == o.have && o.len0 == h - o.have && (r.mapped ==> o.base1 == 0 && o.len1 == f))
    && (o.have >= h ==> o.len0 == (if o.have == 0 then h else 0)
                        && (r.mapped && o.have > 0 ==> o.base1 == o.have - h && o.len1 == o.toSend)
                        && (r.mapped && o.have == 0 ==> o.base1 == 0 && o.len1 == f))
  }

  /** The window from `base` to the end of a block. */
  lemma WindowRest(block: string, base: nat)
    requires base <= |block|
    ensures Window(block, base, |block| - base) == Window(block, 0, |block|)[base..]
  {
  }

  lemma EmptyWindow(block: string, base: int)
    ensures Window(block, base, 0) == []
  {
  }

  lemma OnTrackDescribes(o: Out, r: Response)
    requires OnTrack(o, r)
    ensures Described(o, r) == Whole(r)[o.have..]
  {
    var h, f := |r.head|, |r.body|;
    var head, body := Window(r.head, 0, h), Window(r.body, 0, f);
    assert |head| == h && |body| == f;
    EmptyWindow(r.head, o.base0);
    EmptyWindow(r.body, 0);
    if o.have < h {
      WindowRest(r.head, o.have);
      hide Window;
      assert (head + body)[o.have..] == head[o.have..] + body;
    } else {
      WindowRest(r.body, o.have - h);
      hide Window;
      assert (head + body)[o.have..] == body[o.have - h..];
    }
  }

  /** One write keeps the account exactly when it does not stop inside the header after too many bytes. */
  lemma StepAccounted(o: Out, r: Response, sent: seq<Option<char>>, n: nat)
    requires OnTrack(o, r) && o.toSend > 0 && sent == Whole(r)[..o.have] && n <= |Described(o, r)|
    ensures var p, h := Advance(o, |r.head|, n), |r.head|;
            if o.have + n < h ==> 2 * o.have + n < h
            then OnTrack(p, r) && sent + Described(o, r)[..n] == Whole(r)[..p.have]
            else !Accounted(p, r, sent + Described(o, r)[..n])
  {
    var h := |r.head|;
    assert |Whole(r)| == h + |r.body|;
    hide Window, Advance, OnTrack, Accounted;
    OnTrackAccounted(o, r, sent);
    OnTrackDescribes(o, r);
    AdvanceCounts(o, h, n);
    if o.have + n < h ==> 2 * o.have + n < h {
      StepOnTrack(o, r, n);
      assert Whole(r)[..o.have] + Whole(r)[o.have..][..n] == Whole(r)[..o.have + n];
    } else {
      Misjudged(o, r, sent + Described(o, r)[..n], n);
    }
  }

  lemma StepOnTrack(o: Out, r: Response, n: nat)
    requires OnTrack(o, r) && o.toSend > 0 && n <= o.toSend
    requires o.have + n < |r.head| ==> 2 * o.have + n < |r.head|
    ensures OnTrack(Advance(o, |r.head|, n), r)
  {
  }

  /** A write taken for one that finished the header leaves a file block that begins before the file. */
  lemma Misjudged(o: Out, r: Response, wire: seq<Option<char>>, n: nat)
    requires OnTrack(o, r) && o.toSend > 0 && |wire| == o.have + n
    requires o.have + n < |r.head| <= 2 * o.have + n
    ensures !Accounted(Advance(o, |r.head|, n), r, wire)
  {
    var d := Described(Advance(o, |r.head|, n), r);
    if r.mapped {
      assert d[0] == None;
      assert (wire + d)[|wire|] == None;
      assert Whole(r)[|wire|].Some?;
    }
  }

  /**
   Conservation, exactly: at every step of every run the bytes sent and the bytes described make up the response
   if and only if its length fits an int and the run is Quiet. (The bytes sent are counted from zero because init()
   has run since the previous response.)
   */
  lemma Conservation(r: Response, left: Out, kernel: seq<Kernel>)
    requires r.Valid() && left.have == 0
    ensures var total := |r.head| + |r.body|;
            AlwaysAccounted(Start(r, left), r, [], kernel)
            <==> (r.mapped ==> total < 0x8000_0000) && Quiet(|r.head|, total, 0, kernel)
  {
    var o, total := Start(r, left), |r.head| + |r.body|;
    if r.mapped && total >= 0x8000_0000 {
      assert |Described(o, r)| == total;
      assert o.toSend != total;
    } else {
      assert OnTrack(o, r);
      RunAccounted(o, r, [], kernel);
    }
  }

  lemma {:induction false} RunAccounted(o: Out, r: Response, sent: seq<Option<char>>, kernel: seq<Kernel>)
    requires OnTrack(o, r) && sent == Whole(r)[..o.have]
    ensures AlwaysAccounted(o, r, sent, kernel) <==> Quiet(|r.head|, |r.head| + |r.body|, o.have, kernel)
    decreases |kernel|
  {
    hide OnTrack, Described, Whole, Advance;
    OnTrackAccounted(o, r, sent);
    if o.toSend > 0 && kernel != [] && !kernel[0].Failed? {
      if kernel[0].Blocked? {
        RunAccounted(o, r, sent, kernel[1..]);
      } else {
        var n := Taken(o, r, kernel[0].n);
        StepAccounted(o, r, sent, n);
        var p := Advance(o, |r.head|, n);
        AdvanceCounts(o, |r.head|, n);
        if o.have + n < |r.head| ==> 2 * o.have + n < |r.head| {
          RunAccounted(p, r, sent + Described(o, r)[..n], kernel[1..]);
        }
      }
    }
  }

  lemma AdvanceCounts(o: Out, h: int, n: int)
    ensures Advance(o, h, n).have == o.have + n
    ensures Advance(o, h, n).toSend == o.toSend - n
  {
  }

  lemma OnTrackAccounted(o: Out, r: Response, sent: seq<Option<char>>)
    requires OnTrack(o, r) && sent == Whole(r)[..o.have]
    ensures Accounted(o, r, sent) && |Described(o, r)| == |r.head| + |r.body| - o.have == o.toSend && 0 <= o.have
  {
    OnTrackDescribes(o, r);
    assert Whole(r)[..o.have] + Whole(r)[o.have..] == Whole(r);
  }

  /** A quiet run that comes to an end with nothing left to send has put exactly the response on the wire. */
  lemma {:induction false} DriveDelivers(o: Out, r: Response, sent: seq<Option<char>>, kernel: seq<Kernel>)
    requires AlwaysAccounted(o, r, sent, kernel)
    ensures var (p, wire) := Drive(o, r, sent, kernel);
            Accounted(p, r, wire) && wire <= Whole(r) && (p.toSend <= 0 ==> wire == Whole(r))
    decreases |kernel|
  {
    hide Described, Whole, Advance;
    if o.toSend <= 0 || kernel == [] || kernel[0].Failed? {
      assert o.toSend <= 0 ==> Described(o, r) == [];
    } else if kernel[0].Blocked? {
      DriveDelivers(o, r, sent, kernel[1..]);
    } else {
      var n := Taken(o, r, kernel[0].n);
      DriveDelivers(Advance(o, |r.head|, n), r, sent + Described(o, r)[..n], kernel[1..]);
    }
  }

  /** The whole response is the header and then the file, byte by byte. */
  lemma WholeIs(r: Response)
    ensures |Whole(r)| == |r.head| + |r.body|
    ensures forall i :: 0 <= i < |r.head| + |r.body| ==>
              Whole(r)[i] == Some(if i < |r.head| then r.head[i] else r.body[i - |r.head|])
  {
  }

  /** The bytes some reports can take together. */
  function Room(kernel: seq<Kernel>): nat {
    if kernel == [] then 0 else (if kernel[0].Wrote? then kernel[0].n else 0) + Room(kernel[1..])
  }

  lemma {:induction false} RoomConcat(a: seq<Kernel>, b: seq<Kernel>)
    ensures Room(a + b) == Room(a) + Room(b)
    ensures Room([]) == 0 && forall x: Kernel :: Room([x]) == if x.Wrote? then x.n else 0
    decreases |a|
  {
    forall x: Kernel
      ensures Room([x]) == if x.Wrote? then x.n else 0
    {
      assert [x][1..] == [];
    }
    if a == [] {
      assert a + b == b;
    } else {
      RoomConcat(a[1..], b);
      assert (a + b)[1..] == a[1..] + b;
    }
  }

  /** Reports with room for everything, and no failure among them, bring an accounted run to its end. */
  lemma {:induction false} DriveCompletes(o: Out, r: Response, sent: seq<Option<char>>, kernel: seq<Kernel>)
    requires AlwaysAccounted(o, r, sent, kernel) && Failed !in kernel && Room(kernel) >= o.toSend
    ensures Drive(o, r, sent, kernel).0.toSend <= 0
    decreases |kernel|
  {
    hide Described, Whole, Advance;
    if o.toSend > 0 && kernel != [] {
      if kernel[0].Blocked? {
        DriveCompletes(o, r, sent, kernel[1..]);
      } else {
        var n := Taken(o, r, kernel[0].n);
        AdvanceCounts(o, |r.head|, n);
        DriveCompletes(Advance(o, |r.head|, n), r, sent + Described(o, r)[..n], kernel[1..]);
      }
    }
  }

  /** A run can be cut anywhere before it fails: the second part continues where the first stopped. */
  lemma {:induction false} DriveConcat(o: Out, r: Response, sent: seq<Option<char>>, a: seq<Kernel>, b: seq<Kernel>)
    requires Failed !in a
    ensures var (p, wire) := Drive(o, r, sent, a);
            Drive(o, r, sent, a + b) == Drive(p, r, wire, b)
    decreases |a|
  {
    hide Described, Advance;
    if a == [] {
      assert a + b == b;
    } else {
      assert (a + b)[0] == a[0] && (a + b)[1..] == a[1..] + b;
      if o.toSend > 0 {
        if a[0].Blocked? {
          DriveConcat(o, r, sent, a[1..], b);
        } else {
          var n := Taken(o, r, a[0].n);
          DriveConcat(Advance(o, |r.head|, n), r, sent + Described(o, r)[..n], a[1..], b);
        }
      }
    }
  }

  /** One more report at the end of a run. */
  lemma DriveMore(o: Out, r: Response, sent: seq<Option<char>>, kernel: seq<Kernel>, k: nat)
    requires k < |kernel| && kernel[k].Wrote? && Failed !in kernel[..k]
    requires Drive(o, r, sent, kernel[..k]).0.toSend > 0
    ensures var (p, wire) := Drive(o, r, sent, kernel[..k]);
            var n := Taken(p, r, kernel[k].n);
            Drive(o, r, sent, kernel[..k + 1]) == (Advance(p, |r.head|, n), wire + Described(p, r)[..n])
  {
    hide Described, Advance;
    DriveConcat(o, r, sent, kernel[..k], [kernel[k]]);
    assert kernel[..k + 1] == kernel[..k] + [kernel[k]];
    assert [kernel[k]][1..] == [];
  }

  /** How many writes of a run stop strictly inside the header. */
  function StopsInside(h: nat, total: nat, have: nat, kernel: seq<Kernel>): nat
    decreases |kernel|
  {
    if have >= total || kernel == [] || kernel[0].Failed? then 0
    else if kernel[0].Blocked? then StopsInside(h, total, have, kernel[1..])
    else
      var n := if kernel[0].n <= total - have then kernel[0].n else total - have;
      (if have + n < h then 1 else 0) + StopsInside(h, total, have + n, kernel[1..])
  }

  /** Runs with at most one stop inside the header are quiet, and so are headers sent at once. */
  lemma {:induction false} OneStopIsQuiet(h: nat, total: nat, have: nat, kernel: seq<Kernel>)
    requires StopsInside(h, total, have, kernel) <= if 0 < have < h then 0 else 1
    ensures Quiet(h, total, have, kernel)
    decreases |kernel|
  {
    if have < total && kernel != [] && !kernel[0].Failed? {
      if kernel[0].Blocked? {
        OneStopIsQuiet(h, total, have, kernel[1..]);
      } else {
        var n := if kernel[0].n <= total - have then kernel[0].n else total - have;
        OneStopIsQuiet(h, total, have + n, kernel[1..]);
      }
    }
  }

  /** Two stops are too many: a 10-byte header sent as 4, 3 and the rest loses its last three bytes. */
  lemma TwoStopsLoseBytes(left: Out)
    requires left.have == 0
    ensures var r := Response("0123456789", "file", true);
            var (o, wire) := Drive(Start(r, left), r, [], [Wrote(4), Blocked, Wrote(3)]);
            wire == Window("0123456", 0, 7) && o.toSend == 7
            && Described(o, r) == [None, None, None] + Window("file", 0, 4)
  {
    var r := Response("0123456789", "file", true);
    var k := [Wrote(4), Blocked, Wrote(3)];
    assert k[1..] == [Blocked, Wrote(3)] && k[1..][1..] == [Wrote(3)] && k[1..][1..][1..] == [];
    var o := Start(r, left);
    assert o == Out(0, 10, 0, 4, 2, 14, 0);
    var a := Window("0123456789", 0, 10) + Window("file", 0, 4);
    assert Described(o, r) == a && |a| == 14 && Taken(o, r, 4) == 4;
    var o1 := Advance(o, 10, 4);
    assert o1 == Out(4, 6, 0, 4, 2, 10, 4);
    var b := Window("0123456789", 4, 6) + Window("file", 0, 4);
    assert Described(o1, r) == b && |b| == 10 && Taken(o1, r, 3) == 3;
    var o2 := Advance(o1, 10, 3);
    assert o2 == Out(4, 0, -3, 7, 2, 7, 7);
    assert [] + a[..4] + b[..3] == Window("0123456", 0, 7);
    assert Drive(o, r, [], k) == Drive(o1, r, [] + a[..4], [Blocked, Wrote(3)]);
    assert Drive(o1, r, [] + a[..4], [Blocked, Wrote(3)]) == Drive(o1, r, [] + a[..4], [Wrote(3)]);
    assert Drive(o1, r, [] + a[..4], [Wrote(3)]) == Drive(o2, r, [] + a[..4] + b[..3], []);
    assert Window("file", -3, 7) == [None, None, None] + Window("file", 0, 4);
  }

  /** Every positive write lowers bytes_to_send by what it took. */
  lemma PositiveWritesTerminate(o: Out, r: Response, sent: seq<Option<char>>, n: nat, kernel: seq<Kernel>)
    requires AlwaysAccounted(o, r, sent, [Wrote(n)] + kernel) && o.toSend > 0 && n > 0
    ensures 0 <= Advance(o, |r.head|, Taken(o, r, n)).toSend < o.toSend
  {
    var k := [Wrote(n)] + kernel;
    assert k[0] == Wrote(n);
  }

  /** The events a connection asks epoll for. */
  datatype Interest = ForInput | ForOutput

  /** The fields of http_conn that write() works on. */
  class HttpConn {
    var response: Response  // m_write_buffer up to m_write_idx, and the file
    var fileMapped: bool    // m_file_address is not null
    var base0: int
    var len0: int
    var base1: int
    var len1: int
    var ivCount: int
    var bytesToSend: int
    var bytesHaveSent: int
    var linger: bool
    var interest: Interest

    ghost var wire: seq<Option<char>>  // what the socket has taken of this response

    ghost function Pending(): Out
      reads this
    {
      Out(base0, len0, base1, len1, ivCount, bytesToSend, bytesHaveSent)
    }

    /** The part of init() that concerns sending. */
    method Init()
      modifies this`bytesToSend, this`bytesHaveSent, this`linger
      ensures Pending() == old(Pending()).(toSend := 0, have := 0) && !linger
    {
      bytesToSend, bytesHaveSent, linger := 0, 0, false;
    }

    /** The end of process_write: describe the response that is in the buffer and, for a found file, the mapping. */
    method ProcessWrite(head: string, file: Option<string>)
      modifies this
      ensures response == Response(head, if file.Some? then file.value else "", file.Some?) && response.Valid()
      ensures Pending() == Start(response, old(Pending())) && fileMapped == file.Some?
      ensures wire == [] && linger == old(linger) && interest == old(interest)
    {
      response, fileMapped := Response(head, if file.Some? then file.value else "", file.Some?), file.Some?;
      base0, len0 := 0, |head|;
      if file.Some? {
        base1, len1, ivCount := 0, |file.value|, 2;
        bytesToSend := CStrings.ToInt32(|head| + |file.value|);
      } else {
        ivCount := 1;
        bytesToSend := |head|;
      }
      wire := [];
    }

    /** One writev that takes up to `n` bytes, and the bookkeeping after it. */
    method WriteOnce(n: nat)
      modifies this`base0, this`len0, this`base1, this`len1, this`bytesToSend, this`bytesHaveSent, this`wire
      ensures var k := Taken(old(Pending()), response, n);
              Pending() == Advance(old(Pending()), |response.head|, k)
              && wire == old(wire) + Described(old(Pending()), response)[..k]
    {
      hide Described;
      var o := Out(base0, len0, base1, len1, ivCount, bytesToSend, bytesHaveSent);
      var tmp := Taken(o, response, n);
      wire := wire + Described(o, response)[..tmp];
      bytesHaveSent := bytesHaveSent + tmp;
      bytesToSend := bytesToSend - tmp;
      if bytesHaveSent >= len0 {
        len0 := 0;
        base1 := bytesHaveSent - |response.head|;
        len1 := bytesToSend;
      } else {
        base0 := bytesHaveSent;
        len0 := len0 - tmp;
      }
    }

    /**
     write(): `kernel` is what the successive writev calls report; when it runs out the socket blocks. The call
     follows Drive over the reports it uses, and ends in one of three ways. A negative count of bytes is not zero:
     it is driven for one write.
     */
    method Write(kernel: seq<Kernel>) returns (ok: bool, used: nat)
      modifies this
      ensures used <= |kernel| && forall i :: 0 <= i < used ==> kernel[i].Wrote?
      ensures response == old(response)
      ensures old(bytesToSend) == 0 ==>
                ok && used == 0 && interest == ForInput && !linger && wire == old(wire)
                && fileMapped == old(fileMapped)
                && Pending() == old(Pending()).(toSend := 0, have := 0)
      ensures old(bytesToSend) < 0 && used > 0 ==>
                var n := Taken(old(Pending()), response, kernel[0].n);
                && used == 1 && wire == old(wire) + Described(old(Pending()), response)[..n]
                && Finished(old(linger), Advance(old(Pending()), |response.head|, n), ok)
      ensures old(bytesToSend) < 0 && used == 0 ==>
                wire == old(wire) && Pending() == old(Pending()) && Paused(old(Sending()), kernel, 0, ok)
      ensures old(bytesToSend) > 0 ==>
                var (o, w) := Drive(old(Pending()), response, old(wire), kernel[..used]);
                && wire == w
                && (o.toSend <= 0 ==> Finished(old(linger), o, ok))
                && (o.toSend > 0 ==> Pending() == o && Paused(old(Sending()), kernel, used, ok))
    {
      hide Described, Taken, Advance;
      used := 0;
      if bytesToSend == 0 {
        interest := ForInput;
        Init();
        return true, 0;
      }
      ghost var o0 := Pending();
      assert kernel[..0] == [];
      while true
        invariant used <= |kernel| && forall i :: 0 <= i < used ==> kernel[i].Wrote?
        invariant response == old(response) && Sending() == old(Sending())
        invariant if bytesToSend > 0
                  then (Pending(), wire) == Drive(o0, response, old(wire), kernel[..used])
                  else used == 0 && Pending() == o0 && wire == old(wire)
        invariant bytesToSend > 0 <==> o0.toSend > 0
        decreases |kernel| - used
      {
        if used == |kernel| || kernel[used].Blocked? {
          interest := ForOutput;
          return true, used;
        }
        if kernel[used].Failed? {
          fileMapped := false;
          return false, used;
        }
        WriteOnce(kernel[used].n);
        if o0.toSend > 0 {
          DriveMore(o0, response, old(wire), kernel, used);
        } else {
          AdvanceCounts(o0, |response.head|, Taken(o0, response, kernel[0].n));
        }
        used := used + 1;
        if bytesToSend <= 0 {
          fileMapped := false;
          interest := ForInput;
          ok := linger;
          if linger {
            Init();
          }
          return ok, used;
        }
      }
    }

    /** What write() finds apart from the descriptors. */
    ghost function Sending(): (bool, bool, Interest)
      reads this
    {
      (linger, fileMapped, interest)
    }

    /** How write() ends when nothing is left: the file is unmapped, and the connection reused only if it lingers. */
    ghost predicate Finished(lingered: bool, o: Out, ok: bool)
      reads this
    {
      && ok == lingered && interest == ForInput && !fileMapped && !linger
      && Pending() == if ok then o.(toSend := 0, have := 0) else o
    }

    /** How it ends when bytes are left: after a failure, or to be called again. */
    ghost predicate Paused(before: (bool, bool, Interest), kernel: seq<Kernel>, used: nat, ok: bool)
      reads this
      requires used <= |kernel|
    {
      linger == before.0
      && if used < |kernel| && kernel[used] == Failed
         then !ok && interest == before.2 && !fileMapped
         else ok && interest == ForOutput && fileMapped == before.1 && (used == |kernel| || kernel[used] == Blocked)
    }

    /**
     A whole response: it is described, and write() called whenever the socket can take more, until it has ended.
     Whatever the kernel reports, as long as no length is misjudged the bytes on the wire are a beginning of the
     response, and all of it when the response is complete.
     */
    method Respond(head: string, file: Option<string>, keepAlive: bool, calls: seq<seq<Kernel>>)
      returns (end: Ending)
      modifies this
      ensures var r := Response(head, if file.Some? then file.value else "", file.Some?);
              var total := |r.head| + |r.body|;
              && response == r
              && ((r.mapped ==> total < 0x8000_0000) && Quiet(|head|, total, 0, AllReports(calls))
                  ==> wire <= Whole(r) && (end == Complete ==> wire == Whole(r))
                      && (calls != [] && Failed !in AllReports(calls) && Room(AllReports(calls)) >= total
                          ==> end == Complete))
    {
      hide Described, Advance, Quiet, AlwaysAccounted, Whole, Drive, Taken, Reports, Accounted;
      Init();
      linger := keepAlive;
      ghost var left := Pending();
      ProcessWrite(head, file);
      interest := ForOutput;
      Conservation(response, left, AllReports(calls));
      end := SendAll(calls);
    }

    /** Repeated calls of write(), from the description of a response on. */
    method SendAll(calls: seq<seq<Kernel>>) returns (end: Ending)
      requires wire == [] && interest == ForOutput
      modifies this
      ensures response == old(response)
      ensures AlwaysAccounted(old(Pending()), response, [], AllReports(calls))
              ==> wire <= Whole(response) && (end == Complete ==> wire == Whole(response))
                  && (calls != [] && Failed !in AllReports(calls) && Room(AllReports(calls)) >= old(bytesToSend)
                      ==> end == Complete)
    {
      hide Described, Advance, AlwaysAccounted, Whole, Drive, Taken, Reports, Accounted;
      ghost var o, r, all, done := Pending(), response, AllReports(calls), [];
      DriveNothing(o, r);
      CountsUp(o, r, all);
      Delivered(o, r, all);
      Completed(o, r, all);
      DriveZero(o, r, all);
      assert calls[0..] == calls && done + all == all;
      for k := 0 to |calls|
        invariant response == r && interest == ForOutput && (o.toSend == 0 ==> k == 0)
        invariant all == done + AllReports(calls[k..]) && Failed !in done
        invariant (bytesToSend == 0 <==> o.toSend == 0) && (bytesToSend > 0 <==> o.toSend > 0)
        invariant o.toSend >= 0 ==> (Pending(), wire) == Drive(o, r, [], done)
      {
        ghost var rest := AllReports(calls[k + 1..]);
        assert calls[k..][1..] == calls[k + 1..];
        assert all == done + Reports(calls[k]) + rest;
        var ok, used := Write(calls[k]);
        if o.toSend > 0 {
          OneCall(o, r, done, calls[k], used, rest);
          assert interest == ForOutput && ok ==> (Pending(), wire) == Drive(o, r, [], done + Reports(calls[k]));
          assert interest == ForOutput && !ok ==> (Pending(), wire) == Drive(o, r, [], all);
          assert interest == ForInput ==> wire == Drive(o, r, [], all).1 && Drive(o, r, [], all).0.toSend <= 0;
        }
        if interest == ForInput {
          return Complete;
        }
        if !ok {
          FailureReported(done, calls[k], used, rest);
          return Broken;
        }
        done := done + Reports(calls[k]);
        NoFailure(calls[k], used);
      }
      assert calls[|calls|..] == [] && done + [] == done;
      return Waiting;
    }
  }

  /** How a response ends: everything is sent, the socket has failed, or it waits to take more. */
  datatype Ending = Complete | Broken | Waiting

  /** The reports one call of write() can come to use. */
  function Reports(kernel: seq<Kernel>): seq<Kernel> {
    if kernel == [] then [Blocked]
    else if kernel[0].Wrote? then [kernel[0]] + Reports(kernel[1..])
    else [kernel[0]]
  }

  function AllReports(calls: seq<seq<Kernel>>): seq<Kernel> {
    if calls == [] then [] else Reports(calls[0]) + AllReports(calls[1..])
  }

  lemma {:induction false} ReportsSplit(kernel: seq<Kernel>, used: nat)
    requires used <= |kernel| && forall i :: 0 <= i < used ==> kernel[i].Wrote?
    ensures Reports(kernel) == kernel[..used] + Reports(kernel[used..])
    decreases used
  {
    if used == 0 {
      assert kernel[0..] == kernel;
    } else {
      ReportsSplit(kernel[1..], used - 1);
      assert kernel[1..][used - 1..] == kernel[used..];
      assert kernel[..used] == [kernel[0]] + kernel[1..][..used - 1];
    }
  }

  lemma NoFailure(kernel: seq<Kernel>, used: nat)
    requires used <= |kernel| && forall i :: 0 <= i < used ==> kernel[i].Wrote?
    requires used == |kernel| || kernel[used].Blocked?
    ensures Failed !in Reports(kernel)
  {
    ReportsSplit(kernel, used);
  }

  lemma DriveNothing(o: Out, r: Response)
    ensures Drive(o, r, [], []) == (o, [])
  {
  }

  lemma DriveZero(o: Out, r: Response, kernel: seq<Kernel>)
    ensures o.toSend == 0 ==> Drive(o, r, [], kernel) == (o, [])
  {
  }

  /** A call that fails has seen a failure among its reports. */
  lemma FailureReported(done: seq<Kernel>, kernel: seq<Kernel>, used: nat, rest: seq<Kernel>)
    requires used < |kernel| && forall i :: 0 <= i < used ==> kernel[i].Wrote?
    ensures kernel[used] == Failed ==> Failed in done + Reports(kernel) + rest
  {
    ReportsSplit(kernel, used);
    if kernel[used] == Failed {
      var all := done + Reports(kernel) + rest;
      assert Reports(kernel[used..])[0] == Failed;
      assert all[|done| + used] == Failed;
    }
  }

  lemma Completed(o: Out, r: Response, kernel: seq<Kernel>)
    ensures AlwaysAccounted(o, r, [], kernel) && Failed !in kernel && Room(kernel) >= o.toSend
            ==> Drive(o, r, [], kernel).0.toSend <= 0
  {
    hide AlwaysAccounted, Drive;
    if AlwaysAccounted(o, r, [], kernel) && Failed !in kernel && Room(kernel) >= o.toSend {
      DriveCompletes(o, r, [], kernel);
    }
  }

  /** The reports of one call: its writes up to the first that blocks or fails; it blocks when they run out. */
  lemma ReportsMean(writes: seq<Kernel>, last: Kernel, rest: seq<Kernel>)
    requires (forall i :: 0 <= i < |writes| ==> writes[i].Wrote?) && !last.Wrote?
    ensures Reports(writes) == writes + [Blocked]
    ensures Reports(writes + [last] + rest) == writes + [last]
  {
    ReportsSplit(writes, |writes|);
    assert writes[|writes|..] == [] && writes[..|writes|] == writes;
    var all := writes + [last] + rest;
    ReportsSplit(all, |writes|);
    assert all[..|writes|] == writes && all[|writes|..][0] == last;
  }

  lemma CountsUp(o: Out, r: Response, kernel: seq<Kernel>)
    ensures AlwaysAccounted(o, r, [], kernel) ==> o.toSend >= 0
  {
    hide Described;
  }

  lemma Delivered(o: Out, r: Response, kernel: seq<Kernel>)
    ensures var (p, wire) := Drive(o, r, [], kernel);
            AlwaysAccounted(o, r, [], kernel) ==> wire <= Whole(r) && (p.toSend <= 0 ==> wire == Whole(r))
  {
    hide AlwaysAccounted, Drive, Whole, Accounted;
    if AlwaysAccounted(o, r, [], kernel) {
      DriveDelivers(o, r, [], kernel);
    }
  }

  /** What one call does to a run: it ends it, or takes it to the end of its reports. */
  lemma OneCall(o: Out, r: Response, done: seq<Kernel>, kernel: seq<Kernel>, used: nat, rest: seq<Kernel>)
    requires Failed !in done && used <= |kernel| && forall i :: 0 <= i < used ==> kernel[i].Wrote?
    ensures var (p, wire) := Drive(o, r, [], done);
            var (q, more) := Drive(p, r, wire, kernel[..used]);
            && (q.toSend <= 0 || (used < |kernel| && kernel[used].Failed?) ==>
                  Drive(o, r, [], done + Reports(kernel) + rest) == (q, more))
            && (used == |kernel| || kernel[used].Blocked? ==> Drive(o, r, [], done + Reports(kernel)) == (q, more))
  {
    hide Described, Advance;
    var (p, wire) := Drive(o, r, [], done);
    var (q, more) := Drive(p, r, wire, kernel[..used]);
    var last := Reports(kernel[used..]);
    ReportsSplit(kernel, used);
    DriveConcat(o, r, [], done, kernel[..used]);
    DriveConcat(o, r, [], done + kernel[..used], last);
    DriveConcat(o, r, [], done + kernel[..used], last + rest);
    assert done + Reports(kernel) == done + kernel[..used] + last;
    assert done + Reports(kernel) + rest == done + kernel[..used] + (last + rest);
    assert (last + rest)[0] == last[0];
    assert used == |kernel| || kernel[used].Blocked? ==> last == [Blocked];
    assert last[1..] == [] || last[0].Wrote?;
  }
}
