/**
 The connection object of version 2.0 (version2.0/http/http_conn.cpp), parsing half: a fixed read buffer that is
 patched with NULs while it is scanned, and pointers into it. Each method is proved against HttpRequest.
 */
module HttpConn {
  import opened Chars
  import opened CStrings
  import opened Options
  import opened HttpRequest
  import RequestGrammar

  const READ_BUFFER_SIZE: nat := 2048

  /** The null pointer among the indices into the read buffer. */
  const NULL: int := -1

  class HttpConn {
    const readBuffer: array<char>
    var readIdx: nat
    var checkedIdx: nat
    var startLine: nat
    var checkState: CheckState
    var verb: Method
    var url: int       // m_url, m_version and m_host: an index into readBuffer, or NULL
    var version: int
    var host: int
    var linger: bool
    var contentLength: int

    ghost var received: string  // the bytes recv has delivered since init

    /** A pointer is null or points into the lines already taken, all of which are NUL-terminated. */
    ghost predicate Pointer(p: int)
      reads this
    {
      p == NULL || 0 <= p < startLine
    }

    ghost predicate Valid()
      reads this, readBuffer
    {
      && readBuffer.Length == READ_BUFFER_SIZE
      && startLine <= checkedIdx <= readIdx <= READ_BUFFER_SIZE
      && |received| == readIdx
      && (forall i :: startLine <= i < readIdx ==> readBuffer[i] == received[i])
      && (startLine > 0 ==> readBuffer[startLine - 1] == NUL && received[startLine - 1] != CR)
      && Pointer(url) && Pointer(version) && Pointer(host)
    }

    /** The string a pointer stands for. */
    ghost function StringAt(p: int): Option<string>
      requires -1 <= p <= readBuffer.Length
      reads readBuffer
    {
      if p == NULL then None else Some(CStr(readBuffer[..], p))
    }

    /** The parser state the fields describe. */
    ghost function Parsed(): Parser
      requires Valid()
      reads this, readBuffer
    {
      Parser(checkState, startLine, checkedIdx, verb, StringAt(url), StringAt(version), StringAt(host), linger,
             contentLength)
    }

    constructor ()
      ensures Valid() && fresh(readBuffer) && received == "" && Parsed() == FRESH
    {
      readBuffer := new char[READ_BUFFER_SIZE];
      readIdx, checkedIdx, startLine := 0, 0, 0;
      checkState, verb, url, version, host := RequestLine, GET, NULL, NULL, NULL;
      linger, contentLength := false, 0;
      received := "";
    }

    /** The private init(): forget everything about the previous request. */
    method Init()
      requires readBuffer.Length == READ_BUFFER_SIZE
      modifies this, readBuffer
      ensures Valid() && received == "" && Parsed() == FRESH
      ensures forall i :: 0 <= i < readBuffer.Length ==> readBuffer[i] == NUL
    {
      checkState := RequestLine;
      checkedIdx, startLine, readIdx := 0, 0, 0;
      verb, url, version, host, linger, contentLength := GET, NULL, NULL, NULL, false, 0;
      forall i | 0 <= i < readBuffer.Length {
        readBuffer[i] := NUL;
      }
      received := "";
    }

    /**
     read(): `data` is what the socket delivers before it would block. A buffer that is full, before or after,
     makes the call fail, because recv is then asked for zero bytes and its answer is taken for a hang-up.
     */
    method Read(data: string) returns (ok: bool)
      requires Valid()
      modifies this`readIdx, this`received, readBuffer
      ensures Valid()
      ensures ok <==> old(readIdx) + |data| < READ_BUFFER_SIZE
      ensures ok ==> received == old(received) + data
      ensures !ok ==> received == old(received) + data[..READ_BUFFER_SIZE - old(readIdx)]
      ensures Parsed() == old(Parsed())
    {
      if readIdx >= READ_BUFFER_SIZE {
        assert data[..0] == "";
        return false;
      }
      var n := if |data| < READ_BUFFER_SIZE - readIdx then |data| else READ_BUFFER_SIZE - readIdx;
      forall i | 0 <= i < n {
        readBuffer[readIdx + i] := data[i];
      }
      StringsKept(old(readBuffer[..]));
      received := received + data[..n];
      readIdx := readIdx + n;
      ok := readIdx < READ_BUFFER_SIZE;
      assert n == |data| ==> data[..n] == data;
    }

    /** Changes at or after startLine leave every string the fields point to alone. */
    lemma StringsKept(before: string)
      requires readBuffer.Length == |before| == READ_BUFFER_SIZE && startLine <= READ_BUFFER_SIZE
      requires forall i :: 0 <= i < startLine ==> readBuffer[i] == before[i]
      requires startLine > 0 ==> before[startLine - 1] == NUL
      ensures forall p :: 0 <= p < startLine ==> CStr(readBuffer[..], p) == CStr(before, p)
    {
      forall p | 0 <= p < startLine
        ensures CStr(readBuffer[..], p) == CStr(before, p)
      {
        CStrFrame(before, readBuffer[..], p, startLine - 1);
      }
    }

    /** parse_line(): advance m_checked_idx to the end of the line, and patch its terminator. */
    method ParseLine() returns (ok: bool)
      requires readBuffer.Length == READ_BUFFER_SIZE && checkedIdx <= readIdx <= READ_BUFFER_SIZE
      modifies this`checkedIdx, readBuffer
      ensures match Scan(old(readBuffer[..readIdx]), old(checkedIdx))
              case LineOk(e, n) =>
                ok && checkedIdx == n && (forall i :: e <= i < n ==> readBuffer[i] == NUL)
                && forall i :: 0 <= i < readBuffer.Length && !(e <= i < n) ==> readBuffer[i] == old(readBuffer[i])
              case LineBad(i) => !ok && checkedIdx == i && readBuffer[..] == old(readBuffer[..])
              case LineOpen(i) => !ok && checkedIdx == i && readBuffer[..] == old(readBuffer[..])
    {
      ghost var s, from := readBuffer[..readIdx], checkedIdx;
      while checkedIdx < readIdx
        invariant from <= checkedIdx <= readIdx
        invariant forall k :: from <= k < checkedIdx ==> s[k] !in {CR, LF}
        invariant readBuffer[..] == old(readBuffer[..])
      {
        var temp := readBuffer[checkedIdx];
        assert temp == s[checkedIdx];
        if temp == CR {
          FindFromIs(s, from, {CR, LF}, checkedIdx);
          if checkedIdx + 1 == readIdx {
            return false;
          } else if readBuffer[checkedIdx + 1] == LF {
            readBuffer[checkedIdx] := NUL;
            checkedIdx := checkedIdx + 1;
            readBuffer[checkedIdx] := NUL;
            checkedIdx := checkedIdx + 1;
            return true;
          }
          return false;
        } else if temp == LF {
          FindFromIs(s, from, {CR, LF}, checkedIdx);
          if checkedIdx > 1 && readBuffer[checkedIdx - 1] == CR {
            readBuffer[checkedIdx - 1] := NUL;
            readBuffer[checkedIdx] := NUL;
            checkedIdx := checkedIdx + 1;
            return true;
          }
          return false;
        }
        checkedIdx := checkedIdx + 1;
      }
      FindFromIs(s, from, {CR, LF}, checkedIdx);
      return false;
    }

    /** strpbrk(p, stop): the first character of the string at `p` that is in `stop`, or NULL. */
    function StrPBrk(p: nat, stop: set<char>): (i: int)
      requires p <= readBuffer.Length && NUL !in stop
      reads readBuffer
      ensures var text := CStr(readBuffer[..], p);
              var j := FindFrom(text, 0, stop);
              i == if j == |text| then NULL else p + j
    {
      FindInCStr(readBuffer[..], p, stop);
      var i := FindFrom(readBuffer[..], p, stop + {NUL});
      if i < readBuffer.Length && readBuffer[i] != NUL then i else NULL
    }

    /** Where a line that has been taken stands: between two NULs, after everything the fields point to. */
    ghost predicate TakenLine(text: nat)
      reads this, readBuffer
    {
      && text < startLine <= readBuffer.Length
      && (text > 0 ==> readBuffer[text - 1] == NUL)
      && readBuffer[startLine - 1] == NUL
      && url < text && version < text && host < text
    }

    /** A string that starts before startLine ends before it. */
    lemma StringEnds(p: nat)
      requires p < startLine <= readBuffer.Length && readBuffer[startLine - 1] == NUL
      ensures p + |CStr(readBuffer[..], p)| < startLine
      ensures readBuffer[p] == NUL <==> CStr(readBuffer[..], p) == ""
    {
    }

    /** Strings before a taken line survive changes inside it. */
    twostate lemma EarlierStringsKept(text: nat)
      requires text <= readBuffer.Length && (text > 0 ==> old(readBuffer[text - 1]) == NUL)
      requires forall i :: 0 <= i < text ==> readBuffer[i] == old(readBuffer[i])
      ensures forall p :: 0 <= p < text ==> CStr(readBuffer[..], p) == CStr(old(readBuffer[..]), p)
    {
      forall p | 0 <= p < text
        ensures CStr(readBuffer[..], p) == CStr(old(readBuffer[..]), p)
      {
        CStrFrame(old(readBuffer[..]), readBuffer[..], p, text - 1);
      }
    }

    lemma PathAt(p: nat)
      requires p < startLine <= readBuffer.Length && readBuffer[startLine - 1] == NUL
      ensures IsPath(Some(CStr(readBuffer[..], p))) <==> readBuffer[p] == '/'
    {
    }

    /** The http:// step of parse_request_line: move m_url to the path. */
    method DropAuthority()
      requires 0 <= url <= startLine - 1 < readBuffer.Length && readBuffer[startLine - 1] == NUL
      modifies this`url
      ensures Pointer(url) && StringAt(url) == ResolvedUrl(old(CStr(readBuffer[..], url)))
      ensures IsPath(StringAt(url)) <==> url != NULL && readBuffer[url] == '/'
    {
      hide CStr, CasePrefix, IsPath;
      StringEnds(url);
      if CasePrefix(CStr(readBuffer[..], url), "http://") {
        LongEnough(CStr(readBuffer[..], url));
        CStrDrop(readBuffer[..], url, 7);
        url := url + 7;
        ghost var rest := CStr(readBuffer[..], url);
        CStrDrop(readBuffer[..], url, FindFrom(rest, 0, {'/'}));
        url := StrPBrk(url, {'/'});
      }
      NoPath();
      if url != NULL {
        PathAt(url);
      }
    }

    lemma LongEnough(text: string)
      requires CasePrefix(text, "http://")
      ensures |text| >= 7
    {
    }

    lemma NoPath()
      ensures !IsPath(None)
    {
    }

    /** Cut the version off the string at m_url, if there is a blank before it. */
    method CutVersion(ghost text: nat) returns (found: bool)
      requires Valid() && text <= url < startLine
      requires text > 0 ==> readBuffer[text - 1] == NUL
      requires version < text && host < text
      modifies this`version, readBuffer
      ensures Valid() && (found ==> version != NULL)
      ensures var rest := old(CStr(readBuffer[..], url));
              var j := FindFrom(rest, 0, BLANKS);
              && (found <==> j < |rest|)
              && Parsed() == if found then old(Parsed()).(url := Some(rest[..j]), version := Some(rest[j + 1..]))
                             else old(Parsed()).(version := None)
    {
      hide CStr;
      ghost var b0 := readBuffer[..];
      StringEnds(url);
      version := StrPBrk(url, BLANKS);
      if version == NULL {
        return false;
      }
      readBuffer[version] := NUL;
      version := version + 1;
      assert readBuffer[..] == b0[version - 1 := NUL];
      CStrCut(b0, url, version - 1);
      EarlierStringsKept(text);
      return true;
    }

    /** The second half of parse_request_line: m_url stands after the method. */
    method ParseTarget(ghost text: nat) returns (v: Verdict)
      requires Valid() && text <= url < startLine
      requires text > 0 ==> readBuffer[text - 1] == NUL
      requires version < text && host < text
      modifies this`url, this`version, this`checkState, readBuffer
      ensures Valid()
      ensures (Parsed(), v) == HttpRequest.ParseTarget(old(Parsed()), old(CStr(readBuffer[..], url)))
    {
      hide CStr, CaseEqual, ResolvedUrl, IsPath;
      var found := CutVersion(text);
      if !found {
        return BadRequest;
      }
      if !CaseEqual(CStr(readBuffer[..], version), "HTTP/1.1") {
        return BadRequest;
      }
      DropAuthority();
      if url == NULL || readBuffer[url] != '/' {
        return BadRequest;
      }
      checkState := Header;
      return NoRequest;
    }

    /** Cut the method off the line at `text`, if there is a blank after it, and set m_url behind it. */
    method CutMethod(text: nat) returns (found: bool)
      requires Valid() && TakenLine(text)
      modifies this`url, readBuffer
      ensures Valid() && (text > 0 ==> readBuffer[text - 1] == NUL)
      ensures found ==> text <= url
      ensures var line := old(CStr(readBuffer[..], text));
              var i := FindFrom(line, 0, BLANKS);
              && (found <==> i < |line|)
              && (found ==> CStr(readBuffer[..], text) == line[..i] && CStr(readBuffer[..], url) == line[i + 1..])
              && Parsed() == old(Parsed()).(url := if found then Some(line[i + 1..]) else None)
    {
      hide CStr;
      ghost var b0 := readBuffer[..];
      StringEnds(text);
      url := StrPBrk(text, BLANKS);
      if url == NULL {
        return false;
      }
      readBuffer[url] := NUL;
      url := url + 1;
      assert readBuffer[..] == b0[url - 1 := NUL];
      CStrCut(b0, text, url - 1);
      EarlierStringsKept(text);
      return true;
    }

    /** The parts of a request line, one after the other. */
    method ParseParts(text: nat) returns (v: Verdict)
      requires Valid() && TakenLine(text)
      modifies this`url, this`version, this`verb, this`checkState, readBuffer
      ensures Valid()
      ensures (Parsed(), v) == HttpRequest.ParseRequestLine(old(Parsed()), old(CStr(readBuffer[..], text)))
    {
      hide CStr, CaseEqual, HttpRequest.ParseTarget;
      var found := CutMethod(text);
      if !found {
        return Fault;
      }
      if !CaseEqual(CStr(readBuffer[..], text), "GET") {
        return BadRequest;
      }
      verb := GET;
      v := ParseTarget(text);
    }

    /** parse_request_line(text): exactly the lines of the right form are taken. */
    method ParseRequestLine(text: nat) returns (v: Verdict)
      requires Valid() && TakenLine(text)
      modifies this`url, this`version, this`verb, this`checkState, readBuffer
      ensures Valid()
      ensures (Parsed(), v) == HttpRequest.ParseRequestLine(old(Parsed()), old(CStr(readBuffer[..], text)))
      ensures v == NoRequest <==> RequestGrammar.IsRequestLine(old(CStr(readBuffer[..], text)))
      ensures v == NoRequest || v == BadRequest || v == Fault
    {
      hide Valid, CStr, HttpRequest.ParseRequestLine, RequestGrammar.IsRequestLine;
      ghost var p, line := Parsed(), CStr(readBuffer[..], text);
      v := ParseParts(text);
      RequestGrammar.RequestLineAccepted(p, line);
    }

    /** text += n; text += strspn(text, " \t"): the value of a header whose name has `n` characters. */
    function HeaderValue(text: nat, n: nat): (p: nat)
      requires text <= readBuffer.Length && n <= |CStr(readBuffer[..], text)|
      reads readBuffer
      ensures p <= text + |CStr(readBuffer[..], text)|
      ensures CStr(readBuffer[..], p) == SkipBlanks(CStr(readBuffer[..], text)[n..])
    {
      PastPrefixIs(readBuffer[..], text, n);
      PastPrefix(readBuffer[..], text, n)
    }

    /** parse_headers(text) */
    method ParseHeaders(text: nat) returns (v: Verdict)
      requires Valid() && TakenLine(text)
      modifies this`checkState, this`linger, this`contentLength, this`host
      ensures Valid()
      ensures (Parsed(), v) == ParseHeaderLine(old(Parsed()), CStr(readBuffer[..], text))
    {
      hide CStr, CaseEqual, SkipBlanks, Atol, ToInt32, HeaderValue;
      StringEnds(text);
      if readBuffer[text] == NUL {
        if contentLength != 0 {
          checkState := Content;
          return NoRequest;
        }
        return GetRequest;
      } else if CasePrefix(CStr(readBuffer[..], text), CONNECTION) {
        var p := HeaderValue(text, 11);
        if CaseEqual(CStr(readBuffer[..], p), "keep-alive") {
          linger := true;
        }
      } else if CasePrefix(CStr(readBuffer[..], text), CONTENT_LENGTH) {
        var p := HeaderValue(text, 15);
        contentLength := ToInt32(Atol(CStr(readBuffer[..], p)));
      } else if CasePrefix(CStr(readBuffer[..], text), HOST) {
        host := HeaderValue(text, 5);
      }
      return NoRequest;
    }

    /** parse_line() followed by m_start_line = m_checked_idx: the next line is taken. */
    method TakeLine() returns (ok: bool, text: nat)
      requires Valid() && Resumable(received, Parsed())
      modifies this`checkedIdx, this`startLine, readBuffer
      ensures Valid()
      ensures match Scan(received, old(checkedIdx))
              case LineOk(e, n) =>
                ok && TakenLine(text) && n <= |received| && received[n - 1] != CR
                && CStr(readBuffer[..], text) == LineText(received, old(startLine), e)
                && Parsed() == old(Parsed()).(start := n, checked := n)
              case LineBad(i) => !ok && Parsed() == old(Parsed()).(checked := i)
              case LineOpen(i) => !ok && Parsed() == old(Parsed()).(checked := i)
    {
      hide Scan, LineText, CStr;
      ScanAgrees(readBuffer[..readIdx], received, checkedIdx);
      ok := ParseLine();
      text := startLine;
      if ok {
        StartNext(old(readBuffer[..]), checkedIdx - 2);
      }
    }

    /** m_start_line = m_checked_idx, after a line that ends before `end`; `before` is the buffer before its NULs. */
    method StartNext(ghost before: string, ghost end: nat)
      requires readBuffer.Length == |before| == READ_BUFFER_SIZE && |received| == readIdx <= READ_BUFFER_SIZE
      requires startLine <= end && end + 2 == checkedIdx <= readIdx
      requires Pointer(url) && Pointer(version) && Pointer(host)
      requires readBuffer[end] == NUL && readBuffer[end + 1] == NUL && received[end + 1] != CR
      requires forall i :: startLine <= i < readIdx && i != end && i != end + 1 ==> readBuffer[i] == received[i]
      requires forall i :: 0 <= i < startLine ==> readBuffer[i] == before[i]
      requires startLine > 0 ==> before[startLine - 1] == NUL
      modifies this`startLine
      ensures Valid() && TakenLine(old(startLine)) && startLine == checkedIdx
      ensures CStr(readBuffer[..], old(startLine)) == LineText(received, old(startLine), end)
      ensures forall p :: 0 <= p < old(startLine) ==> CStr(readBuffer[..], p) == CStr(before, p)
    {
      hide LineText, CStr;
      LineTextInBuffer(received, startLine, end, readBuffer[..]);
      StringsKept(before);
      startLine := checkedIdx;
    }

    /** The switch of process_read, for the first two states. */
    method ParseText(text: nat) returns (v: Verdict)
      requires Valid() && TakenLine(text) && checkState != Content
      modifies this`url, this`version, this`verb, this`checkState, this`linger, this`contentLength, this`host,
        readBuffer
      ensures Valid()
      ensures (Parsed(), v) == HttpRequest.ParseText(old(Parsed()), old(CStr(readBuffer[..], text)))
    {
      hide HttpRequest.ParseRequestLine, ParseHeaderLine, CStr, TakenLine;
      if checkState == RequestLine {
        v := ParseRequestLine(text);
      } else {
        v := ParseHeaders(text);
      }
    }

    /** process_read() */
    method ProcessRead() returns (v: Verdict)
      requires Valid() && Resumable(received, Parsed())
      modifies this`checkedIdx, this`startLine, this`checkState, this`verb, this`url, this`version, this`host,
        this`linger, this`contentLength, readBuffer
      ensures Valid() && Resumable(received, Parsed())
      ensures (Parsed(), v) == Process(received, old(Parsed()))
    {
      hide HttpRequest.ParseText, Scan, LineText, CStr, TakenLine;
      ghost var p0 := Parsed();
      ProcessKeepsResumable(received, p0);
      while true
        invariant Valid() && Resumable(received, Parsed())
        invariant Process(received, p0) == Process(received, Parsed())
        decreases readIdx - checkedIdx
      {
        if checkState == Content {
          return Body;
        }
        ghost var p := Parsed();
        var ok, text := TakeLine();
        if !ok {
          return NoRequest;
        }
        v := ParseText(text);
        if v != NoRequest {
          return;
        }
      }
    }

    /**
     Requests arriving in pieces: after init, each piece is read and process_read called, until one of the two
     ends it. Whatever the cut, the fields and the verdict are those of a single process_read on all the bytes.
     */
    method Receive(pieces: seq<string>) returns (ok: bool, v: Verdict)
      requires readBuffer.Length == READ_BUFFER_SIZE
      modifies this, readBuffer
      ensures Valid()
      ensures ok ==> (Parsed(), v) == Process(Concat(pieces), FRESH)
      ensures |Concat(pieces)| < READ_BUFFER_SIZE ==> ok
      ensures ok && v in {GetRequest, Body} ==> RequestGrammar.BeginsWithRequestLine(Concat(pieces))
    {
      hide Process, CStr, RequestGrammar.BeginsWithRequestLine;
      RequestGrammar.RequestNeedsRequestLine(Concat(pieces));
      Init();
      ok, v := true, NoRequest;
      SplitIndependence(pieces);
      for k := 0 to |pieces|
        invariant Valid() && Resumable(received, Parsed()) && ok && v == NoRequest
        invariant Feed("", FRESH, pieces) == Feed(received, Parsed(), pieces[k..])
        invariant |received| + |Concat(pieces[k..])| == |Concat(pieces)|
      {
        ok := Read(pieces[k]);
        if !ok {
          return;
        }
        assert pieces[k..][1..] == pieces[k + 1..];
        v := ProcessRead();
        if v != NoRequest {
          return;
        }
      }
      assert pieces[|pieces|..] == [];
    }
  }
}
