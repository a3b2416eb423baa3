/**
 The resumable request parser of version 2.0 as a function of the bytes received so far.

 The class HttpConn in HttpConn.dfy patches NULs into its read buffer and keeps pointers into it. Here the
 same machine reads the raw bytes and keeps strings, so that what it computes can be compared across
 different ways of receiving the bytes.
 */
module HttpRequest {
  import opened Chars
  import opened CStrings
  import opened Options

  /** CHECK_STATE: what the next complete line is taken for. */
  datatype CheckState = RequestLine | Header | Content

  datatype Method = GET | POST | HEAD | PUT | DELETE | TRACE | OPTIONS | CONNECT

  /**
   How a call of process_read ends. GetRequest stands for the call of do_request, Body for the call of the
   unfinished parse_content, Fault for the write through a null pointer when a request line has no blank.
   */
  datatype Verdict = NoRequest | GetRequest | BadRequest | Body | Fault

  datatype LineStatus =
    | LineOk(end: nat, next: nat)  // the line ends before `end`; the following one starts at `next`
    | LineBad(at: nat)
    | LineOpen(at: nat)

  datatype Parser = Parser(
    state: CheckState,
    start: nat,         // m_start_line
    checked: nat,       // m_checked_idx
    verb: Method,
    url: Option<string>,
    version: Option<string>,
    host: Option<string>,
    linger: bool,
    contentLength: int)

  const FRESH: Parser := Parser(RequestLine, 0, 0, GET, None, None, None, false, 0)

  /** parse_line: look for the end of the current line from index `from` on. */
  function Scan(s: string, from: nat): (r: LineStatus)
    requires from <= |s|
    ensures r.LineOk? ==> from < r.next <= |s| && r.end < r.next
    ensures r.LineBad? ==> from <= r.at <= |s|
    ensures r.LineOpen? ==> from <= r.at <= |s|
  {
    var i := FindFrom(s, from, {CR, LF});
    if i == |s| then LineOpen(i)
    else if s[i] == CR then
      if i + 1 == |s| then LineOpen(i)
      else if s[i + 1] == LF then LineOk(i, i + 2)
      else LineBad(i)
    else if i > 1 && s[i - 1] == CR then LineOk(i - 1, i + 1)
    else LineBad(i)
  }

  /** The path of a request target: an http:// prefix and the authority after it are dropped. */
  function ResolvedUrl(target: string): Option<string> {
    if CasePrefix(target, "http://") then
      var rest := target[7..];
      var i := FindFrom(rest, 0, {'/'});
      if i == |rest| then None else Some(rest[i..])
    else Some(target)
  }

  predicate IsPath(url: Option<string>) {
    url.Some? && url.value != "" && url.value[0] == '/'
  }

  /** parse_request_line, from the version test on; `rest` is what follows the method. */
  function ParseTarget(p: Parser, rest: string): (Parser, Verdict) {
    var j := FindFrom(rest, 0, BLANKS);
    if j == |rest| then (p.(url := Some(rest), version := None), BadRequest)
    else
      var version := rest[j + 1..];
      var q := p.(url := Some(rest[..j]), version := Some(version));
      if !CaseEqual(version, "HTTP/1.1") then (q, BadRequest)
      else
        var url := ResolvedUrl(rest[..j]);
        if IsPath(url) then (q.(url := url, state := Header), NoRequest)
        else (q.(url := url), BadRequest)
  }

  /** parse_request_line */
  function ParseRequestLine(p: Parser, text: string): (Parser, Verdict) {
    var i := FindFrom(text, 0, BLANKS);
    if i == |text| then (p.(url := None), Fault)
    else
      var rest := text[i + 1..];
      var q := p.(url := Some(rest));
      if CaseEqual(text[..i], "GET") then ParseTarget(q.(verb := GET), rest) else (q, BadRequest)
  }

  const CONNECTION: string := "Connection:"
  const CONTENT_LENGTH: string := "Content-Length:"
  const HOST: string := "Host:"

  /** parse_headers */
  function ParseHeaderLine(p: Parser, text: string): (Parser, Verdict) {
    if text == "" then
      if p.contentLength != 0 then (p.(state := Content), NoRequest) else (p, GetRequest)
    else if CasePrefix(text, CONNECTION) then
      if CaseEqual(SkipBlanks(text[11..]), "keep-alive") then (p.(linger := true), NoRequest) else (p, NoRequest)
    else if CasePrefix(text, CONTENT_LENGTH) then
      (p.(contentLength := ToInt32(Atol(SkipBlanks(text[15..])))), NoRequest)
    else if CasePrefix(text, HOST) then (p.(host := Some(SkipBlanks(text[5..]))), NoRequest)
    else (p, NoRequest)
  }

  function ParseText(p: Parser, text: string): (r: (Parser, Verdict))
    requires p.state != Content
    ensures r.0.start == p.start && r.0.checked == p.checked
  {
    if p.state == RequestLine then ParseRequestLine(p, text) else ParseHeaderLine(p, text)
  }

  /** The C string at the start of a line that ends before `end`. */
  function LineText(s: string, start: nat, end: nat): string
    requires end <= |s|
  {
    if start <= end then CStr(s[start..end], 0) else ""
  }

  /** A buffer that holds the line from `start` on and a NUL after it holds the line's C string there. */
  lemma LineTextInBuffer(s: string, start: nat, end: nat, b: string)
    requires start <= end <= |s| && end < |b| && b[end] == NUL
    requires forall k :: start <= k < end ==> b[k] == s[k]
    ensures CStr(b, start) == LineText(s, start, end)
  {
    var line := s[start..end];
    assert line == b[start..end];
    var j := FindFrom(line, 0, {NUL});
    assert forall k :: 0 <= k < |line| ==> b[start + k] == line[k];
    FindFromIs(b, start, {NUL}, start + j);
    assert b[start..start + j] == line[..j];
  }

  /** Two buffers that agree from the scanning position on scan alike. */
  lemma ScanAgrees(s: string, t: string, from: nat)
    requires from <= |s| == |t|
    requires forall k :: from <= k < |s| ==> s[k] == t[k]
    requires from > 0 ==> s[from - 1] != CR && t[from - 1] != CR
    ensures Scan(s, from) == Scan(t, from)
    ensures Scan(t, from).LineOk? ==> var e := Scan(t, from).end;
                                      from <= e && Scan(t, from).next == e + 2 && t[e + 1] == LF
  {
    FindFromIs(s, from, {CR, LF}, FindFrom(t, from, {CR, LF}));
  }

  /** process_read, called with `s` in the read buffer. */
  function Process(s: string, p: Parser): (r: (Parser, Verdict))
    requires p.checked <= |s|
    ensures p.checked <= r.0.checked <= |s|
    decreases |s| - p.checked
  {
    if p.state == Content then (p, Body)
    else
      match Scan(s, p.checked)
      case LineOpen(i) => (p.(checked := i), NoRequest)
      case LineBad(i) => (p.(checked := i), NoRequest)
      case LineOk(e, n) =>
        var r := ParseText(p.(start := n, checked := n), LineText(s, p.start, e));
        if r.1 != NoRequest then r else Process(s, r.0)
  }

  /** No call leaves the parser between a CR it has passed and the LF that follows. */
  predicate Resumable(s: string, p: Parser) {
    p.start <= p.checked <= |s| && (p.checked > 0 ==> s[p.checked - 1] != CR)
  }

  // ---------------------------------------------------------------------- receiving in pieces

  lemma ScanKeepsResumable(s: string, p: Parser)
    requires Resumable(s, p)
    ensures match Scan(s, p.checked)
            case LineOk(e, n) => s[n - 1] != CR
            case LineBad(i) => i > 0 ==> s[i - 1] != CR
            case LineOpen(i) => i > 0 ==> s[i - 1] != CR
  {
    var i := FindFrom(s, p.checked, {CR, LF});
  }

  lemma {:induction false} ProcessKeepsResumable(s: string, p: Parser)
    requires Resumable(s, p)
    ensures Resumable(s, Process(s, p).0)
    decreases |s| - p.checked
  {
    hide ParseText, Scan, LineText;
    if p.state != Content {
      ScanKeepsResumable(s, p);
      match Scan(s, p.checked)
      case LineOk(e, n) =>
        var r := ParseText(p.(start := n, checked := n), LineText(s, p.start, e));
        if r.1 == NoRequest {
          ProcessKeepsResumable(s, r.0);
        }
      case _ =>
    }
  }

  /** More bytes leave a complete or malformed line as it is; an open one is rescanned from where it stopped. */
  lemma ScanExtends(s: string, t: string, from: nat)
    requires from <= |s|
    ensures match Scan(s, from)
            case LineOpen(i) => Scan(s + t, i) == Scan(s + t, from) || (i > 0 && s[i - 1] == CR)
            case r => Scan(s + t, from) == r
  {
    var i := FindFrom(s, from, {CR, LF});
    var u := s + t;
    assert forall k :: 0 <= k < |s| ==> u[k] == s[k];
    if i < |s| {
      FindFromIs(u, from, {CR, LF}, i);
    } else {
      var j := FindFrom(u, i, {CR, LF});
      FindFromIs(u, from, {CR, LF}, j);
    }
  }

  lemma LineTextExtends(s: string, t: string, start: nat, end: nat)
    requires end <= |s|
    ensures LineText(s + t, start, end) == LineText(s, start, end)
  {
    if start <= end {
      assert (s + t)[start..end] == s[start..end];
    }
  }

  /** A first call that ends with a verdict is unaffected by later bytes; one that does not can be continued. */
  lemma {:induction false} ProcessExtends(s: string, t: string, p: Parser)
    requires Resumable(s, p)
    ensures var (q, v) := Process(s, p);
            Process(s + t, p) == if v != NoRequest then (q, v) else Process(s + t, q)
    decreases |s| - p.checked
  {
    hide ParseText, Scan, LineText;
    if p.state != Content {
      ScanExtends(s, t, p.checked);
      ProcessKeepsResumable(s, p);
      match Scan(s, p.checked)
      case LineOk(e, n) =>
        LineTextExtends(s, t, p.start, e);
        ScanKeepsResumable(s, p);
        var r := ParseText(p.(start := n, checked := n), LineText(s, p.start, e));
        if r.1 == NoRequest {
          ProcessExtends(s, t, r.0);
        }
      case LineBad(i) => ScanBadAgain(s + t, p.checked, i);
      case LineOpen(i) =>
    }
  }

  lemma ScanBadAgain(s: string, from: nat, i: nat)
    requires from <= |s| && Scan(s, from) == LineBad(i)
    ensures i < |s| && Scan(s, i) == LineBad(i)
  {
    FindFromIs(s, i, {CR, LF}, i);
  }

  function Concat(pieces: seq<string>): string {
    if pieces == [] then "" else pieces[0] + Concat(pieces[1..])
  }

  /** One process_read call per received piece, until a call returns something other than NoRequest. */
  function Feed(got: string, p: Parser, pieces: seq<string>): (Parser, Verdict)
    requires p.checked <= |got|
    decreases |pieces|
  {
    if pieces == [] then (p, NoRequest)
    else
      var s := got + pieces[0];
      var (q, v) := Process(s, p);
      if v != NoRequest then (q, v) else Feed(s, q, pieces[1..])
  }

  lemma {:induction false} FeedIsProcess(got: string, p: Parser, pieces: seq<string>)
    requires Resumable(got, p) && p.state != Content
    requires Process(got, p) == (p, NoRequest)
    ensures Feed(got, p, pieces) == Process(got + Concat(pieces), p)
    decreases |pieces|
  {
    hide ParseText;
    if pieces == [] {
      assert got + Concat(pieces) == got;
    } else {
      var s, rest := got + pieces[0], Concat(pieces[1..]);
      assert got + Concat(pieces) == s + rest;
      assert Resumable(s, p);
      var (q, v) := Process(s, p);
      ProcessExtends(s, rest, p);
      if v == NoRequest {
        ProcessKeepsResumable(s, p);
        ProcessAgain(s, p);
        FeedIsProcess(s, q, pieces[1..]);
      }
    }
  }

  /** Calling process_read again without new bytes changes nothing. */
  lemma ProcessAgain(s: string, p: Parser)
    requires Resumable(s, p)
    requires Process(s, p).1 == NoRequest
    ensures Process(s, Process(s, p).0) == Process(s, p)
    ensures Process(s, p).0.state != Content
  {
    ProcessExtends(s, "", p);
    assert s + "" == s;
  }

  /**
   Split independence: however the bytes are cut into pieces, the first verdict, every parsed field and the
   final m_checked_idx are those of a single call on all the bytes.
   */
  lemma SplitIndependence(pieces: seq<string>)
    ensures Feed("", FRESH, pieces) == Process(Concat(pieces), FRESH)
  {
    assert Process("", FRESH) == (FRESH, NoRequest);
    FeedIsProcess("", FRESH, pieces);
    assert "" + Concat(pieces) == Concat(pieces);
  }

  // ---------------------------------------------------------------------- line by line

  predicate IsLine(line: string) {
    CR !in line && LF !in line
  }

  function JoinLines(lines: seq<string>): string {
    if lines == [] then "" else lines[0] + "\r\n" + JoinLines(lines[1..])
  }

  /** The reference reading of a request: split it into CRLF-terminated lines and take them one at a time. */
  function ParseLines(p: Parser, lines: seq<string>): (Parser, Verdict)
    decreases |lines|
  {
    if p.state == Content then (p, Body)
    else if lines == [] then (p, NoRequest)
    else
      var n := p.start + |lines[0]| + 2;
      var r := ParseText(p.(start := n, checked := n), CStr(lines[0], 0));
      if r.1 != NoRequest then r else ParseLines(r.0, lines[1..])
  }

  lemma ScanLine(s: string, p: Parser, line: string)
    requires Resumable(s, p) && p.checked == p.start
    requires IsLine(line) && line + "\r\n" <= s[p.start..]
    ensures var e := p.start + |line|;
            e + 2 <= |s| && Scan(s, p.checked) == LineOk(e, e + 2) && LineText(s, p.start, e) == CStr(line, 0)
  {
    var e := p.start + |line|;
    HeadThenTail(s[p.start..], line, "\r\n");
    assert s[p.start..][|line|..] == s[e..];
    LiesAt(s, p.start, line);
    LiesAt(s, e, "\r\n");
    assert s[p.start..e] == line;
    hide LineText, CStr, Resumable;
    FindFromIs(s, p.start, {CR, LF}, e);
    LineTextOf(s, p.start, e);
  }

  /** A text that begins at `start`, character by character. */
  lemma LiesAt(s: string, start: nat, t: string)
    requires start <= |s| && t <= s[start..]
    ensures start + |t| <= |s| && forall k :: start <= k < start + |t| ==> s[k] == t[k - start]
  {
    assert forall k :: 0 <= k < |t| ==> s[start..][k] == t[k];
  }

  lemma LineTextOf(s: string, start: nat, end: nat)
    requires start <= end <= |s|
    ensures LineText(s, start, end) == CStr(s[start..end], 0)
  {
  }

  /** Where the first of several joined lines ends, and the others begin. */
  lemma JoinedLines(s: string, start: nat, lines: seq<string>)
    requires start <= |s| && lines != [] && JoinLines(lines) <= s[start..]
    ensures var n := start + |lines[0]| + 2;
            n <= |s| && s[n - 1] == LF
            && lines[0] + "\r\n" <= s[start..] && JoinLines(lines[1..]) <= s[n..]
  {
    var head, tail := lines[0] + "\r\n", JoinLines(lines[1..]);
    assert JoinLines(lines) == head + tail;
    hide JoinLines;
    HeadThenTail(s[start..], head, tail);
    EndsWith(s, start, head);
    assert s[start..][|head|..] == s[start + |head|..];
  }

  lemma EndsWith(s: string, start: nat, head: string)
    requires start <= |s| && head != "" && head <= s[start..]
    ensures start + |head| <= |s| && s[start + |head| - 1] == head[|head| - 1]
  {
    assert s[start..][|head| - 1] == s[start + |head| - 1];
  }

  /** process_read reads a buffer of complete lines exactly as the reference does. */
  lemma {:induction false} LineByLine(s: string, p: Parser, lines: seq<string>)
    requires Resumable(s, p) && p.checked == p.start
    requires forall l :: l in lines ==> IsLine(l)
    requires JoinLines(lines) <= s[p.start..]
    ensures var (q, v) := ParseLines(p, lines);
            q.checked <= |s| && Process(s, p) == if v != NoRequest then (q, v) else Process(s, q)
    decreases |lines|
  {
    hide ParseText, Scan, LineText, JoinLines, CStr;
    if p.state != Content && lines != [] {
      var line, n := lines[0], p.start + |lines[0]| + 2;
      JoinedLines(s, p.start, lines);
      ScanLine(s, p, line);
      var r := ParseText(p.(start := n, checked := n), CStr(line, 0));
      assert ParseLines(p, lines) == if r.1 != NoRequest then r else ParseLines(r.0, lines[1..]);
      if r.1 == NoRequest {
        LineByLine(s, r.0, lines[1..]);
      }
    }
  }

  /** The line that a call not ending at once reads first. */
  lemma FirstLine(s: string, p: Parser) returns (line: string)
    requires Resumable(s, p) && p.checked == p.start && p.state != Content
    requires Scan(s, p.checked).LineOk?
    ensures IsLine(line)
    ensures var n := p.start + |line| + 2;
            n <= |s| && s[p.start..n] == line + "\r\n" && s[n - 1] == LF
            && Scan(s, p.checked) == LineOk(n - 2, n) && LineText(s, p.start, n - 2) == CStr(line, 0)
  {
    var i := FindFrom(s, p.checked, {CR, LF});
    line := s[p.start..i];
    assert Scan(s, p.checked) == LineOk(i, i + 2);
    forall k | 0 <= k < |line|
      ensures line[k] != CR && line[k] != LF
    {
      assert line[k] == s[p.start + k];
    }
    assert s[p.start..i + 2] == line + "\r\n";
  }

  /** Conversely, whatever call ends with a verdict has read complete lines, and nothing beyond the last of them. */
  lemma {:induction false} VerdictReadsLines(s: string, p: Parser) returns (lines: seq<string>)
    requires Resumable(s, p) && p.checked == p.start
    requires Process(s, p).1 != NoRequest
    ensures forall l :: l in lines ==> IsLine(l)
    ensures s[p.start..Process(s, p).0.checked] == JoinLines(lines)
    ensures ParseLines(p, lines) == Process(s, p)
    decreases |s| - p.checked
  {
    hide ParseText, Scan, LineText, CStr, IsLine;
    if p.state == Content {
      lines := [];
    } else {
      var line := FirstLine(s, p);
      var n := p.start + |line| + 2;
      var r := ParseText(p.(start := n, checked := n), CStr(line, 0));
      var rest := [];
      if r.1 != NoRequest {
        NoLines(r.0.(state := Header));
      } else {
        rest := VerdictReadsLines(s, r.0);
      }
      lines := [line] + rest;
      FirstOfLines(p, line, rest);
      hide JoinLines, ParseLines;
      var c := Process(s, p).0.checked;
      assert s[p.start..c] == s[p.start..n] + s[n..c];
    }
  }

  lemma FirstOfLines(p: Parser, line: string, rest: seq<string>)
    requires p.state != Content
    ensures JoinLines([line] + rest) == line + "\r\n" + JoinLines(rest)
    ensures var n := p.start + |line| + 2;
            var r := ParseText(p.(start := n, checked := n), CStr(line, 0));
            ParseLines(p, [line] + rest) == if r.1 != NoRequest then r else ParseLines(r.0, rest)
  {
    hide ParseText, CStr;
    assert ([line] + rest)[1..] == rest;
  }

  // ---------------------------------------------------------------------- whole requests

  /** Text of a line that neither ends it nor cuts it short. */
  predicate IsText(t: string) {
    IsLine(t) && NUL !in t
  }

  lemma CStrOfText(t: string)
    requires NUL !in t
    ensures CStr(t, 0) == t
  {
    FindFromIs(t, 0, {NUL}, |t|);
  }

  /** "GET target HTTP/1.1", the given header lines, and a blank line, each ended by CRLF. */
  function RequestText(target: string, headers: seq<string>): string {
    JoinLines(["GET " + target + " HTTP/1.1"] + headers + [""])
  }

  predicate IsHeader(h: string) {
    h != "" && IsText(h)
  }

  /** The kinds of header in the order the code tests for them. */
  predicate IsConnection(h: string) { CasePrefix(h, CONNECTION) }
  predicate IsContentLength(h: string) { !IsConnection(h) && CasePrefix(h, CONTENT_LENGTH) }
  predicate IsHost(h: string) { !IsConnection(h) && !IsContentLength(h) && CasePrefix(h, HOST) }

  predicate AsksKeepAlive(h: string) {
    IsConnection(h) && CaseEqual(SkipBlanks(h[11..]), "keep-alive")
  }

  /** The value of the last Host header. */
  function HostOf(headers: seq<string>): Option<string> {
    if headers == [] then None
    else
      var h := headers[|headers| - 1];
      if IsHost(h) then Some(SkipBlanks(h[5..])) else HostOf(headers[..|headers| - 1])
  }

  /** The value of the last Content-Length header, zero without one. */
  function ContentLengthOf(headers: seq<string>): int {
    if headers == [] then 0
    else
      var h := headers[|headers| - 1];
      if IsContentLength(h) then ToInt32(Atol(SkipBlanks(h[15..]))) else ContentLengthOf(headers[..|headers| - 1])
  }

  predicate LingerOf(headers: seq<string>) {
    exists h :: h in headers && AsksKeepAlive(h)
  }

  lemma {:induction false} JoinLinesConcat(a: seq<string>, b: seq<string>)
    ensures JoinLines(a + b) == JoinLines(a) + JoinLines(b)
    decreases |a|
  {
    if a == [] {
      assert a + b == b;
    } else {
      JoinLinesConcat(a[1..], b);
      assert (a + b)[1..] == a[1..] + b;
    }
  }

  /** Reading lines in two goes. */
  lemma {:induction false} ParseLinesConcat(p: Parser, a: seq<string>, b: seq<string>)
    ensures var (q, v) := ParseLines(p, a);
            ParseLines(p, a + b) == if v != NoRequest then (q, v) else ParseLines(q, b)
    decreases |a|
  {
    hide ParseText;
    if a == [] {
      assert a + b == b;
    } else if p.state != Content {
      assert (a + b)[1..] == a[1..] + b;
      var n := p.start + |a[0]| + 2;
      var r := ParseText(p.(start := n, checked := n), CStr(a[0], 0));
      if r.1 == NoRequest {
        ParseLinesConcat(r.0, a[1..], b);
      }
    }
  }

  /** What one header line adds. */
  lemma HeaderRead(p: Parser, h: string)
    requires h != ""
    ensures ParseHeaderLine(p, h) ==
            (p.(host := if IsHost(h) then Some(SkipBlanks(h[5..])) else p.host,
                linger := p.linger || AsksKeepAlive(h),
                contentLength := if IsContentLength(h) then ToInt32(Atol(SkipBlanks(h[15..]))) else p.contentLength),
             NoRequest)
  {
    hide CasePrefix, SkipBlanks, Atol, ToInt32, CaseEqual;
  }

  /** A single line, read by the reference. */
  lemma OneLine(p: Parser, line: string)
    requires p.state != Content && NUL !in line
    ensures var n := p.start + |line| + 2;
            var r := ParseText(p.(start := n, checked := n), line);
            r.0.state != Content ==> ParseLines(p, [line]) == r
    ensures |JoinLines([line])| == |line| + 2
  {
    hide ParseText;
    CStrOfText(line);
    assert [line][1..] == [];
    assert JoinLines([line]) == line + "\r\n" + JoinLines([]);
  }

  /** Header lines add exactly the last host, the last content length and any keep-alive to a parser in state Header. */
  lemma {:induction false} HeadersRead(p: Parser, headers: seq<string>)
    requires p.state == Header && p.host == None && !p.linger && p.contentLength == 0
    requires forall h :: h in headers ==> IsHeader(h)
    ensures var n := p.start + |JoinLines(headers)|;
            ParseLines(p, headers) ==
            (if headers == [] then p
             else p.(start := n, checked := n, host := HostOf(headers), linger := LingerOf(headers),
                     contentLength := ContentLengthOf(headers)), NoRequest)
    decreases |headers|
  {
    hide ParseHeaderLine, ParseLines, IsConnection, IsHost, IsContentLength, AsksKeepAlive, SkipBlanks, Atol, ToInt32,
      JoinLines, HostOf, LingerOf, ContentLengthOf, IsHeader;
    if headers == [] {
      NoLines(p);
    } else {
      var k := |headers| - 1;
      var init, h := headers[..k], headers[k];
      assert headers == init + [h];
      NotBlank(h);
      HeadersRead(p, init);
      JoinLinesConcat(init, [h]);
      ParseLinesConcat(p, init, [h]);
      var q := ParseLines(p, init).0;
      if init == [] {
        NoLines(p);
        NoHeaders();
      }
      HeaderRead(q.(start := q.start + |h| + 2, checked := q.start + |h| + 2), h);
      OneLine(q, h);
      LastHeader(headers);
    }
  }

  lemma NotBlank(h: string)
    requires IsHeader(h)
    ensures h != "" && NUL !in h
  {
  }

  /** What the last header adds to the others. */
  lemma LastHeader(headers: seq<string>)
    requires headers != []
    ensures var init, h := headers[..|headers| - 1], headers[|headers| - 1];
            && HostOf(headers) == (if IsHost(h) then Some(SkipBlanks(h[5..])) else HostOf(init))
            && ContentLengthOf(headers)
               == (if IsContentLength(h) then ToInt32(Atol(SkipBlanks(h[15..]))) else ContentLengthOf(init))
            && (LingerOf(headers) <==> LingerOf(init) || AsksKeepAlive(h))
  {
    hide IsHost, IsContentLength, AsksKeepAlive, SkipBlanks, Atol, ToInt32;
    assert headers == headers[..|headers| - 1] + [headers[|headers| - 1]];
  }

  lemma NoLines(p: Parser)
    requires p.state != Content
    ensures ParseLines(p, []) == (p, NoRequest) && JoinLines([]) == ""
  {
  }

  /** "GET target HTTP/1.1" selects the target's path, or is refused when it has none. */
  lemma RequestLineRead(p: Parser, target: string)
    requires p.state == RequestLine && p.verb == GET
    requires BLANKS !! set c | c in target
    ensures var url := ResolvedUrl(target);
            ParseRequestLine(p, "GET " + target + " HTTP/1.1") ==
            if IsPath(url) then (p.(url := url, version := Some("HTTP/1.1"), state := Header), NoRequest)
            else (p.(url := url, version := Some("HTTP/1.1")), BadRequest)
  {
    hide CaseEqual, ResolvedUrl, IsPath;
    var rest := target + " HTTP/1.1";
    var text := "GET " + target + " HTTP/1.1";
    assert text[..3] == "GET" && text[4..] == rest;
    FindFromIs(text, 0, BLANKS, 3);
    TargetEnds(target);
    SameText("GET");
    SameText("HTTP/1.1");
  }

  /** The first blank after a target without blanks. */
  lemma TargetEnds(target: string)
    requires BLANKS !! set c | c in target
    ensures var rest := target + " HTTP/1.1";
            && FindFrom(rest, 0, BLANKS) == |target|
            && rest[..|target|] == target && rest[|target| + 1..] == "HTTP/1.1"
  {
    var rest := target + " HTTP/1.1";
    forall k | 0 <= k < |target|
      ensures rest[k] !in BLANKS
    {
      assert rest[k] == target[k] && target[k] in set c | c in target;
    }
    FindFromIs(rest, 0, BLANKS, |target|);
  }

  lemma SameText(t: string)
    ensures CaseEqual(t, t)
  {
  }

  /** What the reference makes of a request written out line by line. */
  lemma RequestLinesRead(target: string, headers: seq<string>)
    requires IsText(target) && BLANKS !! (set c | c in target) && IsPath(ResolvedUrl(target))
    requires forall h :: h in headers ==> IsHeader(h)
    ensures ParseLines(FRESH, ["GET " + target + " HTTP/1.1"] + headers + [""]) == RequestParsed(target, headers)
  {
    hide ParseLines, JoinLines, ResolvedUrl, HostOf, LingerOf, ContentLengthOf, IsPath, ParseRequestLine;
    var first := "GET " + target + " HTTP/1.1";
    RequestLineRead(FRESH.(start := |first| + 2, checked := |first| + 2), target);
    OneLine(FRESH, first);
    var p := FRESH.(start := |first| + 2, checked := |first| + 2, url := ResolvedUrl(target),
                    version := Some("HTTP/1.1"), state := Header);
    ParseLinesConcat(FRESH, [first], headers);
    HeadersRead(p, headers);
    ParseLinesConcat(FRESH, [first] + headers, [""]);
    if headers == [] {
      NoHeaders();
    }
    JoinLinesConcat([first] + headers, [""]);
    JoinLinesConcat([first], headers);
    BlankLine(ParseLines(FRESH, [first] + headers).0);
  }

  lemma NoHeaders()
    ensures JoinLines([]) == "" && HostOf([]) == None && !LingerOf([]) && ContentLengthOf([]) == 0
  {
  }

  lemma BlankLine(q: Parser)
    requires q.state == Header
    ensures var n := q.start + 2;
            ParseLines(q, [""]) ==
            if q.contentLength == 0 then (q.(start := n, checked := n), GetRequest)
            else (q.(start := n, checked := n, state := Content), Body)
    ensures |JoinLines([""])| == 2
  {
    CStrOfText("");
    assert [""][1..] == [];
    assert JoinLines([""]) == "" + "\r\n" + JoinLines([]);
  }

  /** The parser and the verdict that a written-out request must lead to. */
  function RequestParsed(target: string, headers: seq<string>): (Parser, Verdict) {
    var n := |RequestText(target, headers)|;
    var length := ContentLengthOf(headers);
    (Parser(if length == 0 then Header else Content, n, n, GET, ResolvedUrl(target), Some("HTTP/1.1"),
            HostOf(headers), LingerOf(headers), length),
     if length == 0 then GetRequest else Body)
  }

  /**
   Round trip: a request written out line by line is read back exactly. The path, the version, the last host
   and the keep-alive wish come out, the call ends at do_request (at parse_content when a content length was
   given), and the scan stops right after the blank line whatever bytes follow.
   */
  lemma RequestRoundTrip(target: string, headers: seq<string>, rest: string)
    requires IsText(target) && BLANKS !! (set c | c in target) && IsPath(ResolvedUrl(target))
    requires forall h :: h in headers ==> IsHeader(h)
    ensures Process(RequestText(target, headers) + rest, FRESH) == RequestParsed(target, headers)
  {
    hide ParseLines, JoinLines, RequestParsed, Process, ResolvedUrl, IsPath;
    var first := "GET " + target + " HTTP/1.1";
    var lines := [first] + headers + [""];
    var s := RequestText(target, headers) + rest;
    assert JoinLines(lines) <= s[0..];
    assert IsLine(first);
    assert forall l :: l in lines ==> IsLine(l);
    LineByLine(s, FRESH, lines);
    RequestLinesRead(target, headers);
    Verdicts(target, headers);
  }

  lemma Verdicts(target: string, headers: seq<string>)
    ensures RequestParsed(target, headers).1 != NoRequest
  {
  }

  /** Both together: a written-out request is read back however the network cuts it. */
  lemma RequestInPieces(target: string, headers: seq<string>, rest: string, pieces: seq<string>)
    requires IsText(target) && BLANKS !! (set c | c in target) && IsPath(ResolvedUrl(target))
    requires forall h :: h in headers ==> IsHeader(h)
    requires Concat(pieces) == RequestText(target, headers) + rest
    ensures Feed("", FRESH, pieces) == RequestParsed(target, headers)
  {
    SplitIndependence(pieces);
    RequestRoundTrip(target, headers, rest);
  }
}
