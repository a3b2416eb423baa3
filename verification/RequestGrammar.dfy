/**
 Which requests the version 2.0 parser takes (version2.0/http/http_conn.cpp), spelled out character by character and
 apart from the functions that compute it.
 */
module RequestGrammar {
  import opened Chars
  import opened CStrings
  import opened Decimal
  import opened HttpRequest
  import opened Options

  // ---------------------------------------------------------------------- characters and words

  predicate IsBlank(c: char) {
    c == ' ' || c == '\t'
  }

  /** The word `w`, which has no capital letters, with any of its letters capital. */
  predicate Spells(s: string, w: string) {
    && |s| == |w|
    && forall i :: 0 <= i < |s| ==>
         s[i] == w[i] || ('a' <= w[i] <= 'z' && s[i] as int == w[i] as int - 32)
  }

  predicate Plain(w: string) {
    forall i :: 0 <= i < |w| ==> !('A' <= w[i] <= 'Z')
  }

  /** strcasecmp with a text that spells `w` is the question whether the other spells it as well. */
  lemma CaseEqualSpells(s: string, t: string, w: string)
    requires Plain(w) && Spells(t, w)
    ensures CaseEqual(s, t) <==> Spells(s, w)
  {
    if |s| == |t| {
      forall i | 0 <= i < |s|
        ensures Lower(s[i]) == Lower(t[i])
                <==> s[i] == w[i] || ('a' <= w[i] <= 'z' && s[i] as int == w[i] as int - 32)
      {
        LowerMeans(t[i], w[i]);
        LowerMeans(s[i], w[i]);
      }
    }
  }

  lemma LowerMeans(c: char, d: char)
    requires !('A' <= d <= 'Z')
    ensures Lower(c) == d <==> (c == d || ('a' <= d <= 'z' && c as int == d as int - 32))
  {
  }

  /** Three letters, in either case. */
  predicate IsGet(m: string) {
    |m| == 3 && (m[0] == 'g' || m[0] == 'G') && (m[1] == 'e' || m[1] == 'E') && (m[2] == 't' || m[2] == 'T')
  }

  predicate IsHttp11(v: string) {
    && |v| == 8
    && (v[0] == 'h' || v[0] == 'H') && (v[1] == 't' || v[1] == 'T')
    && (v[2] == 't' || v[2] == 'T') && (v[3] == 'p' || v[3] == 'P')
    && v[4] == '/' && v[5] == '1' && v[6] == '.' && v[7] == '1'
  }

  /** The target begins with http:// in either case. */
  predicate HasScheme(t: string) {
    && |t| >= 7
    && (t[0] == 'h' || t[0] == 'H') && (t[1] == 't' || t[1] == 'T')
    && (t[2] == 't' || t[2] == 'T') && (t[3] == 'p' || t[3] == 'P')
    && t[4] == ':' && t[5] == '/' && t[6] == '/'
  }

  /** Where the path of a target begins: at its own slash, or at the first one behind the authority. */
  predicate PathAt(t: string, k: nat) {
    && k < |t| && t[k] == '/'
    && if HasScheme(t) then 7 <= k && forall i :: 7 <= i < k ==> t[i] != '/' else k == 0
  }

  // ---------------------------------------------------------------------- the request line

  /** The blanks at `i` and `j` are the first two of the line, around a target whose path begins at its `k`. */
  predicate RequestLineAt(text: string, i: nat, j: nat, k: nat) {
    && i < j < |text| && IsBlank(text[i]) && IsBlank(text[j])
    && (forall m :: 0 <= m < i ==> !IsBlank(text[m])) && (forall m :: i < m < j ==> !IsBlank(text[m]))
    && IsGet(text[..i]) && PathAt(text[i + 1..j], k) && IsHttp11(text[j + 1..])
  }

  ghost predicate IsRequestLine(text: string) {
    exists i: nat, j: nat, k: nat :: RequestLineAt(text, i, j, k)
  }

  lemma SchemePrefix(t: string)
    ensures CasePrefix(t, "http://") <==> HasScheme(t)
  {
    if |t| >= 7 {
      CaseEqualSpells(t[..7], "http://", "http://");
    }
  }

  /** The path found is the one that lies there, and there is one exactly when one is found. */
  lemma TargetPath(t: string)
    ensures forall k: nat :: PathAt(t, k) ==> ResolvedUrl(t) == Some(t[k..])
    ensures IsPath(ResolvedUrl(t)) <==> exists k: nat :: PathAt(t, k)
  {
    SchemePrefix(t);
    if HasScheme(t) {
      var rest := t[7..];
      var i := FindFrom(rest, 0, {'/'});
      assert forall m :: 0 <= m < |rest| ==> rest[m] == t[m + 7];
      if i < |rest| {
        assert PathAt(t, i + 7) && rest[i..] == t[i + 7..];
      }
      forall k: nat | PathAt(t, k)
        ensures i == k - 7
      {
        FindFromIs(rest, 0, {'/'}, k - 7);
      }
    } else if t != "" && t[0] == '/' {
      assert PathAt(t, 0) && t[0..] == t;
    }
  }

  lemma GetMeans(m: string)
    ensures CaseEqual(m, "GET") <==> IsGet(m)
  {
    CaseEqualSpells(m, "GET", "get");
  }

  lemma Http11Means(v: string)
    ensures CaseEqual(v, "HTTP/1.1") <==> IsHttp11(v)
  {
    CaseEqualSpells(v, "HTTP/1.1", "http/1.1");
  }

  lemma FirstBlankIs(s: string, i: nat)
    requires i < |s| && IsBlank(s[i]) && forall m :: 0 <= m < i ==> !IsBlank(s[m])
    ensures FindFrom(s, 0, BLANKS) == i
  {
    FindFromIs(s, 0, BLANKS, i);
  }

  /** Only one way to read a line. */
  lemma RequestLineIsRead(p: Parser, text: string, i: nat, j: nat, k: nat)
    requires RequestLineAt(text, i, j, k)
    ensures ParseRequestLine(p, text)
         == (p.(verb := GET, url := Some(text[i + 1 + k..j]), version := Some(text[j + 1..]), state := Header),
             NoRequest)
  {
    hide CaseEqual, ResolvedUrl, IsGet, IsHttp11, PathAt;
    var rest, m := text[i + 1..], j - i - 1;
    FirstBlankIs(text, i);
    FirstBlankIs(rest, m);
    assert rest[..m] == text[i + 1..j] && rest[m + 1..] == text[j + 1..];
    GetMeans(text[..i]);
    Http11Means(text[j + 1..]);
    PathInside(text[i + 1..j], k);
    assert text[i + 1..j][k..] == text[i + 1 + k..j];
  }

  lemma PathInside(t: string, k: nat)
    requires PathAt(t, k)
    ensures k < |t| && ResolvedUrl(t) == Some(t[k..]) && IsPath(Some(t[k..]))
  {
    TargetPath(t);
  }

  /** A line that passes has the form. */
  lemma PassedHasForm(p: Parser, text: string)
    requires ParseRequestLine(p, text).1 == NoRequest
    ensures IsRequestLine(text)
  {
    hide CaseEqual, ResolvedUrl, IsPath, IsGet, IsHttp11, PathAt;
    var i := FindFrom(text, 0, BLANKS);
    var rest := text[i + 1..];
    var j := i + 1 + FindFrom(rest, 0, BLANKS);
    TwoBlanks(text, i, j);
    GetMeans(text[..i]);
    Http11Means(text[j + 1..]);
    TargetPath(text[i + 1..j]);
    var k: nat :| PathAt(text[i + 1..j], k);
    assert RequestLineAt(text, i, j, k);
  }

  lemma TwoBlanks(text: string, i: nat, j: nat)
    requires i == FindFrom(text, 0, BLANKS) < |text| && j == i + 1 + FindFrom(text[i + 1..], 0, BLANKS) < |text|
    ensures IsBlank(text[i]) && IsBlank(text[j])
    ensures (forall m :: 0 <= m < i ==> !IsBlank(text[m])) && (forall m :: i < m < j ==> !IsBlank(text[m]))
    ensures text[i + 1..][..j - i - 1] == text[i + 1..j] && text[i + 1..][j - i..] == text[j + 1..]
  {
    var rest := text[i + 1..];
    BlankFound(text, 0);
    BlankFound(rest, 0);
    hide FindFrom;
    assert forall n :: i < n < |text| ==> text[n] == rest[n - i - 1];
    SlicesBehind(text, i, j);
  }

  lemma BlankFound(s: string, from: nat)
    requires from <= |s|
    ensures var i := FindFrom(s, from, BLANKS);
            (forall m :: from <= m < i ==> !IsBlank(s[m])) && (i < |s| ==> IsBlank(s[i]))
  {
  }

  lemma SlicesBehind(text: string, i: nat, j: nat)
    requires i < j < |text|
    ensures text[i + 1..][..j - i - 1] == text[i + 1..j] && text[i + 1..][j - i..] == text[j + 1..]
  {
  }

  /**
   The request line, for every text: without a blank it makes the code write through a null pointer, and with one it
   is taken if and only if it has the form, and refused otherwise.
   */
  lemma RequestLineAccepted(p: Parser, text: string)
    ensures var v := ParseRequestLine(p, text).1;
            && (v == Fault <==> forall m :: 0 <= m < |text| ==> !IsBlank(text[m]))
            && (v == NoRequest <==> IsRequestLine(text))
            && (v == NoRequest || v == BadRequest || v == Fault)
  {
    if ParseRequestLine(p, text).1 == NoRequest {
      PassedHasForm(p, text);
    }
    forall i: nat, j: nat, k: nat | RequestLineAt(text, i, j, k)
      ensures ParseRequestLine(p, text).1 == NoRequest
    {
      RequestLineIsRead(p, text, i, j, k);
    }
  }

  // ---------------------------------------------------------------------- whole calls

  /** Once the request line is taken, nothing is refused any more. */
  lemma {:induction false} HeaderVerdicts(s: string, p: Parser)
    requires p.checked <= |s| && p.state != RequestLine
    ensures Process(s, p).1 in {NoRequest, GetRequest, Body}
    decreases |s| - p.checked
  {
    hide LineText, Scan, ParseHeaderLine;
    if p.state == Header {
      match Scan(s, p.checked)
      case LineOk(e, n) =>
        var line := LineText(s, p.start, e);
        var q := p.(start := n, checked := n);
        HeaderLineVerdict(q, line);
        var r := ParseText(q, line);
        if r.1 == NoRequest {
          HeaderVerdicts(s, r.0);
        }
      case _ =>
    }
  }

  lemma HeaderLineVerdict(p: Parser, text: string)
    ensures ParseHeaderLine(p, text).1 == if text == "" && p.contentLength == 0 then GetRequest else NoRequest
    ensures ParseHeaderLine(p, text).0.state == if text == "" && p.contentLength != 0 then Content else p.state
  {
    hide CasePrefix, CaseEqual, SkipBlanks, Atol, ToInt32;
  }

  /**
   The first line decides: whatever follows it, the request faults if the line has no blank, is refused if it has
   one but not the form, and otherwise is neither.
   */
  lemma FirstLineDecides(line: string, rest: string)
    requires IsLine(line)
    ensures var text, v := CStr(line, 0), Process(line + "\r\n" + rest, FRESH).1;
            && (v == Fault <==> forall m :: 0 <= m < |text| ==> !IsBlank(text[m]))
            && (v == BadRequest <==> !IsRequestLine(text) && exists m :: 0 <= m < |text| && IsBlank(text[m]))
  {
    hide IsRequestLine, IsBlank, IsLine, CStr, Scan, LineText, ParseRequestLine;
    var s := line + "\r\n" + rest;
    assert s[0..] == s;
    ScanLine(s, FRESH, line);
    var n := |line| + 2;
    var p := FRESH.(start := n, checked := n);
    RequestLineAccepted(p, CStr(line, 0));
    var r := ParseRequestLine(p, CStr(line, 0));
    if r.1 == NoRequest {
      PassesToHeader(p, CStr(line, 0));
      HeaderVerdicts(s, r.0);
    }
  }

  lemma PassesToHeader(p: Parser, text: string)
    requires ParseRequestLine(p, text).1 == NoRequest
    ensures ParseRequestLine(p, text).0.state == Header
    ensures var q := ParseRequestLine(p, text).0;
            q.start == p.start && q.checked == p.checked
  {
    hide CaseEqual, ResolvedUrl, IsPath;
  }

  /** Every verdict is about a complete first line, and only a good one leads to a request. */
  lemma VerdictNeedsFirstLine(s: string) returns (line: string, rest: string)
    requires Process(s, FRESH).1 != NoRequest
    ensures IsLine(line) && s == line + "\r\n" + rest
    ensures Process(s, FRESH).1 in {GetRequest, Body} ==> IsRequestLine(CStr(line, 0))
  {
    hide IsRequestLine, IsBlank, IsLine, CStr, ParseText, LineText;
    line := FirstLine(s, FRESH);
    rest := s[|line| + 2..];
    assert s == s[0..|line| + 2] + rest;
    FirstLineDecides(line, rest);
  }

  /** The text begins with a complete request line of the right form. */
  ghost predicate BeginsWithRequestLine(s: string) {
    exists line :: IsLine(line) && line + "\r\n" <= s && IsRequestLine(CStr(line, 0))
  }

  /** Only such a text leads to a request. */
  lemma RequestNeedsRequestLine(s: string)
    ensures Process(s, FRESH).1 in {GetRequest, Body} ==> BeginsWithRequestLine(s)
  {
    hide IsRequestLine, IsLine, CStr, Process;
    if Process(s, FRESH).1 in {GetRequest, Body} {
      var line, rest := VerdictNeedsFirstLine(s);
      assert line + "\r\n" <= s;
    }
  }

  /** A line break that is not CRLF stops the parser for good. */
  lemma BareBreakStops(line: string, bare: string, rest: string)
    requires IsLine(line)
    requires bare == "\n" || (|bare| == 2 && bare[0] == CR && bare[1] != LF)
    ensures Process(line + bare + rest, FRESH).1 == NoRequest
  {
    var s := line + bare + rest;
    assert forall k :: 0 <= k < |line| ==> s[k] == line[k];
    FindFromIs(s, 0, {CR, LF}, |line|);
    assert s[|line|] == bare[0] && (|bare| == 2 ==> s[|line| + 1] == bare[1]);
  }

  // ---------------------------------------------------------------------- header lines

  lemma PrefixSpells(h: string, name: string, w: string)
    requires Plain(w) && Spells(name, w)
    ensures CasePrefix(h, name) <==> |h| >= |w| && Spells(h[..|w|], w)
  {
    hide CaseEqual;
    if |h| >= |w| {
      CaseEqualSpells(h[..|w|], name, w);
    }
  }

  /** Two names that differ in a letter are not spelled alike. */
  lemma SpelledOnce(h: string, v: string, w: string, k: nat)
    requires k < |v| <= |h| && k < |w| <= |h| && Plain(v) && Plain(w) && v[k] != w[k]
    ensures !(Spells(h[..|v|], v) && Spells(h[..|w|], w))
  {
    assert h[..|v|][k] == h[k] == h[..|w|][k];
  }

  /** The three header names, in any mixture of case. */
  lemma ConnectionMeans(h: string)
    ensures IsConnection(h) <==> |h| >= 11 && Spells(h[..11], "connection:")
  {
    PrefixSpells(h, CONNECTION, "connection:");
  }

  lemma ContentLengthMeans(h: string)
    ensures IsContentLength(h) <==> |h| >= 15 && Spells(h[..15], "content-length:")
  {
    hide CasePrefix;
    ConnectionMeans(h);
    PrefixSpells(h, CONTENT_LENGTH, "content-length:");
    if |h| >= 15 {
      SpelledOnce(h, "connection:", "content-length:", 3);
    }
  }

  lemma HostMeans(h: string)
    ensures IsHost(h) <==> |h| >= 5 && Spells(h[..5], "host:")
  {
    hide CasePrefix, IsConnection, IsContentLength;
    ConnectionMeans(h);
    ContentLengthMeans(h);
    PrefixSpells(h, HOST, "host:");
    hide Spells;
    if |h| >= 15 {
      SpelledOnce(h, "content-length:", "host:", 0);
    }
    if |h| >= 11 {
      SpelledOnce(h, "connection:", "host:", 0);
    }
  }

  /** The value of a header, behind the blanks after its name. */
  lemma ValueBehindBlanks(blanks: string, value: string)
    requires (forall i :: 0 <= i < |blanks| ==> IsBlank(blanks[i])) && (value != "" ==> !IsBlank(value[0]))
    ensures SkipBlanks(blanks + value) == value
  {
    var s := blanks + value;
    var n := BlankCount(s);
    assert forall i :: 0 <= i < |blanks| ==> s[i] == blanks[i];
    if value != "" {
      assert s[|blanks|] == value[0];
    }
  }

  /** The last Host header decides, and without one there is no host. */
  lemma {:induction false} LastHostDecides(headers: seq<string>, i: nat)
    requires i <= |headers| && forall j :: i <= j < |headers| ==> !IsHost(headers[j])
    ensures i == 0 ==> HostOf(headers) == None
    ensures i > 0 && IsHost(headers[i - 1]) ==> HostOf(headers) == Some(SkipBlanks(headers[i - 1][5..]))
    decreases |headers|
  {
    hide IsHost, SkipBlanks;
    if i < |headers| {
      LastHostDecides(headers[..|headers| - 1], i);
    }
  }

  /** So does the last Content-Length header. */
  lemma {:induction false} LastLengthDecides(headers: seq<string>, i: nat)
    requires i <= |headers| && forall j :: i <= j < |headers| ==> !IsContentLength(headers[j])
    ensures i == 0 ==> ContentLengthOf(headers) == 0
    ensures i > 0 && IsContentLength(headers[i - 1]) ==>
              ContentLengthOf(headers) == ToInt32(Atol(SkipBlanks(headers[i - 1][15..])))
    decreases |headers|
  {
    hide IsContentLength, SkipBlanks, Atol, ToInt32;
    if i < |headers| {
      LastLengthDecides(headers[..|headers| - 1], i);
    }
  }

  lemma KeepAliveMeans(value: string)
    ensures CaseEqual(value, "keep-alive") <==> Spells(value, "keep-alive")
  {
    CaseEqualSpells(value, "keep-alive", "keep-alive");
  }

  /** A number read by atol, up to the first character that is no digit. */
  lemma {:induction false} DigitsAreRead(s: string, rest: string)
    requires (forall i :: 0 <= i < |s| ==> IsDigit(s[i])) && (rest != "" ==> !IsDigit(rest[0]))
    ensures DigitsValue(s + rest, 0) == NaturalValue(s)
  {
    DigitsOnto(s, rest, 0);
    NaturalOnto(s);
  }

  lemma {:induction false} DigitsOnto(s: string, rest: string, acc: nat)
    requires (forall i :: 0 <= i < |s| ==> IsDigit(s[i])) && (rest != "" ==> !IsDigit(rest[0]))
    ensures DigitsValue(s + rest, acc) == DigitsValue(s, acc)
    decreases |s|
  {
    if s == "" {
      assert s + rest == rest;
    } else {
      assert (s + rest)[1..] == s[1..] + rest;
      DigitsOnto(s[1..], rest, 10 * acc + (s[0] as int - '0' as int));
    }
  }

  lemma {:induction false} NaturalOnto(s: string)
    requires forall i :: 0 <= i < |s| ==> IsDigit(s[i])
    ensures DigitsValue(s, 0) == NaturalValue(s)
    decreases |s|
  {
    if s != "" {
      var k := |s| - 1;
      NaturalOnto(s[..k]);
      LastDigitOnto(s[..k], s[k], 0);
      assert s == s[..k] + [s[k]];
    }
  }

  lemma {:induction false} LastDigitOnto(s: string, d: char, acc: nat)
    requires (forall i :: 0 <= i < |s| ==> IsDigit(s[i])) && IsDigit(d)
    ensures DigitsValue(s + [d], acc) == 10 * DigitsValue(s, acc) + (d as int - '0' as int)
    decreases |s|
  {
    if s == "" {
      assert s + [d] == [d] && [d][1..] == "";
    } else {
      assert (s + [d])[1..] == s[1..] + [d];
      LastDigitOnto(s[1..], d, 10 * acc + (s[0] as int - '0' as int));
    }
  }

  function Clamped(v: int): int {
    if v < -0x8000_0000_0000_0000 then -0x8000_0000_0000_0000
    else if v > 0x7fff_ffff_ffff_ffff then 0x7fff_ffff_ffff_ffff
    else v
  }

  /** A number with or without a sign, and with no white space before it. */
  lemma AtolOfNumber(u: string)
    requires u != "" && IsDigit(u[0])
    ensures var v: int := DigitsValue(u, 0);
            Atol(u) == Clamped(v) && Atol("-" + u) == Clamped(-v) && Atol("+" + u) == Clamped(v)
  {
    hide DigitsValue;
    assert ("-" + u)[1..] == u && ("+" + u)[1..] == u;
  }

  /** atol reads back the decimal notation of every integer, up to the range of a long, whatever follows it. */
  lemma AtolReadsBack(v: int, rest: string)
    requires rest != "" ==> !IsDigit(rest[0])
    ensures Atol(Notation(v) + rest) == Clamped(v)
  {
    var n: nat := if v < 0 then -v else v;
    var digits := Reversed(ReversedDigits(n));
    DigitsReadBack(n);
    DigitsAreRead(digits, rest);
    AtolOfNumber(digits + rest);
    hide DigitsValue, NaturalValue, ReversedDigits, Reversed, Atol, IsNatural, Clamped, IsDigit;
    SignFirst(digits, rest);
  }

  lemma SignFirst(digits: string, rest: string)
    ensures "-" + digits + rest == "-" + (digits + rest)
  {
  }

  /** White space before the number is skipped. */
  lemma {:induction false} AtolSkipsSpace(space: string, s: string)
    requires forall i :: 0 <= i < |space| ==> IsSpace(space[i])
    ensures Atol(space + s) == Atol(s)
    decreases |space|
  {
    hide DigitsValue;
    if space == "" {
      assert space + s == s;
    } else {
      assert (space + s)[1..] == space[1..] + s;
      AtolSkipsSpace(space[1..], s);
    }
  }
}
