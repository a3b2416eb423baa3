/**
 The character-level header parser of version 3.0 (parseHeaders in version3.0/net/HttpData.cpp): the automaton,
 the grammar of what it accepts from its start state, what a second call makes of a text cut in two, and the object
 that runs it.
 */
module HeaderParser {
  import opened Chars

  datatype ParseState = Start | Key | Colon | SpacesAfterColon | Value | Cr | Lf | EndCr | EndLf

  /** hState_, the positions kept in locals, and headers_. */
  datatype Scan = Scan(
    state: ParseState,
    keyStart: int, keyEnd: int,
    valueStart: int, valueEnd: int,
    lineBegin: nat,    // now_read_line_begin
    notFinish: bool,
    headers: map<string, string>)

  /** Undefined stands for a call that takes a substring from before the beginning of the buffer. */
  datatype HeaderState = Success | Again | Error | Undefined

  /** The locals at the beginning of a call, with the state the previous one left. */
  function Begin(state: ParseState, headers: map<string, string>): Scan {
    Scan(state, -1, -1, -1, -1, 0, true, headers)
  }

  function Fresh(headers: map<string, string>): Scan {
    Begin(Start, headers)
  }

  /** A field whose key or value has no place in a buffer of `n` characters. */
  predicate Outside(keyStart: int, keyEnd: int, valueStart: int, valueEnd: int, n: nat) {
    !(0 <= keyStart <= keyEnd <= n && 0 <= valueStart <= valueEnd <= n)
  }

  /** The positions a state relies on lie before the current one, in order. */
  predicate Placed(p: Scan, i: nat) {
    && p.lineBegin <= i
    && (p.state == Key ==> 0 <= p.keyStart < i)
    && (p.state in {Colon, SpacesAfterColon, Value, Cr} ==> 0 <= p.keyStart < p.keyEnd < i)
    && (p.state in {Value, Cr} ==> p.keyEnd < p.valueStart < i)
    && (p.state == Cr ==> p.valueStart < p.valueEnd < i)
  }

  /** One character. The flag is false when the parser gives up. */
  function Step(s: string, i: nat, p: Scan): (r: (Scan, bool))
    requires i < |s| && p.lineBegin <= i
    ensures r.0.lineBegin <= i
  {
    var c := s[i];
    match p.state
    case Start => (if c == LF || c == CR then p else p.(state := Key, keyStart := i, lineBegin := i), true)
    case Key =>
      if c == ':' then
        if i - p.keyStart > 0 then (p.(keyEnd := i, state := Colon), true) else (p.(keyEnd := i), false)
      else (p, c != LF && c != CR)
    case Colon => if c == ' ' then (p.(state := SpacesAfterColon), true) else (p, false)
    case SpacesAfterColon => (p.(state := Value, valueStart := i), true)
    case Value =>
      if c == CR then (p.(state := Cr, valueEnd := i), i - p.valueStart > 0)
      else (p, i - p.valueStart <= 255)
    case Cr =>
      if c == LF && !Outside(p.keyStart, p.keyEnd, p.valueStart, p.valueEnd, |s|) then
        (p.(state := Lf, lineBegin := i,
            headers := p.headers[s[p.keyStart..p.keyEnd] := s[p.valueStart..p.valueEnd]]), true)
      else (p, false)
    case Lf => (if c == CR then p.(state := EndCr) else p.(keyStart := i, state := Key), true)
    case EndCr => if c == LF then (p.(state := EndLf), true) else (p, false)
    case EndLf => (p.(notFinish := false, keyStart := i, lineBegin := i), true)
  }

  lemma StepPlaced(s: string, i: nat, p: Scan)
    requires i < |s| && Placed(p, i) && Step(s, i, p).1
    ensures Placed(Step(s, i, p).0, i + 1)
  {
  }

  /** The loop, from position `i` on: the final scan, the final position, and whether it ran to its end. */
  function Run(s: string, i: nat, p: Scan): (r: (Scan, nat, bool))
    requires i <= |s| && p.lineBegin <= i
    ensures i <= r.1 <= |s| && r.0.lineBegin <= r.1 && (!r.2 ==> r.1 < |s|)
    decreases |s| - i
  {
    if i < |s| && p.notFinish then
      var (q, ok) := Step(s, i, p);
      if !ok then (q, i, false) else Run(s, i + 1, q)
    else (p, i, true)
  }

  /** parseHeaders() in state `state` on the buffer `s`: the answer, what is left of the buffer, and the final scan. */
  function ParseFrom(s: string, state: ParseState, headers: map<string, string>): (HeaderState, string, Scan) {
    var (p, i, ok) := Run(s, 0, Begin(state, headers));
    if !ok then (if p.state == Cr && s[i] == LF then Undefined else Error, s, p)
    else if p.state == EndLf then (Success, s[i..], p)
    else (Again, s[p.lineBegin..], p)
  }

  /** The first call for a request. */
  function Parse(s: string, headers: map<string, string>): (HeaderState, string, Scan) {
    ParseFrom(s, Start, headers)
  }

  // ---------------------------------------------------------------------- the grammar

  datatype Field = Field(key: string, value: string)

  /** A key after its first character. */
  predicate KeyTail(k: string) {
    forall i :: 1 <= i < |k| ==> k[i] != ':' && k[i] != CR && k[i] != LF
  }

  /** The first key must not start with a line break; a later one only not with CR. */
  predicate GoodKey(k: string, first: bool) {
    && k != "" && KeyTail(k)
    && k[0] != CR && (first ==> k[0] != LF)
  }

  predicate GoodValue(v: string) {
    1 <= |v| <= 256 && forall i :: 1 <= i < |v| ==> v[i] != CR
  }

  predicate GoodFields(fs: seq<Field>) {
    forall i :: 0 <= i < |fs| ==> GoodKey(fs[i].key, i == 0) && GoodValue(fs[i].value)
  }

  function Printed(f: Field): string {
    f.key + ": " + f.value + "\r\n"
  }

  function Print(fs: seq<Field>): string {
    if fs == [] then "" else Print(fs[..|fs| - 1]) + Printed(fs[|fs| - 1])
  }

  /** What the fields add to the headers; the last one of a key wins. */
  function Added(headers: map<string, string>, fs: seq<Field>): map<string, string> {
    if fs == [] then headers
    else
      var f := fs[|fs| - 1];
      Added(headers, fs[..|fs| - 1])[f.key := f.value]
  }

  predicate Breaks(t: string) {
    forall i :: 0 <= i < |t| ==> t[i] == CR || t[i] == LF
  }

  /** The texts with a complete header block: line breaks, at least one field, CRLF, and any rest. */
  predicate IsBlock(s: string, breaks: string, fs: seq<Field>, rest: string) {
    && Breaks(breaks) && fs != [] && GoodFields(fs)
    && s == breaks + Print(fs) + "\r\n" + rest
  }

  ghost predicate HasBlock(s: string) {
    exists breaks, fields, rest :: IsBlock(s, breaks, fields, rest)
  }

  /** What the parser leaves of the rest: one character more is gone, if there is one. */
  function Left(rest: string): string {
    if rest == "" then "" else rest[1..]
  }

  // ---------------------------------------------------------------------- every block is accepted

  lemma {:induction false} SkipBreaks(s: string, i: nat, n: nat, p: Scan)
    requires i <= n <= |s| && p.state == Start && p.notFinish && Placed(p, i)
    requires forall k :: i <= k < n ==> s[k] == CR || s[k] == LF
    ensures Placed(p, n) && Run(s, i, p) == Run(s, n, p)
    decreases n - i
  {
    if i < n {
      SkipBreaks(s, i + 1, n, p);
    }
  }

  lemma {:induction false} ReadKey(s: string, i: nat, n: nat, p: Scan)
    requires i <= n < |s| && p.state == Key && p.notFinish && Placed(p, i) && s[n] == ':'
    requires forall k :: i <= k < n ==> s[k] != ':' && s[k] != CR && s[k] != LF
    ensures var q := p.(keyEnd := n, state := Colon);
            Placed(q, n + 1) && Run(s, i, p) == Run(s, n + 1, q)
    decreases n - i
  {
    if i < n {
      ReadKey(s, i + 1, n, p);
    }
  }

  lemma {:induction false} ReadValue(s: string, i: nat, n: nat, p: Scan)
    requires i <= n < |s| && p.state == Value && p.notFinish && Placed(p, i) && s[n] == CR
    requires n - p.valueStart <= 256
    requires forall k :: i <= k < n ==> s[k] != CR
    ensures var q := p.(valueEnd := n, state := Cr);
            Placed(q, n + 1) && Run(s, i, p) == Run(s, n + 1, q)
    decreases n - i
  {
    if i < n {
      ReadValue(s, i + 1, n, p);
    }
  }

  /** A field printed at position `a`, by its positions: the colon, and the CR that ends the value. */
  predicate FieldAt(s: string, a: nat, colon: nat, end: nat, first: bool) {
    && a < colon && colon + 2 < end < |s| - 1
    && s[colon] == ':' && s[colon + 1] == ' ' && s[end] == CR && s[end + 1] == LF
    && s[a] != CR && (first ==> s[a] != LF)
    && (forall j :: a < j < colon ==> s[j] != ':' && s[j] != CR && s[j] != LF)
    && end - (colon + 2) <= 256
    && (forall j :: colon + 2 < j < end ==> s[j] != CR)
  }

  /** A good field printed at `a` lies there by its positions. */
  lemma PrintedLies(s: string, a: nat, f: Field, first: bool)
    requires a <= |s| && Printed(f) <= s[a..] && GoodKey(f.key, first) && GoodValue(f.value)
    ensures var colon, end := a + |f.key|, a + |f.key| + 2 + |f.value|;
            && FieldAt(s, a, colon, end, first) && a + |Printed(f)| == end + 2
            && s[a..colon] == f.key && s[colon + 2..end] == f.value
  {
    var t, k, v := Printed(f), |f.key|, |f.value|;
    assert forall j :: 0 <= j < |t| ==> s[a..][j] == t[j];
    assert forall j :: a <= j < a + |t| ==> s[j] == t[j - a];
    assert s[a..a + k] == t[..k] == f.key;
    assert s[a + k + 2..a + k + 2 + v] == t[k + 2..k + 2 + v] == f.value;
    assert forall j :: a <= j < a + k ==> s[j] == f.key[j - a];
    assert forall j :: a + k + 2 <= j < a + k + 2 + v ==> s[j] == f.value[j - a - k - 2];
  }

  /** Conversely, such positions hold a good printed field. */
  lemma LiesPrinted(s: string, a: nat, colon: nat, end: nat, first: bool)
    requires FieldAt(s, a, colon, end, first)
    ensures var f := Field(s[a..colon], s[colon + 2..end]);
            && GoodKey(f.key, first) && GoodValue(f.value)
            && s[..end + 2] == s[..a] + Printed(f)
  {
    var f := Field(s[a..colon], s[colon + 2..end]);
    assert s[..end + 2] == s[..a] + s[a..colon] + s[colon..colon + 2] + s[colon + 2..end] + s[end..end + 2];
    assert s[colon..colon + 2] == ": " && s[end..end + 2] == "\r\n";
  }

  /** The key and what separates it from the value. */
  lemma ReadToValue(s: string, a: nat, colon: nat, end: nat, p: Scan)
    requires p.notFinish && (p.state == Start || p.state == Lf) && Placed(p, a)
    requires FieldAt(s, a, colon, end, p.state == Start)
    ensures var q := Step(s, a, p).0.(keyEnd := colon, state := Value, valueStart := colon + 2);
            Placed(q, colon + 3) && Run(s, a, p) == Run(s, colon + 3, q) && q.keyStart == a && q.headers == p.headers
  {
    var p1 := Step(s, a, p).0;
    assert Run(s, a, p) == Run(s, a + 1, p1);
    ReadKey(s, a + 1, colon, p1);
    var p2 := p1.(keyEnd := colon, state := Colon);
    var p3 := p2.(state := SpacesAfterColon);
    assert Run(s, colon + 1, p2) == Run(s, colon + 2, p3);
  }

  /** The value and the line end. */
  lemma {:induction false} ReadToLineEnd(s: string, a: nat, colon: nat, end: nat, first: bool, p: Scan)
    returns (q: Scan)
    requires FieldAt(s, a, colon, end, first)
    requires p.notFinish && p.state == Value && Placed(p, colon + 3)
    requires p.keyStart == a && p.keyEnd == colon && p.valueStart == colon + 2
    ensures Placed(q, end + 2) && Run(s, colon + 3, p) == Run(s, end + 2, q)
    ensures q.state == Lf && q.notFinish && q.headers == p.headers[s[a..colon] := s[colon + 2..end]]
  {
    ReadValue(s, colon + 3, end, p);
    hide FieldAt;
    q := ReadLf(s, end + 1, p.(valueEnd := end, state := Cr));
  }

  lemma ReadLf(s: string, i: nat, p: Scan) returns (q: Scan)
    requires i < |s| && s[i] == LF && p.state == Cr && p.notFinish && Placed(p, i)
    ensures Placed(q, i + 1) && Run(s, i, p) == Run(s, i + 1, q)
    ensures q.state == Lf && q.notFinish
    ensures q.headers == p.headers[s[p.keyStart..p.keyEnd] := s[p.valueStart..p.valueEnd]]
  {
    q := Step(s, i, p).0;
  }

  /** A printed field at position `a` is read in one go. */
  lemma ReadField(s: string, a: nat, p: Scan, f: Field) returns (q: Scan)
    requires a <= |s| && Printed(f) <= s[a..] && p.notFinish && Placed(p, a)
    requires p.state == Start || p.state == Lf
    requires GoodKey(f.key, p.state == Start) && GoodValue(f.value)
    ensures var b := a + |Printed(f)|;
            b <= |s| && Placed(q, b) && Run(s, a, p) == Run(s, b, q)
    ensures q.state == Lf && q.notFinish && q.headers == p.headers[f.key := f.value]
  {
    hide Run, GoodKey, GoodValue, Printed;
    PrintedLies(s, a, f, p.state == Start);
    var colon, end := a + |f.key|, a + |f.key| + 2 + |f.value|;
    ReadToValue(s, a, colon, end, p);
    var p1 := Step(s, a, p).0.(keyEnd := colon, state := Value, valueStart := colon + 2);
    hide Step;
    q := ReadToLineEnd(s, a, colon, end, p.state == Start, p1);
  }

  /** Printed fields after the line breaks are read one by one. */
  lemma {:induction false} ReadFields(s: string, breaks: string, fs: seq<Field>, headers: map<string, string>)
    returns (q: Scan)
    requires Breaks(breaks) && GoodFields(fs) && breaks + Print(fs) <= s
    ensures var b := |breaks + Print(fs)|;
            b <= |s| && Placed(q, b) && Run(s, 0, Fresh(headers)) == Run(s, b, q)
    ensures q.state == (if fs == [] then Start else Lf) && q.notFinish && q.headers == Added(headers, fs)
  {
    hide Run, Step, Printed, GoodKey, GoodValue;
    if fs == [] {
      assert breaks + Print(fs) == breaks;
      assert forall k :: 0 <= k < |breaks| ==> s[k] == breaks[k];
      q := Fresh(headers);
      SkipBreaks(s, 0, |breaks|, q);
    } else {
      var k := |fs| - 1;
      var init, f := fs[..k], fs[k];
      var head := breaks + Print(init);
      assert breaks + Print(fs) == head + Printed(f);
      HeadThenTail(s, head, Printed(f));
      var p := ReadFields(s, breaks, init, headers);
      q := ReadField(s, |head|, p, f);
    }
  }

  /** The blank line, and the one character more that is consumed after it if there is one. */
  lemma ReadEnd(s: string, b: nat, p: Scan)
    requires b + 2 <= |s| && s[b] == CR && s[b + 1] == LF && p.state == Lf && p.notFinish && Placed(p, b)
    ensures var (q, i, ok) := Run(s, b, p);
            && ok && q.state == EndLf && q.headers == p.headers
            && s[i..] == Left(s[b + 2..])
  {
    var q1 := p.(state := EndCr);
    assert Run(s, b, p) == Run(s, b + 1, q1);
    var q2 := q1.(state := EndLf);
    assert Run(s, b + 1, q1) == Run(s, b + 2, q2);
  }

  /**
   Round trip: every block is accepted, its fields are added to the headers, and what is left is the rest without
   its first character.
   */
  lemma BlockParses(s: string, breaks: string, fs: seq<Field>, rest: string, headers: map<string, string>)
    requires IsBlock(s, breaks, fs, rest)
    ensures var (answer, left, p) := Parse(s, headers);
            answer == Success && left == Left(rest) && p.headers == Added(headers, fs)
  {
    hide Run, Step, Print, Added, GoodFields, Breaks;
    var head := breaks + Print(fs);
    assert s == head + ("\r\n" + rest);
    var b := |head|;
    var q := ReadFields(s, breaks, fs, headers);
    assert s[b] == CR && s[b + 1] == LF && s[b + 2..] == rest;
    ReadEnd(s, b, q);
  }

  // ---------------------------------------------------------------------- nothing else is accepted

  /** What has been read so far: the line breaks and the fields that end at position `at`. */
  datatype Past = Past(at: nat, breaks: string, fields: seq<Field>)

  /** `w` accounts for the text before `i` when the parser, started on `headers`, has come to `i` with scan `p`. */
  predicate Accounts(s: string, i: nat, p: Scan, headers: map<string, string>, w: Past) {
    && w.at <= i <= |s|
    && Breaks(w.breaks) && GoodFields(w.fields)
    && s[..w.at] == w.breaks + Print(w.fields)
    && p.headers == Added(headers, w.fields)
    && (p.state == Start <==> w.fields == [] && w.at == i)
    && InField(s, i, p, w.at, w.fields == [])
    && StaysFrom(p, w)
  }

  /** What is to stay in the buffer begins at the first key, or at the line feed of the last whole field. */
  predicate StaysFrom(p: Scan, w: Past) {
    p.state != EndLf ==>
      p.lineBegin == if p.state == Start then 0 else if w.fields == [] then w.at else w.at - 1
  }

  /** The part of a field, or of the end of the block, between `a` and `i`. */
  predicate InField(s: string, i: nat, p: Scan, a: nat, first: bool)
    requires a <= i <= |s|
  {
    && (p.state != EndLf ==> p.notFinish)
    && match p.state
       case Start => a == i
       case Key => p.keyStart == a && KeyAt(s, a, i, first)
       case Colon => p.keyStart == a && p.keyEnd == i - 1 && KeyAt(s, a, i - 1, first) && s[i - 1] == ':'
       case SpacesAfterColon =>
         && p.keyStart == a && p.keyEnd == i - 2 && KeyAt(s, a, i - 2, first)
         && s[i - 2] == ':' && s[i - 1] == ' '
       case Value =>
         && p.keyStart == a && 0 <= p.keyEnd && p.valueStart == p.keyEnd + 2
         && KeyAt(s, a, p.keyEnd, first) && ValueAt(s, p.keyEnd, i)
       case Cr =>
         && p.keyStart == a && 0 <= p.keyEnd && p.valueStart == p.keyEnd + 2 && p.valueEnd == i - 1
         && KeyAt(s, a, p.keyEnd, first) && ValueAt(s, p.keyEnd, i - 1) && s[i - 1] == CR
       case Lf => !first && a == i
       case EndCr => !first && a + 1 == i && s[a] == CR
       case EndLf => !first && a + (if p.notFinish then 2 else 3) == i && s[a] == CR && s[a + 1] == LF
  }

  predicate KeyAt(s: string, a: nat, b: int, first: bool) {
    && a < b <= |s|
    && s[a] != CR && (first ==> s[a] != LF)
    && (forall j :: a < j < b ==> s[j] != ':' && s[j] != CR && s[j] != LF)
  }

  predicate ValueAt(s: string, colon: nat, b: int) {
    && colon + 2 < b <= |s| && b - (colon + 2) <= 256
    && s[colon] == ':' && s[colon + 1] == ' '
    && (forall j :: colon + 2 < j < b ==> s[j] != CR)
  }

  /** One more character inside a field, or at the end of the block. */
  lemma StepInField(s: string, i: nat, p: Scan, a: nat, first: bool)
    requires i < |s| && Placed(p, i) && a <= i && InField(s, i, p, a, first)
    requires p.notFinish && Step(s, i, p).1
    requires p.state != Cr && (p.state == Start ==> s[i] != CR && s[i] != LF && first)
    ensures var q := Step(s, i, p).0;
            && InField(s, i + 1, q, a, first) && q.state != Start && q.headers == p.headers
            && (p.state != EndLf ==> q.lineBegin == if p.state == Start then i else p.lineBegin)
            && (p.state == EndLf ==> q.state == EndLf)
  {
  }

  /** A finished field. */
  lemma StepEndsField(s: string, i: nat, p: Scan, headers: map<string, string>, w: Past) returns (v: Past)
    requires i < |s| && Placed(p, i) && Accounts(s, i, p, headers, w) && p.state == Cr && Step(s, i, p).1
    ensures Accounts(s, i + 1, Step(s, i, p).0, headers, v)
  {
    hide Step, InField, Print, Added, GoodFields, Printed, GoodKey, GoodValue, Breaks, Placed;
    var f := FieldRead(s, i, p, w.at, w.fields == []);
    v := Past(i + 1, w.breaks, w.fields + [f]);
    OneMoreField(headers, w.fields, f);
    PrintedGrows(s, w.at, i + 1, w.breaks, Print(w.fields), Printed(f));
  }

  lemma PrintedGrows(s: string, a: nat, b: nat, breaks: string, printed: string, more: string)
    requires a <= |s| && b <= |s| && s[..a] == breaks + printed && s[..b] == s[..a] + more
    ensures s[..b] == breaks + (printed + more)
  {
  }

  /** The field that ends at `i`. */
  lemma FieldRead(s: string, i: nat, p: Scan, a: nat, first: bool) returns (f: Field)
    requires i < |s| && Placed(p, i) && a <= i && InField(s, i, p, a, first) && p.state == Cr && Step(s, i, p).1
    ensures GoodKey(f.key, first) && GoodValue(f.value) && s[..i + 1] == s[..a] + Printed(f)
    ensures var q := Step(s, i, p).0;
            && q.state == Lf && q.notFinish && InField(s, i + 1, q, i + 1, false)
            && q.headers == p.headers[f.key := f.value] && q.lineBegin == i
  {
    hide Step, InField, Printed, GoodKey, GoodValue, Placed;
    FieldEnds(s, i, p, a, first);
    LiesPrinted(s, a, p.keyEnd, i - 1, first);
    f := Field(s[a..p.keyEnd], s[p.keyEnd + 2..i - 1]);
  }

  lemma OneMoreField(headers: map<string, string>, fs: seq<Field>, f: Field)
    requires GoodFields(fs) && GoodKey(f.key, fs == []) && GoodValue(f.value)
    ensures GoodFields(fs + [f])
    ensures Print(fs + [f]) == Print(fs) + Printed(f)
    ensures Added(headers, fs + [f]) == Added(headers, fs)[f.key := f.value]
  {
    hide GoodKey, GoodValue, Printed;
    assert (fs + [f])[..|fs|] == fs;
  }

  lemma FieldEnds(s: string, i: nat, p: Scan, a: nat, first: bool)
    requires i < |s| && Placed(p, i) && a <= i && InField(s, i, p, a, first) && p.state == Cr && Step(s, i, p).1
    ensures FieldAt(s, a, p.keyEnd, i - 1, first) && p.valueEnd == i - 1 && p.valueStart == p.keyEnd + 2
    ensures var q := Step(s, i, p).0;
            && q.state == Lf && q.notFinish && InField(s, i + 1, q, i + 1, false)
            && q.headers == p.headers[s[a..p.keyEnd] := s[p.keyEnd + 2..i - 1]] && q.lineBegin == i
  {
  }

  lemma StepAccounts(s: string, i: nat, p: Scan, headers: map<string, string>, w: Past) returns (v: Past)
    requires i < |s| && Placed(p, i) && Accounts(s, i, p, headers, w) && p.notFinish && Step(s, i, p).1
    ensures Accounts(s, i + 1, Step(s, i, p).0, headers, v)
  {
    if p.state == Cr {
      v := StepEndsField(s, i, p, headers, w);
    } else if p.state == Start && (s[i] == CR || s[i] == LF) {
      v := w.(at := i + 1, breaks := w.breaks + [s[i]]);
      assert s[..i + 1] == s[..i] + [s[i]];
      assert s[..i] == w.breaks + Print([]) == w.breaks;
    } else {
      StepInField(s, i, p, w.at, w.fields == []);
      v := w;
    }
  }

  lemma {:induction false} RunAccounts(s: string, i: nat, p: Scan, headers: map<string, string>, w: Past)
    returns (v: Past)
    requires i <= |s| && Placed(p, i) && Accounts(s, i, p, headers, w)
    ensures Run(s, i, p).2 ==> Accounts(s, Run(s, i, p).1, Run(s, i, p).0, headers, v)
    ensures Run(s, i, p).2 ==> Run(s, i, p).1 == |s| || !Run(s, i, p).0.notFinish
    ensures HaveRead(s, Run(s, i, p).0.headers, headers, v)
    decreases |s| - i
  {
    hide Accounts, Step, HaveRead;
    AccountsForHeaders(s, i, p, headers, w);
    if i < |s| && p.notFinish {
      if Step(s, i, p).1 {
        StepPlaced(s, i, p);
        var u := StepAccounts(s, i, p, headers, w);
        v := RunAccounts(s, i + 1, Step(s, i, p).0, headers, u);
      } else {
        FailureKeepsHeaders(s, i, p);
        v := w;
      }
    } else {
      v := w;
    }
  }

  /** Some whole fields at the beginning of the text are those that `all` has and `headers` had not. */
  predicate HaveRead(s: string, all: map<string, string>, headers: map<string, string>, w: Past) {
    && w.at <= |s| && Breaks(w.breaks) && GoodFields(w.fields)
    && s[..w.at] == w.breaks + Print(w.fields) && all == Added(headers, w.fields)
  }

  lemma AccountsForHeaders(s: string, i: nat, p: Scan, headers: map<string, string>, w: Past)
    requires Accounts(s, i, p, headers, w)
    ensures HaveRead(s, p.headers, headers, w)
  {
  }

  lemma FailureKeepsHeaders(s: string, i: nat, p: Scan)
    requires i < |s| && p.lineBegin <= i && !Step(s, i, p).1
    ensures Step(s, i, p).0.headers == p.headers
  {
  }

  /** Soundness: what is accepted is a block, and the fields added and the text left are those of that block. */
  lemma AcceptedIsBlock(s: string, headers: map<string, string>)
    returns (breaks: string, fields: seq<Field>, rest: string)
    requires Parse(s, headers).0 == Success
    ensures IsBlock(s, breaks, fields, rest)
    ensures Parse(s, headers).1 == Left(rest) && Parse(s, headers).2.headers == Added(headers, fields)
  {
    var start := Fresh(headers);
    assert Accounts(s, 0, start, headers, Past(0, "", []));
    var w := RunAccounts(s, 0, start, headers, Past(0, "", []));
    var (q, i, ok) := Run(s, 0, start);
    hide Run, Step, Print, Added, GoodFields, Breaks;
    breaks, fields, rest := w.breaks, w.fields, s[w.at + 2..];
    assert s == s[..w.at] + s[w.at..w.at + 2] + rest;
    assert s[w.at..w.at + 2] == "\r\n";
  }

  /** The parser accepts exactly the texts that hold a complete header block. */
  lemma AcceptsExactlyBlocks(s: string, headers: map<string, string>)
    ensures Parse(s, headers).0 == Success <==> HasBlock(s)
  {
    hide Parse, IsBlock;
    if Parse(s, headers).0 == Success {
      var breaks, fields, rest := AcceptedIsBlock(s, headers);
    }
    forall breaks, fields, rest | IsBlock(s, breaks, fields, rest)
      ensures Parse(s, headers).0 == Success
    {
      BlockParses(s, breaks, fields, rest, headers);
    }
  }

  // ---------------------------------------------------------------------- the other two answers

  /** More text does not take back an error; a run that came to the end of the text goes on from there. */
  lemma {:induction false} RunExtends(s: string, t: string, i: nat, p: Scan)
    requires i <= |s| && Placed(p, i)
    ensures var (q, j, ok) := Run(s, i, p);
            && (!ok ==> !Run(s + t, i, p).2)
            && (ok ==> Placed(q, j))
            && (ok && q.notFinish ==> j == |s| && Run(s + t, i, p) == Run(s + t, j, q))
    decreases |s| - i
  {
    if i < |s| && p.notFinish {
      StepExtends(s, t, i, p);
      hide Step, Placed;
      if Step(s, i, p).1 {
        StepPlaced(s, i, p);
        RunExtends(s, t, i + 1, Step(s, i, p).0);
      }
    }
  }

  lemma StepExtends(s: string, t: string, i: nat, p: Scan)
    requires i < |s| && Placed(p, i)
    ensures Step(s + t, i, p) == Step(s, i, p)
  {
    forall a: nat, b: nat | a <= b <= |s|
      ensures (s + t)[a..b] == s[a..b]
    {
    }
  }

  /** The shortest text that completes a block from each state on. */
  function Completion(state: ParseState): string {
    match state
    case Start => "k: v\r\n\r\n"
    case Key => ": v\r\n\r\n"
    case Colon => " v\r\n\r\n"
    case SpacesAfterColon => "v\r\n\r\n"
    case Value => "\r\n\r\n"
    case Cr => "\n\r\n"
    case Lf => "\r\n"
    case EndCr => "\n"
    case EndLf => ""
  }

  lemma {:induction false} Completes(s: string, i: nat, p: Scan)
    requires i <= |s| && Placed(p, i) && p.notFinish && s[i..] == Completion(p.state)
    ensures var (q, j, ok) := Run(s, i, p);
            ok && q.state == EndLf && j == |s|
    decreases |s| - i
  {
    if p.state != EndLf {
      CompletionStep(s, i, p);
      hide Step, Placed, Completion;
      StepPlaced(s, i, p);
      Completes(s, i + 1, Step(s, i, p).0);
    }
  }

  lemma CompletionStep(s: string, i: nat, p: Scan)
    requires i <= |s| && Placed(p, i) && p.notFinish && s[i..] == Completion(p.state) && p.state != EndLf
    ensures i < |s|
    ensures var (q, ok) := Step(s, i, p);
            ok && q.notFinish && s[i + 1..] == Completion(q.state)
  {
    assert s[i] == s[i..][0];
    assert s[i + 1..] == s[i..][1..];
  }

  /** A text that asks for more is completed by what its state lacks; nothing is left then. */
  lemma AgainCanBeCompleted(s: string, headers: map<string, string>)
    requires Parse(s, headers).0 == Again
    ensures var t := Completion(Parse(s, headers).2.state);
            Parse(s + t, headers).0 == Success && Parse(s + t, headers).1 == ""
  {
    var start := Fresh(headers);
    assert Accounts(s, 0, start, headers, Past(0, "", []));
    var w := RunAccounts(s, 0, start, headers, Past(0, "", []));
    var q := Run(s, 0, start).0;
    hide Run, Step, Placed, GoodFields, Print, Added;
    var t := Completion(q.state);
    RunExtends(s, t, 0, start);
    assert (s + t)[|s|..] == t;
    Completes(s + t, |s|, q);
  }

  /**
   What the answers to a first call mean: success is a complete block, again is a text that is none but can still
   become one, and an error is a text that no continuation makes one. There is no fourth.
   */
  lemma AnswersMean(s: string, headers: map<string, string>)
    ensures Parse(s, headers).0 == Success <==> HasBlock(s)
    ensures Parse(s, headers).0 == Again <==> !HasBlock(s) && exists t :: HasBlock(s + t)
    ensures Parse(s, headers).0 == Error <==> forall t :: !HasBlock(s + t)
    ensures Parse(s, headers).0 != Undefined
  {
    DefinedFromStart(s, headers);
    hide Parse, HasBlock;
    AcceptsExactlyBlocks(s, headers);
    match Parse(s, headers).0
    case Success =>
      assert s + "" == s;
    case Again =>
      AgainCanBeCompleted(s, headers);
      var t := Completion(Parse(s, headers).2.state);
      AcceptsExactlyBlocks(s + t, headers);
    case Error =>
      forall t
        ensures !HasBlock(s + t)
      {
        ErrorStays(s, t, headers);
        AcceptsExactlyBlocks(s + t, headers);
      }
      assert s + "" == s;
  }

  lemma ErrorStays(s: string, t: string, headers: map<string, string>)
    requires Parse(s, headers).0 == Error
    ensures Parse(s + t, headers).0 == Error
  {
    hide Run;
    RunExtends(s, t, 0, Fresh(headers));
    DefinedFromStart(s + t, headers);
  }

  lemma {:induction false} RunDefined(s: string, i: nat, p: Scan)
    requires i <= |s| && Placed(p, i)
    ensures var (q, j, ok) := Run(s, i, p);
            !ok ==> !(q.state == Cr && s[j] == LF)
    decreases |s| - i
  {
    if i < |s| && p.notFinish {
      if Step(s, i, p).1 {
        StepPlaced(s, i, p);
        hide Step, Placed;
        RunDefined(s, i + 1, Step(s, i, p).0);
      }
    }
  }

  /** A first call reads nothing outside the buffer. */
  lemma DefinedFromStart(s: string, headers: map<string, string>)
    ensures Parse(s, headers).0 != Undefined
  {
    hide Run;
    RunDefined(s, 0, Fresh(headers));
  }

  /**
   Whatever a first call answers, the headers it has added are those of whole fields at the beginning of the text. An
   error leaves the buffer as it is. When more is asked for, what stays is the text from the first key on, or from the
   line feed of the last whole field; all of it if there were only line breaks.
   */
  lemma WhatStays(s: string, headers: map<string, string>) returns (breaks: string, fields: seq<Field>)
    ensures Breaks(breaks) && GoodFields(fields) && breaks + Print(fields) <= s
    ensures Parse(s, headers).2.headers == Added(headers, fields)
    ensures Parse(s, headers).0 == Error ==> Parse(s, headers).1 == s
    ensures Parse(s, headers).0 == Again ==>
              Parse(s, headers).1 ==
              if Breaks(s) then s
              else s[if fields == [] then |breaks| else |breaks + Print(fields)| - 1..]
  {
    var start := Fresh(headers);
    assert Accounts(s, 0, start, headers, Past(0, "", []));
    var w := RunAccounts(s, 0, start, headers, Past(0, "", []));
    breaks, fields := w.breaks, w.fields;
    StartIffBreaks(s, headers);
    hide Run, Step, GoodFields, Breaks, InField, Added;
    assert |s[..w.at]| == w.at;
    if fields == [] {
      assert breaks + Print(fields) == breaks;
    }
  }

  // ---------------------------------------------------------------------- the second call

  /** parseHeaders() called again, after it asked for more, when `t` has arrived. */
  function ParseAgain(s: string, t: string, headers: map<string, string>): (HeaderState, string, Scan) {
    var (answer, left, p) := Parse(s, headers);
    ParseFrom(left + t, p.state, p.headers)
  }

  /** The two calls answer, and leave buffer and headers, as one call on the whole text would. */
  predicate Agrees(s: string, t: string, headers: map<string, string>) {
    var (a, l, p) := ParseAgain(s, t, headers);
    var (b, m, q) := Parse(s + t, headers);
    a == b && l == m && p.headers == q.headers
  }

  /** Where the text that stays in the buffer begins when more is asked for in these three states. */
  predicate LineAt(s: string, i: nat, p: Scan) {
    && (p.state == Start ==> p.lineBegin == 0)
    && (p.state == Lf ==> p.lineBegin == i - 1 && i <= |s| && s[i - 1] == LF)
    && (p.state == EndCr ==> p.lineBegin == i - 2 && i <= |s| && s[i - 2] == LF && s[i - 1] == CR)
  }

  lemma {:induction false} RunLineAt(s: string, i: nat, p: Scan)
    requires i <= |s| && p.lineBegin <= i && LineAt(s, i, p)
    ensures var (q, j, ok) := Run(s, i, p);
            ok ==> LineAt(s, j, q)
    decreases |s| - i
  {
    if i < |s| && p.notFinish && Step(s, i, p).1 {
      assert LineAt(s, i + 1, Step(s, i, p).0);
      hide Step, LineAt;
      RunLineAt(s, i + 1, Step(s, i, p).0);
    }
  }

  /** A call that begins inside a field cannot come to its end: the beginning of the key is lost. */
  lemma {:induction false} NoKeyNoSuccess(s: string, i: nat, p: Scan)
    requires i <= |s| && p.lineBegin <= i && p.keyStart == -1
    requires p.state in {Key, Colon, SpacesAfterColon, Value, Cr}
    ensures var (q, j, ok) := Run(s, i, p);
            ok ==> q.state in {Key, Colon, SpacesAfterColon, Value, Cr}
    decreases |s| - i
  {
    if i < |s| && p.notFinish && Step(s, i, p).1 {
      var q := Step(s, i, p).0;
      assert q.keyStart == -1 && q.state in {Key, Colon, SpacesAfterColon, Value, Cr};
      hide Step;
      NoKeyNoSuccess(s, i + 1, q);
    }
  }

  /** After a whole line, the line break that stays in the buffer is taken for the beginning of a key. */
  lemma LineBreakAgain(headers: map<string, string>)
    ensures ParseFrom("\n\r\n", Lf, headers).0 == Error
  {
    var p := Begin(Lf, headers);
    var q := Step("\n\r\n", 0, p).0;
    assert Run("\n\r\n", 0, p) == Run("\n\r\n", 1, q);
  }

  /** Before the last character, it is taken for that one, and too much stays in the buffer. */
  lemma LastBreakAgain(headers: map<string, string>)
    ensures ParseFrom("\n\r\n", EndCr, headers).1 == "\n"
  {
    var p := Begin(EndCr, headers);
    var q := Step("\n\r\n", 0, p).0;
    assert Run("\n\r\n", 0, p) == Run("\n\r\n", 1, q);
    var r := Step("\n\r\n", 1, q).0;
    assert Run("\n\r\n", 1, q) == Run("\n\r\n", 2, r);
  }

  /** Outside the start state, two calls do not agree with one on the text that completes the block. */
  lemma CompletedTwiceDiffers(s: string, headers: map<string, string>)
    requires Parse(s, headers).0 == Again && Parse(s, headers).2.state != Start
    ensures !Agrees(s, Completion(Parse(s, headers).2.state), headers)
  {
    var (answer, left, p) := Parse(s, headers);
    var t := Completion(p.state);
    var start := Fresh(headers);
    RunLineAt(s, 0, start);
    RunExtends(s, "", 0, start);
    assert Accounts(s, 0, start, headers, Past(0, "", []));
    var w := RunAccounts(s, 0, start, headers, Past(0, "", []));
    AgainCanBeCompleted(s, headers);
    if p.state == Lf {
      assert left + t == "\n\r\n";
      LineBreakAgain(p.headers);
    } else if p.state == EndCr {
      assert left + t == "\n\r\n";
      LastBreakAgain(p.headers);
    } else {
      NoKeyNoSuccess(left + t, 0, Begin(p.state, p.headers));
    }
  }

  /** More is asked for in the start state exactly when only line breaks have been read. */
  lemma StartIffBreaks(s: string, headers: map<string, string>)
    ensures Parse(s, headers).0 == Again && Parse(s, headers).2.state == Start <==> Breaks(s)
  {
    var start := Fresh(headers);
    if Breaks(s) {
      SkipBreaks(s, 0, |s|, start);
    }
    if Parse(s, headers).0 == Again && Parse(s, headers).2.state == Start {
      assert Accounts(s, 0, start, headers, Past(0, "", []));
      var w := RunAccounts(s, 0, start, headers, Past(0, "", []));
      hide Run;
      assert s[..|s|] == s && w.breaks + Print([]) == w.breaks;
    }
  }

  /**
   After it has asked for more, a second call makes of the rest what one call on the whole text would, whatever the
   rest is, if and only if nothing but line breaks had arrived.
   */
  lemma SecondCallIsRightIff(s: string, headers: map<string, string>)
    requires Parse(s, headers).0 == Again
    ensures (forall t :: Agrees(s, t, headers)) <==> Breaks(s)
  {
    StartIffBreaks(s, headers);
    var (answer, left, p) := Parse(s, headers);
    if p.state == Start {
      BreaksAgain(s, headers);
    } else {
      CompletedTwiceDiffers(s, headers);
    }
  }

  lemma BreaksAgain(s: string, headers: map<string, string>)
    requires Breaks(s)
    ensures forall t :: Agrees(s, t, headers)
  {
    SkipBreaks(s, 0, |s|, Fresh(headers));
    assert Parse(s, headers) == (Again, s, Fresh(headers));
  }

  /** A field that arrives in two parts makes the second call take a substring from before the buffer. */
  lemma FieldInTwoParts(headers: map<string, string>)
    ensures Parse("k: v", headers).0 == Again && ParseAgain("k: v", "\r\n\r\n", headers).0 == Undefined
  {
    var s, p0 := "k: v", Fresh(headers);
    var p1 := Step(s, 0, p0).0;
    var p2 := Step(s, 1, p1).0;
    var p3 := Step(s, 2, p2).0;
    var p4 := Step(s, 3, p3).0;
    assert Run(s, 0, p0) == Run(s, 1, p1) == Run(s, 2, p2) == Run(s, 3, p3) == Run(s, 4, p4) == (p4, 4, true);
    assert Parse(s, headers) == (Again, s, p4);
    SecondHalf(headers);
    assert s + "\r\n\r\n" == "k: v\r\n\r\n";
  }

  lemma SecondHalf(headers: map<string, string>)
    ensures ParseFrom("k: v\r\n\r\n", Value, headers).0 == Undefined
  {
    var s, p0 := "k: v\r\n\r\n", Begin(Value, headers);
    var p1 := p0.(valueEnd := 4, state := Cr);
    assert Run(s, 4, p0) == Run(s, 5, p1);
    assert Run(s, 3, p0) == Run(s, 4, p0);
    assert Run(s, 2, p0) == Run(s, 3, p0);
    assert Run(s, 1, p0) == Run(s, 2, p0);
    assert Run(s, 0, p0) == Run(s, 1, p0);
    assert Run(s, 5, p1) == (p1, 5, false);
  }

  /** The last field of a key decides its value. */
  lemma {:induction false} LastDecides(headers: map<string, string>, fields: seq<Field>, i: nat)
    requires i < |fields| && forall j :: i < j < |fields| ==> fields[j].key != fields[i].key
    ensures var all := Added(headers, fields);
            fields[i].key in all && all[fields[i].key] == fields[i].value
  {
    if i < |fields| - 1 {
      LastDecides(headers, fields[..|fields| - 1], i);
    }
  }

  /** A key that no field has keeps what it had. */
  lemma {:induction false} OthersKept(headers: map<string, string>, fields: seq<Field>, key: string)
    requires forall i :: 0 <= i < |fields| ==> fields[i].key != key
    ensures var all := Added(headers, fields);
            (key in all <==> key in headers) && (key in headers ==> all[key] == headers[key])
  {
    if fields != [] {
      OthersKept(headers, fields[..|fields| - 1], key);
    }
  }

  // ---------------------------------------------------------------------- the object

  class HttpData {
    var inBuffer: string
    var hState: ParseState
    var headers: map<string, string>

    /** What reset() leaves of these fields, with `text` read from the socket. */
    constructor (text: string)
      ensures inBuffer == text && hState == Start && headers == map[]
    {
      inBuffer, hState, headers := text, Start, map[];
    }

    /** One call, in whatever state: the answer, the text that stays in the buffer, the headers and the state. */
    method ParseHeaders() returns (answer: HeaderState)
      modifies this
      ensures var (expected, left, p) := ParseFrom(old(inBuffer), old(hState), old(headers));
              && answer == expected && inBuffer == left
              && headers == p.headers && hState == p.state
    {
      var str := inBuffer;
      var keyStart, keyEnd, valueStart, valueEnd := -1, -1, -1, -1;
      var lineBegin := 0;
      var notFinish := true;
      var i := 0;
      while i < |str| && notFinish
        invariant 0 <= i <= |str| && 0 <= lineBegin && inBuffer == str
        invariant var p := Scan(hState, keyStart, keyEnd, valueStart, valueEnd, lineBegin, notFinish, headers);
                  p.lineBegin <= i && Run(str, i, p) == Run(str, 0, Begin(old(hState), old(headers)))
        decreases |str| - i
      {
        match hState {
        case Start =>
          if str[i] != LF && str[i] != CR {
            hState := Key;
            keyStart := i;
            lineBegin := i;
          }
        case Key =>
          if str[i] == ':' {
            keyEnd := i;
            if keyEnd - keyStart <= 0 { return Error; }
            hState := Colon;
          } else if str[i] == LF || str[i] == CR {
            return Error;
          }
        case Colon =>
          if str[i] == ' ' {
            hState := SpacesAfterColon;
          } else {
            return Error;
          }
        case SpacesAfterColon =>
          hState := Value;
          valueStart := i;
        case Value =>
          if str[i] == CR {
            hState := Cr;
            valueEnd := i;
            if valueEnd - valueStart <= 0 { return Error; }
          } else if i - valueStart > 255 {
            return Error;
          }
        case Cr =>
          if str[i] == LF {
            if Outside(keyStart, keyEnd, valueStart, valueEnd, |str|) { return Undefined; }
            hState := Lf;
            var key, value := str[keyStart..keyEnd], str[valueStart..valueEnd];
            headers := headers[key := value];
            lineBegin := i;
          } else {
            return Error;
          }
        case Lf =>
          if str[i] == CR {
            hState := EndCr;
          } else {
            keyStart := i;
            hState := Key;
          }
        case EndCr =>
          if str[i] == LF {
            hState := EndLf;
          } else {
            return Error;
          }
        case EndLf =>
          notFinish := false;
          keyStart := i;
          lineBegin := i;
        }
        i := i + 1;
      }
      if hState == EndLf {
        inBuffer := str[i..];
        return Success;
      }
      inBuffer := str[lineBegin..];
      return Again;
    }
  }
}
