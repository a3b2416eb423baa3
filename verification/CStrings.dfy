/** NUL-terminated strings inside a character buffer, and the C library functions read over them. */
module CStrings {
  import opened Chars

  /** The first index at or after `from` whose character is in `stop`, or the length when there is none. */
  function FindFrom(s: string, from: nat, stop: set<char>): (i: nat)
    requires from <= |s|
    ensures from <= i <= |s|
    ensures forall k :: from <= k < i ==> s[k] !in stop
    ensures i < |s| ==> s[i] in stop
    decreases |s| - from
  {
    if from == |s| || s[from] in stop then from else FindFrom(s, from + 1, stop)
  }

  /** The three postconditions of FindFrom leave only one answer. */
  lemma FindFromIs(s: string, from: nat, stop: set<char>, i: nat)
    requires from <= i <= |s|
    requires forall k :: from <= k < i ==> s[k] !in stop
    requires i < |s| ==> s[i] in stop
    ensures FindFrom(s, from, stop) == i
  {
    var j := FindFrom(s, from, stop);
    assert j < |s| ==> s[j] in stop;
  }

  /** The string a C function sees at pointer `p`: everything before the first NUL. */
  function CStr(s: string, p: nat): string
    requires p <= |s|
  {
    s[p..FindFrom(s, p, {NUL})]
  }

  /** Two buffers that agree from `p` up to and including a NUL hold the same string at `p`. */
  lemma CStrFrame(a: string, b: string, p: nat, e: nat)
    requires p <= e < |a| && e < |b|
    requires a[e] == NUL
    requires forall k :: p <= k <= e ==> a[k] == b[k]
    ensures CStr(a, p) == CStr(b, p)
  {
    var i := FindFrom(a, p, {NUL});
    assert i <= e;
    FindFromIs(b, p, {NUL}, i);
    assert a[p..i] == b[p..i];
  }

  /** Moving a pointer forward inside a string drops the characters passed. */
  lemma CStrDrop(s: string, p: nat, k: nat)
    requires p <= |s| && k <= |CStr(s, p)|
    ensures CStr(s, p + k) == CStr(s, p)[k..]
  {
    FindFromIs(s, p + k, {NUL}, FindFrom(s, p, {NUL}));
  }

  /** Writing a NUL at `i` cuts the string at `p` in two. */
  lemma CStrCut(s: string, p: nat, i: nat)
    requires p <= |s| && p <= i < p + |CStr(s, p)|
    ensures CStr(s[i := NUL], p) == CStr(s, p)[..i - p]
    ensures CStr(s[i := NUL], i + 1) == CStr(s, p)[i - p + 1..]
  {
    var t, e := s[i := NUL], FindFrom(s, p, {NUL});
    FindFromIs(t, p, {NUL}, i);
    FindFromIs(t, i + 1, {NUL}, e);
    assert s[p..i] == t[p..i] && s[i + 1..e] == t[i + 1..e];
  }

  /** A search that stops at the terminator is a search of the string. */
  lemma FindInCStr(s: string, p: nat, stop: set<char>)
    requires p <= |s| && NUL !in stop
    ensures FindFrom(s, p, stop + {NUL}) == p + FindFrom(CStr(s, p), 0, stop)
  {
    var t := CStr(s, p);
    var j := FindFrom(t, 0, stop);
    forall k | p <= k < p + j
      ensures s[k] !in stop + {NUL}
    {
      assert s[k] == t[k - p];
    }
    FindFromIs(s, p, stop + {NUL}, p + j);
  }

  function Lower(c: char): char {
    if 'A' <= c <= 'Z' then (c as int + 32) as char else c
  }

  /** strcasecmp(a, b) == 0 */
  predicate CaseEqual(a: string, b: string) {
    |a| == |b| && forall i :: 0 <= i < |a| ==> Lower(a[i]) == Lower(b[i])
  }

  /** strncasecmp(s, p, strlen(p)) == 0 */
  predicate CasePrefix(s: string, p: string) {
    |p| <= |s| && CaseEqual(s[..|p|], p)
  }

  const BLANKS: set<char> := {' ', '\t'}

  /** strspn(s, " \t"): how many blanks `s` starts with. */
  function BlankCount(s: string): (n: nat)
    ensures n <= |s|
    ensures forall k :: 0 <= k < n ==> s[k] in BLANKS
    ensures n < |s| ==> s[n] !in BLANKS
  {
    if s == [] || s[0] !in BLANKS then 0 else 1 + BlankCount(s[1..])
  }

  /** What is left after the leading blanks. */
  function SkipBlanks(s: string): string {
    s[BlankCount(s)..]
  }

  /** p + n + strspn(p + n, " \t"): past a prefix of `n` characters and the blanks after it. */
  function PastPrefix(s: string, p: nat, n: nat): nat
    requires p <= |s| && p + n <= |s|
  {
    p + n + BlankCount(CStr(s, p + n))
  }

  lemma PastPrefixIs(s: string, p: nat, n: nat)
    requires p <= |s| && n <= |CStr(s, p)|
    ensures p + n <= |s|
    ensures var q := PastPrefix(s, p, n);
            q <= p + |CStr(s, p)| <= |s| && CStr(s, q) == SkipBlanks(CStr(s, p)[n..])
  {
    hide BlankCount;
    CStrDrop(s, p, n);
    CStrDrop(s, p + n, BlankCount(CStr(s, p + n)));
  }

  /** The value of the leading decimal digits of `s`, accumulated onto `acc`. */
  function DigitsValue(s: string, acc: nat): nat {
    if s == [] || !IsDigit(s[0]) then acc else DigitsValue(s[1..], 10 * acc + (s[0] as int - '0' as int))
  }

  predicate IsSpace(c: char) {
    c == ' ' || '\t' <= c <= '\r'
  }

  function SkipSpace(s: string): string {
    if s == [] || !IsSpace(s[0]) then s else SkipSpace(s[1..])
  }

  const LONG_MAX: int := 0x7fff_ffff_ffff_ffff

  /** atol: white space, an optional sign, digits; out-of-range values saturate. */
  function Atol(s: string): int {
    var t := SkipSpace(s);
    var neg := t != [] && t[0] == '-';
    var u := if t != [] && (t[0] == '-' || t[0] == '+') then t[1..] else t;
    var v: int := DigitsValue(u, 0);
    var n: int := if neg then -v else v;
    if n < -LONG_MAX - 1 then -LONG_MAX - 1 else if n > LONG_MAX then LONG_MAX else n
  }

  /** Conversion of a wider integer to a 32-bit `int`, modulo 2^32. */
  function ToInt32(v: int): (r: int)
    ensures -0x8000_0000 <= r < 0x8000_0000
    ensures (v - r) % 0x1_0000_0000 == 0
    ensures -0x8000_0000 <= v < 0x8000_0000 ==> r == v
  {
    var m := v % 0x1_0000_0000;
    if m < 0x8000_0000 then m else m - 0x1_0000_0000
  }
}
