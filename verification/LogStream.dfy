/** The line buffer and the integer formatter of the version 3.0 logger (version3.0/base/LogStream.h and .cpp). */
module LogStream {
  import opened Chars
  import opened Decimal

  const SMALL_BUFFER: nat := 4000
  const LARGE_BUFFER: nat := 4000 * 1000
  const MAX_NUMERIC_SIZE: nat := 32

  /** A fixed array filled from the front; `cur` is where the next character goes. */
  class FixedBuffer {
    const data: array<char>
    var cur: nat

    ghost predicate Valid()
      reads this
    {
      cur <= data.Length
    }

    ghost function Contents(): string
      requires Valid()
      reads this, data
    {
      data[..cur]
    }

    constructor (size: nat)
      ensures Valid() && Contents() == "" && data.Length == size && fresh(data)
    {
      data := new char[size];
      cur := 0;
    }

    function Avail(): nat
      requires Valid()
      reads this
    {
      data.Length - cur
    }

    function Length(): nat
      reads this
    {
      cur
    }

    /** Text is appended whole, and only when it leaves at least one free character; otherwise nothing happens. */
    method Append(buf: string)
      requires Valid()
      modifies this`cur, data
      ensures Valid()
      ensures Contents() == if |buf| < old(Avail()) then old(Contents()) + buf else old(Contents())
    {
      if Avail() > |buf| {
        forall i | 0 <= i < |buf| {
          data[cur + i] := buf[i];
        }
        cur := cur + |buf|;
      }
    }

    /** Accept `len` characters that have been written at the current position. */
    method Add(len: nat)
      requires Valid() && len <= Avail()
      modifies this`cur
      ensures Valid() && Contents() == old(Contents()) + data[old(cur)..old(cur) + len]
    {
      cur := cur + len;
    }

    method Reset()
      modifies this`cur
      ensures Valid() && Contents() == ""
    {
      cur := 0;
    }

    method BZero()
      requires Valid()
      modifies data
      ensures forall i :: 0 <= i < data.Length ==> data[i] == NUL
    {
      forall i | 0 <= i < data.Length {
        data[i] := NUL;
      }
    }
  }

  const DIGITS: string := "9876543210123456789"
  const ZERO: nat := 9  // where `zero` points into DIGITS

  /** The C operators / and %, which truncate toward zero. */
  function TruncatedDiv(i: int, d: int): int
    requires d > 0
  {
    if i < 0 then -((-i) / d) else i / d
  }

  function TruncatedMod(i: int, d: int): int
    requires d > 0
  {
    i - d * TruncatedDiv(i, d)
  }

  function Magnitude(i: int): nat {
    if i < 0 then -i else i
  }

  /** One digit: the table is indexed by remainders of either sign. */
  lemma LastDigit(i: int)
    ensures -9 <= TruncatedMod(i, 10) <= 9
    ensures DIGITS[ZERO + TruncatedMod(i, 10)] == DigitChar(Magnitude(i) % 10)
    ensures Magnitude(TruncatedDiv(i, 10)) == Magnitude(i) / 10
    ensures i < 0 ==> TruncatedDiv(i, 10) <= 0
    ensures i >= 0 ==> TruncatedDiv(i, 10) >= 0
  {
    var m := Magnitude(i) % 10;
    assert TruncatedMod(i, 10) == if i < 0 then -m else m;
    assert DIGITS[ZERO + m] == DigitChar(m) && DIGITS[ZERO - m] == DigitChar(m);
  }

  /** std::reverse(buf + lo, buf + hi) */
  method ReverseRange(buf: array<char>, lo: nat, hi: nat)
    requires lo <= hi <= buf.Length
    modifies buf
    ensures buf[lo..hi] == Reversed(old(buf[lo..hi]))
    ensures forall k :: 0 <= k < buf.Length && !(lo <= k < hi) ==> buf[k] == old(buf[k])
  {
    var first, last := lo, hi;
    while first < last
      invariant lo <= first && last <= hi && first - lo == hi - last
      invariant first <= last + 1
      invariant forall k :: lo <= k < first ==> buf[k] == old(buf[lo + hi - 1 - k])
      invariant forall k :: last <= k < hi ==> buf[k] == old(buf[lo + hi - 1 - k])
      invariant forall k :: 0 <= k < buf.Length && !(lo <= k < first) && !(last <= k < hi) ==> buf[k] == old(buf[k])
      decreases last - first
    {
      last := last - 1;
      if first < last {
        buf[first], buf[last] := buf[last], buf[first];
      }
      first := first + 1;
    }
    ghost var now, was := buf[lo..hi], old(buf[lo..hi]);
    forall k | 0 <= k < hi - lo
      ensures now[k] == was[hi - lo - 1 - k]
    {
      assert now[k] == buf[lo + k] == old(buf[hi - 1 - k]);
    }
  }

  /** From position `k` on, `all` holds the digits of `m`: the first of them and what follows. */
  lemma NextDigit(all: string, k: nat, m: nat)
    requires k <= |all| && all[k..] == ReversedDigits(m)
    ensures k < |all| && all[k] == DigitChar(m % 10)
    ensures if m / 10 == 0 then k + 1 == |all| else all[k + 1..] == ReversedDigits(m / 10)
  {
    assert all[k + 1..] == all[k..][1..];
  }

  /** The loop of convert: the digits of `value`, last one first, written from `at` up to `p`. */
  method WriteDigits(buf: array<char>, at: nat, value: int) returns (p: nat)
    requires at + |ReversedDigits(Magnitude(value))| <= buf.Length
    modifies buf
    ensures p == at + |ReversedDigits(Magnitude(value))| && buf[at..p] == ReversedDigits(Magnitude(value))
    ensures forall k :: 0 <= k < buf.Length && !(at <= k < p) ==> buf[k] == old(buf[k])
  {
    hide TruncatedDiv, TruncatedMod, DigitChar, ReversedDigits;
    ghost var all := ReversedDigits(Magnitude(value));
    var i := value;
    p := at;
    while true
      invariant at <= p <= at + |all|
      invariant forall k :: at <= k < p ==> buf[k] == all[k - at]
      invariant all[p - at..] == ReversedDigits(Magnitude(i))
      invariant forall k :: 0 <= k < buf.Length && !(at <= k < p) ==> buf[k] == old(buf[k])
      decreases Magnitude(i)
    {
      LastDigit(i);
      NextDigit(all, p - at, Magnitude(i));
      var lsd := TruncatedMod(i, 10);
      i := TruncatedDiv(i, 10);
      buf[p] := DIGITS[ZERO + lsd];
      p := p + 1;
      if i == 0 {
        break;
      }
    }
  }

  /** The digits, last one first, and the sign after them: the notation backwards. */
  method WriteBackwards(buf: array<char>, at: nat, value: int) returns (p: nat)
    requires MIN_INT64 <= value <= MAX_UINT64 && at + 20 <= buf.Length
    modifies buf
    ensures at < p <= at + 20 && Reversed(buf[at..p]) == Notation(value)
    ensures forall k :: 0 <= k < buf.Length && !(at <= k < p) ==> buf[k] == old(buf[k])
  {
    hide ReversedDigits, Reversed;
    NotationLength(value);
    p := WriteDigits(buf, at, value);
    if value < 0 {
      ghost var digits := buf[at..p];
      buf[p] := '-';
      p := p + 1;
      assert buf[at..p] == digits + "-";
      ReversedSign(digits);
    }
  }

  /** convert(buf + at, value): write the decimal notation of `value` and a NUL, and return its length. */
  method Convert(buf: array<char>, at: nat, value: int) returns (len: nat)
    requires MIN_INT64 <= value <= MAX_UINT64 && at + 21 <= buf.Length
    modifies buf
    ensures 0 < len <= 20 && buf[at..at + len] == Notation(value) && buf[at + len] == NUL
    ensures forall k :: 0 <= k < buf.Length && !(at <= k <= at + len) ==> buf[k] == old(buf[k])
  {
    hide Reversed, Notation;
    var p := WriteBackwards(buf, at, value);
    ghost var written := buf[at..p];
    buf[p] := NUL;
    assert buf[at..p] == written;
    ReverseRange(buf, at, p);
    len := p - at;
  }

  lemma ReversedSign(s: string)
    ensures Reversed(s + "-") == "-" + Reversed(s)
  {
  }

  class LogStream {
    const buffer: FixedBuffer

    ghost predicate Valid()
      reads this, buffer
    {
      buffer.Valid() && buffer.data.Length == SMALL_BUFFER
    }

    constructor ()
      ensures Valid() && buffer.Contents() == "" && fresh(buffer) && fresh(buffer.data)
    {
      buffer := new FixedBuffer(SMALL_BUFFER);
    }

    /** formatInteger(v): the notation of `v` is appended whole when 32 characters are free, and nothing otherwise. */
    method FormatInteger(v: int)
      requires Valid() && MIN_INT64 <= v <= MAX_UINT64
      modifies buffer, buffer.data
      ensures Valid()
      ensures buffer.Contents() ==
              if old(buffer.Avail()) >= MAX_NUMERIC_SIZE then old(buffer.Contents()) + Notation(v)
              else old(buffer.Contents())
    {
      if buffer.Avail() >= MAX_NUMERIC_SIZE {
        var len := Convert(buffer.data, buffer.cur, v);
        buffer.Add(len);
      }
    }
  }
}
