/** Decimal notation of integers: how it is written, how it is read, and that the two agree. */
module Decimal {
  import opened Chars

  function DigitChar(d: nat): char
    requires d < 10
  {
    (d + '0' as int) as char
  }

  /** The digits of `n`, least significant first. */
  function ReversedDigits(n: nat): (s: string)
    ensures s != "" && forall i :: 0 <= i < |s| ==> IsDigit(s[i])
  {
    if n < 10 then [DigitChar(n)] else [DigitChar(n % 10)] + ReversedDigits(n / 10)
  }

  function Reversed(s: string): (r: string)
    ensures |r| == |s| && forall i :: 0 <= i < |s| ==> r[i] == s[|s| - 1 - i]
  {
    seq(|s|, i requires 0 <= i < |s| => s[|s| - 1 - i])
  }

  /** The usual notation, most significant digit first, with a minus sign for negative values. */
  function Notation(v: int): string {
    if v < 0 then "-" + Reversed(ReversedDigits(-v)) else Reversed(ReversedDigits(v))
  }

  /** The number a string of digits stands for. */
  function NaturalValue(s: string): nat
    requires forall i :: 0 <= i < |s| ==> IsDigit(s[i])
  {
    if s == "" then 0
    else
      assert IsDigit(s[|s| - 1]);
      10 * NaturalValue(s[..|s| - 1]) + (s[|s| - 1] as int - '0' as int)
  }

  /** Digits without a leading zero, other than "0" itself. */
  predicate IsNatural(s: string) {
    && s != ""
    && (forall i :: 0 <= i < |s| ==> IsDigit(s[i]))
    && (|s| > 1 ==> s[0] != '0')
  }

  /** Canonical form: a natural, or a minus sign and a natural that is not zero. */
  predicate IsCanonical(s: string) {
    IsNatural(s) || (|s| > 1 && s[0] == '-' && IsNatural(s[1..]) && s[1..] != "0")
  }

  function Value(s: string): int
    requires IsCanonical(s)
  {
    var n: int := NaturalValue(if s[0] == '-' then s[1..] else s);
    if s[0] == '-' then -n else n
  }

  lemma ReversedStep(d: char, s: string)
    ensures Reversed([d] + s) == Reversed(s) + [d]
  {
  }

  lemma {:induction false} DigitsReadBack(n: nat)
    ensures var s := Reversed(ReversedDigits(n));
            IsNatural(s) && NaturalValue(s) == n && (n > 0 ==> s[0] != '0')
  {
    var s := Reversed(ReversedDigits(n));
    if n < 10 {
      assert s == [DigitChar(n)] && s[..0] == "";
    } else {
      var d := DigitChar(n % 10);
      DigitsReadBack(n / 10);
      ReversedStep(d, ReversedDigits(n / 10));
      assert s[..|s| - 1] == Reversed(ReversedDigits(n / 10));
    }
  }

  /** Round trip: the notation of every integer is canonical and reads back to it. */
  lemma NotationReadsBack(v: int)
    ensures IsCanonical(Notation(v)) && Value(Notation(v)) == v
  {
    var n: nat := if v < 0 then -v else v;
    DigitsReadBack(n);
    if v < 0 {
      assert Notation(v)[1..] == Reversed(ReversedDigits(n));
      assert NaturalValue("0") == 0 by { assert "0"[..0] == ""; }
    }
  }

  lemma {:induction false} NaturalIsNotation(s: string)
    requires IsNatural(s)
    ensures s == Reversed(ReversedDigits(NaturalValue(s)))
    ensures NaturalValue(s) == 0 ==> s == "0"
    decreases |s|
  {
    var k := |s| - 1;
    var init, d := s[..k], s[k];
    assert s == init + [d];
    if k == 0 {
      assert NaturalValue(init) == 0;
    } else {
      NaturalIsNotation(init);
      assert init[0] != '0' && NaturalValue(init) > 0;
      var n := NaturalValue(s);
      assert n / 10 == NaturalValue(init) && DigitChar(n % 10) == d;
      ReversedStep(d, ReversedDigits(n / 10));
    }
  }

  /** Canonical notation is unique: a canonical string is the notation of the value it reads back to. */
  lemma CanonicalIsNotation(s: string)
    requires IsCanonical(s)
    ensures s == Notation(Value(s))
  {
    if s[0] == '-' {
      NaturalIsNotation(s[1..]);
      assert s == "-" + s[1..];
    } else {
      NaturalIsNotation(s);
    }
  }

  function Power10(k: nat): nat {
    if k == 0 then 1 else 10 * Power10(k - 1)
  }

  lemma {:induction false} DigitCount(n: nat, k: nat)
    requires k > 0 && n < Power10(k)
    ensures |ReversedDigits(n)| <= k
  {
    if n >= 10 {
      assert k > 1 by { assert Power10(1) == 10 * Power10(0); }
      DigitCount(n / 10, k - 1);
    }
  }

  const MIN_INT64: int := -0x8000_0000_0000_0000
  const MAX_UINT64: int := 0xffff_ffff_ffff_ffff

  /** Every signed or unsigned 64-bit value takes at most 20 characters. */
  lemma NotationLength(v: int)
    requires MIN_INT64 <= v <= MAX_UINT64
    ensures 0 < |Notation(v)| <= 20
  {
    var p5 := Power10(5);
    assert p5 == 100000 by {
      assert Power10(2) == 100;
      assert Power10(4) == 10000;
    }
    assert Power10(10) == 10000000000 by {
      assert Power10(7) == 10000000;
      assert Power10(9) == 1000000000;
    }
    assert Power10(15) == 1000000000000000 by {
      assert Power10(12) == 1000000000000;
      assert Power10(14) == 100000000000000;
    }
    assert Power10(19) == 10000000000000000000 by {
      assert Power10(17) == 100000000000000000;
    }
    if v < 0 {
      DigitCount(-v, 19);
    } else {
      DigitCount(v, 20);
    }
  }
}
