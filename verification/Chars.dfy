/** The characters the parsers of both versions and the number formats look for, and a fact about prefixes. */
module Chars {
  const NUL: char := '\0'
  const CR: char := '\r'
  const LF: char := '\n'

  predicate IsDigit(c: char) {
    '0' <= c <= '9'
  }

  /** A text that starts with two parts starts with the first, and goes on with the second. */
  lemma HeadThenTail(s: string, head: string, tail: string)
    requires head + tail <= s
    ensures head <= s && tail <= s[|head|..]
  {
    assert s[..|head|] == (head + tail)[..|head|] == head;
    assert s[|head|..][..|tail|] == (head + tail)[|head|..] == tail;
  }
}
