/** Numbers printed in decimal, and read back. */
module Decimals {
  import opened Words

  predicate IsDigit(c: byte) {
    48 <= c <= 57
  }

  predicate AllDigits(s: seq<byte>) {
    forall i :: 0 <= i < |s| ==> IsDigit(s[i])
  }

  /** `%u`: as many digits as needed. */
  function Digits(n: nat): (s: seq<byte>)
    ensures |s| > 0 && AllDigits(s)
  {
    if n < 10 then [48 + n] else Digits(n / 10) + [48 + n % 10]
  }

  /** The number that a decimal text stands for. */
  function Value(s: seq<byte>): (n: nat)
    requires AllDigits(s)
  {
    if s == [] then 0 else 10 * Value(s[..|s| - 1]) + (s[|s| - 1] - 48)
  }

  function Pow10(w: nat): (r: nat)
    ensures r > 0
  {
    if w == 0 then 1 else 10 * Pow10(w - 1)
  }

  /** Reading back what was printed gives the number. */
  lemma {:induction false} ValueOfDigits(n: nat)
    ensures Value(Digits(n)) == n
  {
    if n >= 10 {
      ValueOfDigits(n / 10);
      assert Digits(n)[..|Digits(n)| - 1] == Digits(n / 10);
    }
  }

  /** Zeros in front do not count. */
  lemma {:induction false} ValueOfPadded(zeros: seq<byte>, s: seq<byte>)
    requires AllDigits(s) && forall i :: 0 <= i < |zeros| ==> zeros[i] == 48
    ensures AllDigits(zeros + s) && Value(zeros + s) == Value(s)
  {
    if s != [] {
      var n := |s| - 1;
      ValueOfPadded(zeros, s[..n]);
      assert (zeros + s)[..|zeros + s| - 1] == zeros + s[..n];
    } else if zeros != [] {
      var n := |zeros| - 1;
      ValueOfPadded(zeros[..n], s);
      assert (zeros + s)[..n] == zeros[..n] + s && (zeros + s)[n] == 48;
    }
  }
}
