/** Decimal text of an integer, as Python's `str` and f-strings print it. */
module Decimal {

  function DigitChar(d: int): char
    requires 0 <= d < 10
  {
    ['0', '1', '2', '3', '4', '5', '6', '7', '8', '9'][d]
  }

  predicate IsDigit(c: char) { '0' <= c <= '9' }

  predicate IsNumberChar(c: char) { c == '-' || IsDigit(c) }

  function NatText(n: nat): (s: string)
    ensures |s| > 0 && forall i :: 0 <= i < |s| ==> IsDigit(s[i])
  {
    if n < 10 then [DigitChar(n)] else NatText(n / 10) + [DigitChar(n % 10)]
  }

  function IntText(i: int): (s: string)
    ensures |s| > 0 && forall k :: 0 <= k < |s| ==> IsNumberChar(s[k])
  {
    if i < 0 then "-" + NatText(-i) else NatText(i)
  }

  /** Reads digits back, most significant first. */
  function NatValue(s: string): int {
    if s == "" then 0 else 10 * NatValue(s[..|s| - 1]) + (s[|s| - 1] as int - '0' as int)
  }

  lemma {:induction false} NatTextRoundTrip(n: nat)
    ensures NatValue(NatText(n)) == n
  {
    var s := NatText(n);
    if n >= 10 {
      NatTextRoundTrip(n / 10);
      assert s[..|s| - 1] == NatText(n / 10);
    } else {
      assert s[..|s| - 1] == "";
    }
  }

  lemma NatTextInjective(a: nat, b: nat)
    requires NatText(a) == NatText(b)
    ensures a == b
  {
    NatTextRoundTrip(a);
    NatTextRoundTrip(b);
  }

  lemma IntTextInjective(a: int, b: int)
    requires IntText(a) == IntText(b)
    ensures a == b
  {
    var u := NatText(if a < 0 then -a else a);
    var v := NatText(if b < 0 then -b else b);
    assert a < 0 ==> ("-" + u)[1..] == u && ("-" + u)[0] == '-';
    assert b < 0 ==> ("-" + v)[1..] == v && ("-" + v)[0] == '-';
    assert IsDigit(u[0]) && IsDigit(v[0]);
    NatTextInjective(if a < 0 then -a else a, if b < 0 then -b else b);
  }

  function Pow10(k: nat): nat {
    if k == 0 then 1 else 10 * Pow10(k - 1)
  }

  lemma {:induction false} NatTextLength(n: nat, k: nat)
    requires 0 < k && n < Pow10(k)
    ensures |NatText(n)| <= k
  {
    if n >= 10 {
      NatTextLength(n / 10, k - 1);
    }
  }
}
