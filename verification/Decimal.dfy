/** Decimal text of integers, as strconv.Itoa and big.Int write it. */
module Decimal {

  function Digit(d: nat): (c: char)
    requires d < 10
    ensures '0' <= c <= '9'
  {
    "0123456789"[d]
  }

  function NatText(n: nat): (s: string)
    ensures |s| > 0
    ensures forall i :: 0 <= i < |s| ==> '0' <= s[i] <= '9'
  {
    if n < 10 then [Digit(n)] else NatText(n / 10) + [Digit(n % 10)]
  }

  function Itoa(n: int): string {
    if n < 0 then "-" + NatText(-n) else NatText(n)
  }

  /** The number a text of decimal digits stands for. */
  function DecimalValue(s: string): nat {
    if |s| == 0 then 0
    else
      var last := s[|s| - 1];
      DecimalValue(s[..|s| - 1]) * 10 + (if '0' <= last <= '9' then last as int - '0' as int else 0)
  }

  /** The number a decimal text with an optional sign stands for. */
  function SignedValue(s: string): int {
    if |s| > 0 && s[0] == '-' then 0 - DecimalValue(s[1..]) else DecimalValue(s)
  }

  lemma SignedRoundTrip(n: int)
    ensures SignedValue(Itoa(n)) == n
  {
    NatTextRoundTrip(if n < 0 then -n else n);
    assert n < 0 ==> Itoa(n)[1..] == NatText(-n);
  }

  lemma {:induction false} NatTextRoundTrip(n: nat)
    ensures DecimalValue(NatText(n)) == n
  {
    if n < 10 {
      assert NatText(n)[..0] == "";
    } else {
      NatTextRoundTrip(n / 10);
      var s := NatText(n);
      assert s[..|s| - 1] == NatText(n / 10);
    }
  }

  lemma ItoaInjective(m: int, n: int)
    requires Itoa(m) == Itoa(n)
    ensures m == n
  {
    assert forall k: int {:trigger Itoa(k)} :: k < 0 <==> Itoa(k)[0] == '-';
    if m < 0 {
      assert NatText(-m) == Itoa(m)[1..] == NatText(-n);
    }
    NatTextRoundTrip(if m < 0 then -m else m);
    NatTextRoundTrip(if n < 0 then -n else n);
  }

  lemma ItoaHasNo(n: int, c: char)
    requires !('0' <= c <= '9') && c != '-'
    ensures c !in Itoa(n)
  {
  }

  /** A text splits in only one way at its last separator. */
  lemma LastSeparator(a: string, x: string, b: string, y: string, c: char)
    requires c !in x && c !in y
    requires a + [c] + x == b + [c] + y
    ensures a == b && x == y
  {
    var s := a + [c] + x;
    assert s[|a|] == c && s[|b|] == c;
    assert forall i :: |a| < i < |s| ==> s[i] == x[i - |a| - 1];
    assert forall i :: |b| < i < |s| ==> s[i] == y[i - |b| - 1];
    assert |a| == |b|;
    assert a == s[..|a|] && b == s[..|b|];
    assert x == s[|a| + 1..] && y == s[|b| + 1..];
  }
}
