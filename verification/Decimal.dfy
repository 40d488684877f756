/** Decimal text: the `%lu` and `%d` digits of a natural number, and the value of a digit string. */
module Decimal {

  predicate IsDigit(c: char) {
    '0' <= c <= '9'
  }

  predicate AllDigits(s: string) {
    forall i :: 0 <= i < |s| ==> IsDigit(s[i])
  }

  function DigitValue(c: char): (d: nat)
    requires IsDigit(c)
    ensures d < 10
  {
    c as int - '0' as int
  }

  function DigitChar(d: nat): (c: char)
    requires d < 10
    ensures IsDigit(c) && DigitValue(c) == d
  {
    ('0' as int + d) as char
  }

  /** The ten digits, in order, are worth 0 to 9: there are ten values below 10, and each next digit has
      a larger one. */
  lemma DigitsAscend(c: char, d: char)
    requires IsDigit(c) && IsDigit(d)
    ensures c < d <==> DigitValue(c) < DigitValue(d)
    ensures DigitValue('0') == 0 && DigitValue('9') == 9
  {
  }

  /** The number that the first `n` digits of a string denote, most significant digit first. */
  function ValueTo(s: string, n: nat): nat
    requires n <= |s| && AllDigits(s)
  {
    if n == 0 then 0 else 10 * ValueTo(s, n - 1) + DigitValue(s[n - 1])
  }

  function Value(s: string): nat
    requires AllDigits(s)
  {
    ValueTo(s, |s|)
  }

  /** A digit string in the form a printer gives it: no leading zero except in "0" itself. */
  predicate Canonical(s: string) {
    && AllDigits(s)
    && s != []
    && (s[0] == '0' ==> |s| == 1)
  }

  function Print(n: nat): string {
    if n < 10 then [DigitChar(n)] else Print(n / 10) + [DigitChar(n % 10)]
  }

  lemma {:induction false} PrintIsCanonical(n: nat)
    ensures Canonical(Print(n))
    ensures Print(n)[0] == '0' <==> n == 0
  {
    if n >= 10 {
      PrintIsCanonical(n / 10);
    }
  }

  lemma {:induction false} ValueToPrefix(s: string, t: string, n: nat)
    requires AllDigits(s) && AllDigits(t) && n <= |s| && n <= |t|
    requires forall i :: 0 <= i < n ==> s[i] == t[i]
    ensures ValueTo(s, n) == ValueTo(t, n)
  {
    if n > 0 {
      ValueToPrefix(s, t, n - 1);
    }
  }

  lemma {:induction false} ValueSnoc(t: string, c: char)
    requires AllDigits(t) && IsDigit(c)
    ensures AllDigits(t + [c]) && Value(t + [c]) == 10 * Value(t) + DigitValue(c)
  {
    ValueToPrefix(t + [c], t, |t|);
  }

  lemma {:induction false} ValueOfPrint(n: nat)
    ensures AllDigits(Print(n)) && Value(Print(n)) == n
  {
    if n < 10 {
      assert Print(n) == [] + [DigitChar(n)];
      ValueSnoc([], DigitChar(n));
    } else {
      ValueOfPrint(n / 10);
      ValueSnoc(Print(n / 10), DigitChar(n % 10));
    }
  }

  lemma PrintSnoc(v: nat, c: char)
    requires v > 0 && IsDigit(c)
    ensures Print(10 * v + DigitValue(c)) == Print(v) + [c]
  {
    var n, d := 10 * v + DigitValue(c), DigitValue(c);
    assert n / 10 == v && n % 10 == d;
    assert DigitChar(d) == c;
  }

  lemma PrintOfDigit(c: char)
    requires IsDigit(c)
    ensures Print(DigitValue(c)) == [c]
  {
    assert DigitChar(DigitValue(c)) == c;
  }

  /** Printing a number that grew by one digit, for the number's own text `t`. */
  lemma PrintGrows(v: nat, t: string, c: char)
    requires t != [] && t[0] != '0' && IsDigit(c) && Print(v) == t
    ensures Print(10 * v + DigitValue(c)) == t + [c]
  {
    PrintIsCanonical(v);
    PrintSnoc(v, c);
  }

  lemma {:induction false} PrintOfPrefix(s: string, n: nat)
    requires Canonical(s) && 0 < n <= |s|
    ensures Print(ValueTo(s, n)) == s[..n]
  {
    assert s[..n] == s[..n - 1] + [s[n - 1]];
    if n == 1 {
      PrintOfDigit(s[0]);
    } else {
      PrintOfPrefix(s, n - 1);
      PrintGrows(ValueTo(s, n - 1), s[..n - 1], s[n - 1]);
    }
  }

  lemma PrintOfValue(s: string)
    requires Canonical(s)
    ensures Print(Value(s)) == s
  {
    PrintOfPrefix(s, |s|);
    assert s[..|s|] == s;
  }

  function Pow10(k: nat): (p: nat)
    ensures p > 0
  {
    if k == 0 then 1 else 10 * Pow10(k - 1)
  }

  lemma Pow10Values()
    ensures Pow10(15) == 1_000_000_000_000_000
    ensures Pow10(20) == 100_000_000_000_000_000_000
  {
    assert Pow10(1) == 10;
    assert Pow10(3) == 1_000;
    assert Pow10(5) == 100_000;
    assert Pow10(7) == 10_000_000;
    assert Pow10(9) == 1_000_000_000;
    assert Pow10(11) == 100_000_000_000;
    assert Pow10(13) == 10_000_000_000_000;
    assert Pow10(15) == 1_000_000_000_000_000;
    assert Pow10(17) == 100_000_000_000_000_000;
    assert Pow10(19) == 10_000_000_000_000_000_000;
  }

  /** A number prints in at most k characters exactly when it is below 10^k. */
  lemma {:induction false} PrintLength(n: nat, k: nat)
    requires k > 0
    ensures |Print(n)| <= k <==> n < Pow10(k)
  {
    if k == 1 {
      assert Pow10(1) == 10 * Pow10(0);
    } else if n >= 10 {
      PrintLength(n / 10, k - 1);
      var p := Pow10(k - 1);
      assert Pow10(k) == 10 * p;
    } else {
      assert Pow10(k) == 10 * Pow10(k - 1);
    }
  }

  /** How many leading characters are digits. */
  function Span(s: string): (k: nat)
    ensures k <= |s|
    ensures AllDigits(s[..k])
    ensures k < |s| ==> !IsDigit(s[k])
  {
    if s == [] || !IsDigit(s[0]) then 0
    else
      var k := Span(s[1..]);
      assert forall i :: 0 < i < k + 1 ==> s[i] == s[1..][..k][i - 1];
      k + 1
  }

  /** A digit string followed by a non-digit is exactly the leading digits. */
  lemma {:induction false} SpanOfField(p: string, rest: string)
    requires AllDigits(p)
    requires rest == [] || !IsDigit(rest[0])
    ensures Span(p + rest) == |p|
  {
    if p == [] {
      assert p + rest == rest;
    } else {
      SpanOfField(p[1..], rest);
      assert (p + rest)[1..] == p[1..] + rest;
    }
  }
}
