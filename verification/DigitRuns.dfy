/** What file_proc.c computes: the sum of the numbers in a text, and the one-pass form of it. */
module DigitRuns {
  import opened Decimal

  const NUL := '\0'

  /** The maximal runs of digits, left to right. */
  function Runs(s: string): (r: seq<string>)
    ensures forall i :: 0 <= i < |r| ==> r[i] != [] && AllDigits(r[i])
  {
    if s == [] then []
    else
      var k := Span(s);
      if k == 0 then Runs(s[1..]) else [s[..k]] + Runs(s[k..])
  }

  function SumOf(r: seq<string>): nat
    requires forall i :: 0 <= i < |r| ==> AllDigits(r[i])
  {
    if r == [] then 0 else Value(r[0]) + SumOf(r[1..])
  }

  /** The exact sum of all numbers in a text. */
  function Total(s: string): nat {
    SumOf(Runs(s))
  }

  /** The digits a text ends with: the run that more digits would continue. */
  function OpenRun(s: string): (r: string)
    ensures AllDigits(r)
  {
    if s == [] || !IsDigit(s[|s| - 1]) then [] else OpenRun(s[..|s| - 1]) + [s[|s| - 1]]
  }

  /** A text is what comes before its open run, which does not end in a digit, and that run. */
  lemma {:induction false} BeforeOpenRun(s: string) returns (p: string)
    ensures s == p + OpenRun(s)
    ensures p == [] || !IsDigit(p[|p| - 1])
  {
    if s == [] || !IsDigit(s[|s| - 1]) {
      p := s;
    } else {
      p := BeforeOpenRun(s[..|s| - 1]);
      assert s == s[..|s| - 1] + [s[|s| - 1]];
    }
  }

  /** The sum of the runs that have ended. */
  function ClosedTotal(s: string): nat {
    if s == [] then 0
    else
      var t := s[..|s| - 1];
      if IsDigit(s[|s| - 1]) then ClosedTotal(t) else ClosedTotal(t) + Value(OpenRun(t))
  }

  lemma {:induction false} TotalSkip(c: char, s: string)
    requires !IsDigit(c)
    ensures Total([c] + s) == Total(s)
  {
    assert ([c] + s)[1..] == s;
  }

  lemma {:induction false} TotalOfRun(p: string, rest: string)
    requires AllDigits(p) && (rest == [] || !IsDigit(rest[0]))
    ensures Total(p + rest) == Value(p) + Total(rest)
  {
    if p == [] {
      assert p + rest == rest;
    } else {
      SpanOfField(p, rest);
      assert (p + rest)[..|p|] == p && (p + rest)[|p|..] == rest;
      var r := Runs(p + rest);
      assert r[1..] == Runs(rest);
    }
  }

  /** A separator splits the sum in two. */
  lemma {:induction false} TotalJoin(a: string, sep: char, b: string)
    requires !IsDigit(sep)
    ensures Total(a + [sep] + b) == Total(a) + Total(b)
    decreases |a|
  {
    var k := Span(a);
    if a == [] {
      assert a + [sep] + b == [sep] + b;
      TotalSkip(sep, b);
    } else if k == 0 {
      var t := a[1..];
      assert a == [a[0]] + t;
      assert a + [sep] + b == [a[0]] + (t + [sep] + b);
      TotalSkip(a[0], t);
      TotalSkip(a[0], t + [sep] + b);
      TotalJoin(t, sep, b);
    } else {
      var p, t := a[..k], a[k..];
      assert a == p + t;
      assert a + [sep] + b == p + (t + [sep] + b);
      TotalOfRun(p, t);
      TotalOfRun(p, t + [sep] + b);
      TotalJoin(t, sep, b);
    }
  }

  lemma {:induction false} ClosedOfDigits(p: string, r: string)
    requires AllDigits(r)
    ensures ClosedTotal(p + r) == ClosedTotal(p)
  {
    if r == [] {
      assert p + r == p;
    } else {
      var q := r[..|r| - 1];
      assert (p + r)[..|p + r| - 1] == p + q;
      ClosedOfDigits(p, q);
    }
  }

  lemma {:induction false} TotalOfDigits(r: string)
    requires AllDigits(r)
    ensures Total(r) == Value(r)
  {
    assert r + [] == r;
    TotalOfRun(r, []);
  }

  /** A separator closes the open run. */
  lemma {:induction false} ClosedSnoc(q: string, sep: char)
    requires !IsDigit(sep)
    ensures ClosedTotal(q + [sep]) == ClosedTotal(q) + Value(OpenRun(q))
  {
    assert (q + [sep])[..|q|] == q;
  }

  lemma {:induction false} DigitsStayOpen(r: string)
    requires AllDigits(r)
    ensures ClosedTotal(r) == 0
  {
    assert [] + r == r;
    ClosedOfDigits([], r);
  }

  lemma {:induction false} SplitAtSeparator(q: string, sep: char, r: string, b: string)
    requires !IsDigit(sep) && AllDigits(r)
    requires Total(q) == ClosedTotal(q) + Value(OpenRun(q))
    ensures Total(q + [sep] + (r + b)) == ClosedTotal(q + [sep] + r) + Total(r + b)
  {
    TotalJoin(q, sep, r + b);
    ClosedOfDigits(q + [sep], r);
    ClosedSnoc(q, sep);
  }

  /** What one pass has closed and what it has still open, with whatever text comes after, add up to
      the exact sum. */
  lemma {:induction false} TotalSplit(a: string, b: string)
    ensures Total(a + b) == ClosedTotal(a) + Total(OpenRun(a) + b)
    decreases |a|, 0
  {
    var r := OpenRun(a);
    var p := BeforeOpenRun(a);
    if p == [] {
      assert a == r;
      DigitsStayOpen(r);
    } else {
      var q, sep := p[..|p| - 1], p[|p| - 1];
      assert a == q + [sep] + r && a + b == q + [sep] + (r + b);
      ClosedIsTotal(q);
      SplitAtSeparator(q, sep, r, b);
    }
  }

  lemma {:induction false} ClosedIsTotal(q: string)
    ensures Total(q) == ClosedTotal(q) + Value(OpenRun(q))
    decreases |q|, 1
  {
    assert q + [] == q && OpenRun(q) + [] == OpenRun(q);
    TotalSplit(q, []);
    TotalOfDigits(OpenRun(q));
  }

  /** Where the first NUL at or after `i` is, or the length. */
  function FirstNul(s: string, i: nat): (k: nat)
    requires i <= |s|
    ensures i <= k <= |s|
    ensures forall j :: i <= j < k ==> s[j] != NUL
    ensures k < |s| ==> s[k] == NUL
    decreases |s| - i
  {
    if i == |s| || s[i] == NUL then i else FirstNul(s, i + 1)
  }
}
