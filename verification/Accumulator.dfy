/** The procfs accumulator of file_proc.c, on values: what a write of any text leaves, and the loop that
    computes it. */
module Accumulator {
  import opened Decimal
  import opened DigitRuns

  const MAX_INPUT_SIZE: nat := 1024

  /** A text as C sees it. */
  function BeforeNul(text: string): string {
    text[..FirstNul(text, 0)]
  }

  /** As much of a text as the buffer takes. */
  function Kept(text: string): (t: string)
    ensures |t| <= MAX_INPUT_SIZE && t <= text
  {
    if |text| > MAX_INPUT_SIZE then text[..MAX_INPUT_SIZE] else text
  }

  /** What the loop can see of a text. */
  function Visible(text: string): string {
    Kept(BeforeNul(text))
  }

  /** The loop meets a terminator after the visible text. It does not if that fills the buffer, for
      then the terminator is stored one past the end. */
  predicate Terminated(text: string) {
    |BeforeNul(text)| < MAX_INPUT_SIZE
  }

  /** The sum that a write leaves, for any text. */
  function Accumulated(text: string): (r: nat)
    ensures r < 0x1_0000_0000_0000_0000
  {
    var v := Visible(text);
    (if Terminated(text) then Total(v) else ClosedTotal(v)) % 0x1_0000_0000_0000_0000
  }

  lemma AddsNothing(a: nat, b: nat)
    ensures a % 0x1_0000_0000_0000_0000 == (a + b) % 0x1_0000_0000_0000_0000
            <==> b % 0x1_0000_0000_0000_0000 == 0
  {
  }

  /** What the code loses of a text: the digits that run into the buffer's end, with all that follows
      the buffer. */
  function Lost(text: string): nat {
    var t := BeforeNul(text);
    if |t| < MAX_INPUT_SIZE then 0
    else Total(OpenRun(t[..MAX_INPUT_SIZE]) + t[MAX_INPUT_SIZE..])
  }

  lemma VisibleAndLost(text: string)
    ensures Total(BeforeNul(text))
         == (if Terminated(text) then Total(Visible(text)) else ClosedTotal(Visible(text))) + Lost(text)
  {
    var t := BeforeNul(text);
    if |t| >= MAX_INPUT_SIZE {
      assert t == t[..MAX_INPUT_SIZE] + t[MAX_INPUT_SIZE..];
      assert Visible(text) == t[..MAX_INPUT_SIZE];
      TotalSplit(t[..MAX_INPUT_SIZE], t[MAX_INPUT_SIZE..]);
    }
  }

  /** Every number of a text up to its first NUL is counted, modulo 2^64, exactly when the text ends
      inside the buffer, or else what crosses or follows the buffer's end is worth nothing. */
  lemma CountsAllIff(text: string)
    ensures Accumulated(text) == Total(BeforeNul(text)) % 0x1_0000_0000_0000_0000
            <==> || |BeforeNul(text)| < MAX_INPUT_SIZE
                 || Total(OpenRun(BeforeNul(text)[..MAX_INPUT_SIZE]) + BeforeNul(text)[MAX_INPUT_SIZE..])
                    % 0x1_0000_0000_0000_0000 == 0
  {
    VisibleAndLost(text);
    AddsNothing(if Terminated(text) then Total(Visible(text)) else ClosedTotal(Visible(text)), Lost(text));
  }

  lemma BeforeNulWhole(text: string)
    requires NUL !in text
    ensures BeforeNul(text) == text
  {
    assert text[..|text|] == text;
  }

  /** A buffer full of digits counts for nothing. */
  lemma FullOfDigits(s: string)
    requires |s| == 1024 && AllDigits(s)
    ensures Accumulated(s) == 0
  {
    BeforeNulWhole(s);
    DigitsStayOpen(s);
  }

  lemma {:induction false} NoDigits(s: string)
    requires forall i :: 0 <= i < |s| ==> !IsDigit(s[i])
    ensures ClosedTotal(s) == 0 && OpenRun(s) == []
  {
    if s != [] {
      NoDigits(s[..|s| - 1]);
    }
  }

  lemma TotalOfDigit(d: char)
    requires IsDigit(d)
    ensures Total([d]) == DigitValue(d)
  {
    TotalOfDigits([d]);
    ValueSnoc([], d);
    assert [] + [d] == [d];
  }

  lemma NothingVisible(s: string, more: string)
    requires |s| == MAX_INPUT_SIZE && NUL !in s + more && ClosedTotal(s) == 0
    ensures Accumulated(s + more) == 0
  {
    BeforeNulWhole(s + more);
    assert Visible(s + more) == s;
  }

  /** A digit behind a buffer full of other characters is lost. */
  lemma LostTail(s: string, d: char)
    requires |s| == 1024 && NUL !in s && IsDigit(d)
    requires forall i :: 0 <= i < |s| ==> !IsDigit(s[i])
    ensures Accumulated(s + [d]) == 0 && Total(s + [d]) == DigitValue(d)
  {
    NoDigits(s);
    NothingVisible(s, [d]);
    TotalSplit(s, [d]);
    assert [] + [d] == [d];
    TotalOfDigit(d);
  }

  lemma ShortAccumulates(text: string)
    requires |text| < MAX_INPUT_SIZE && NUL !in text
    ensures Accumulated(text) == Total(text) % 0x1_0000_0000_0000_0000
  {
    BeforeNulWhole(text);
  }

  lemma WrappedSum(a: nat, b: nat)
    ensures (a % 0x1_0000_0000_0000_0000 + b % 0x1_0000_0000_0000_0000) % 0x1_0000_0000_0000_0000
         == (a + b) % 0x1_0000_0000_0000_0000
  {
  }

  lemma SumOfLow(x: nat, y: nat, r: nat, s: nat, t: nat)
    requires r == x % 0x1_0000_0000_0000_0000 && s == y % 0x1_0000_0000_0000_0000
    requires t == (x + y) % 0x1_0000_0000_0000_0000
    ensures t == (r + s) % 0x1_0000_0000_0000_0000
  {
    WrappedSum(x, y);
  }

  /** Joining two texts with a separator adds their results. */
  lemma JoinAdds(a: string, sep: char, b: string)
    requires NUL !in a && NUL !in b && sep != NUL && !IsDigit(sep)
    requires |a| + 1 + |b| < MAX_INPUT_SIZE
    ensures Accumulated(a + [sep] + b) == (Accumulated(a) + Accumulated(b)) % 0x1_0000_0000_0000_0000
  {
    ShortAccumulates(a);
    ShortAccumulates(b);
    JoinAccumulates(a, sep, b);
    SumOfLow(Total(a), Total(b), Accumulated(a), Accumulated(b), Accumulated(a + [sep] + b));
  }

  lemma JoinAccumulates(a: string, sep: char, b: string)
    requires NUL !in a && NUL !in b && sep != NUL && !IsDigit(sep)
    requires |a| + 1 + |b| < MAX_INPUT_SIZE
    ensures Accumulated(a + [sep] + b) == (Total(a) + Total(b)) % 0x1_0000_0000_0000_0000
  {
    ShortAccumulates(a + [sep] + b);
    TotalJoin(a, sep, b);
  }

  lemma TotalOfLine(p: string)
    requires AllDigits(p)
    ensures Total(p + "\n") == Value(p)
  {
    assert p + "\n" == p + ['\n'] + [];
    TotalJoin(p, '\n', []);
    TotalOfDigits(p);
  }

  lemma PrintIsShort(v: nat)
    requires v < 0x1_0000_0000_0000_0000
    ensures |Print(v)| <= 20
  {
    Pow10Values();
    PrintLength(v, 20);
  }

  lemma LineAccumulates(p: string)
    requires AllDigits(p) && |p| <= 20
    ensures Accumulated(p + "\n") == Value(p) % 0x1_0000_0000_0000_0000
  {
    ShortAccumulates(p + "\n");
    TotalOfLine(p);
  }

  /** Writing back what was read changes nothing, for every value of an `unsigned long`. */
  lemma WriteBack(v: nat)
    requires v < 0x1_0000_0000_0000_0000
    ensures Accumulated(Print(v) + "\n") == v
  {
    PrintIsShort(v);
    ValueOfPrint(v);
    LineAccumulates(Print(v));
  }

  /** `char result[16]` holds the sum and its terminator exactly below 10^15. */
  lemma ResultFits(v: nat)
    ensures |Print(v)| + 1 <= 16 <==> v < 1_000_000_000_000_000
  {
    Pow10Values();
    PrintLength(v, 15);
  }

  /** The loop variables `num` and `sum`. */
  datatype Vars = Vars(num: nat, sum: nat)

  /** The body of the loop, for one character, in 64 bits. */
  function Digested(v: Vars, c: char): Vars {
    if IsDigit(c) then Vars((v.num * 10 + DigitValue(c)) % 0x1_0000_0000_0000_0000, v.sum)
    else Vars(0, (v.sum + v.num) % 0x1_0000_0000_0000_0000)
  }

  /** The variables after the first `i` characters of the buffer. */
  function VarsAt(cells: string, i: nat): Vars
    requires i <= |cells|
  {
    if i == 0 then Vars(0, 0) else Digested(VarsAt(cells, i - 1), cells[i - 1])
  }

  /** The same in unbounded integers. */
  function ExactlyDigested(v: Vars, c: char): Vars {
    if IsDigit(c) then Vars(10 * v.num + DigitValue(c), v.sum) else Vars(0, v.sum + v.num)
  }

  function ExactlyAt(cells: string, i: nat): Vars
    requires i <= |cells|
  {
    if i == 0 then Vars(0, 0) else ExactlyDigested(ExactlyAt(cells, i - 1), cells[i - 1])
  }

  function Low(v: Vars): Vars {
    Vars(v.num % 0x1_0000_0000_0000_0000, v.sum % 0x1_0000_0000_0000_0000)
  }

  lemma LowDigested(v: Vars, c: char)
    ensures Digested(Low(v), c) == Low(ExactlyDigested(v, c))
  {
    if IsDigit(c) {
      WrappedDigit(v.num, DigitValue(c));
    } else {
      WrappedSum(v.sum, v.num);
    }
  }

  lemma AddMultiple(x: nat, q: nat)
    ensures (x + q * 0x1_0000_0000_0000_0000) % 0x1_0000_0000_0000_0000 == x % 0x1_0000_0000_0000_0000
  {
  }

  lemma WrappedDigit(v: nat, d: nat)
    ensures (v % 0x1_0000_0000_0000_0000 * 10 + d) % 0x1_0000_0000_0000_0000
         == (10 * v + d) % 0x1_0000_0000_0000_0000
  {
    var q, r := v / 0x1_0000_0000_0000_0000, v % 0x1_0000_0000_0000_0000;
    assert 10 * v + d == r * 10 + d + 10 * q * 0x1_0000_0000_0000_0000;
    AddMultiple(r * 10 + d, 10 * q);
  }

  /** Wrapping at every step is wrapping once at the end. */
  lemma {:induction false} WrapsOnce(cells: string, i: nat)
    requires i <= |cells|
    ensures VarsAt(cells, i) == Low(ExactlyAt(cells, i))
  {
    if i > 0 {
      WrapsOnce(cells, i - 1);
      LowDigested(ExactlyAt(cells, i - 1), cells[i - 1]);
    }
  }

  lemma {:induction false} ExactlyAtPrefix(cells: string, n: nat, i: nat)
    requires i <= n <= |cells|
    ensures ExactlyAt(cells[..n], i) == ExactlyAt(cells, i)
  {
    if i > 0 {
      ExactlyAtPrefix(cells, n, i - 1);
      assert cells[..n][i - 1] == cells[i - 1];
    }
  }

  /** `num` is the open run and `sum` the closed ones. */
  lemma {:induction false} ExactlyTracks(p: string)
    ensures ExactlyAt(p, |p|) == Vars(Value(OpenRun(p)), ClosedTotal(p))
    decreases |p|
  {
    if p != [] {
      var n := |p| - 1;
      ExactlyTracks(p[..n]);
      ExactlyAtPrefix(p, n, n);
      if IsDigit(p[n]) {
        ValueSnoc(OpenRun(p[..n]), p[n]);
      }
    }
  }

  /** How many characters the loop looks at. */
  function Looked(cells: string): (n: nat)
    ensures n <= |cells|
  {
    var k := FirstNul(cells, 0);
    if k < MAX_INPUT_SIZE && k < |cells| then k + 1 else if MAX_INPUT_SIZE <= |cells| then MAX_INPUT_SIZE else k
  }

  /** As much of the text as fits is in the buffer, and a terminator behind it. */
  ghost predicate Loaded(cells: string, text: string) {
    && |cells| == MAX_INPUT_SIZE + 1
    && cells[..|Kept(text)|] == Kept(text) && cells[|Kept(text)|] == NUL
  }

  lemma LoadedNul(cells: string, text: string)
    requires Loaded(cells, text)
    ensures FirstNul(cells, 0) == |Visible(text)| && cells[..|Visible(text)|] == Visible(text)
  {
    var k := Kept(text);
    assert forall i :: 0 <= i < |k| ==> cells[i] == k[i] == text[i];
  }

  /** The loop looks at the visible text and, if it is there to be seen, the NUL behind it. */
  lemma LooksAt(cells: string, text: string)
    requires Loaded(cells, text)
    ensures cells[..Looked(cells)] == Visible(text) + if Terminated(text) then [NUL] else []
  {
    LoadedNul(cells, text);
    var k := |Visible(text)|;
    assert k < MAX_INPUT_SIZE ==> cells[..k + 1] == cells[..k] + [NUL];
  }

  lemma ClosedOfLooked(p: string, v: string, terminated: bool)
    requires p == v + if terminated then [NUL] else []
    ensures ClosedTotal(p) == if terminated then Total(v) else ClosedTotal(v)
  {
    if terminated {
      ClosedSnoc(v, NUL);
      ClosedIsTotal(v);
    } else {
      assert p == v;
    }
  }

  /** The exact sum when the loop stops. */
  lemma ExactSum(cells: string, text: string)
    requires Loaded(cells, text)
    ensures ExactlyAt(cells, Looked(cells)).sum
         == if Terminated(text) then Total(Visible(text)) else ClosedTotal(Visible(text))
  {
    LooksAt(cells, text);
    ExactlyAtPrefix(cells, Looked(cells), Looked(cells));
    ExactlyTracks(cells[..Looked(cells)]);
    ClosedOfLooked(cells[..Looked(cells)], Visible(text), Terminated(text));
  }

  /** So the loop computes what it should, whatever lies in the buffer behind the terminator. */
  lemma LoopComputes(cells: string, text: string)
    requires Loaded(cells, text)
    ensures VarsAt(cells, Looked(cells)).sum == Accumulated(text)
  {
    ExactSum(cells, text);
    WrapsOnce(cells, Looked(cells));
  }
}
