/** The callbacks of file_proc.c on its two buffers. Each array has the bytes just past it as further
    cells: one behind `input_buf`, where the terminator of a full buffer is stored, and five behind
    `result`, which is as far as the 20 digits of an `unsigned long` and their terminator can reach. */
module AccumulatorDevice {
  import opened Common
  import opened Decimal
  import opened DigitRuns
  import opened Accumulator

  const RESULT_SIZE: nat := 16

  /** What `sprintf` leaves in memory. */
  function Printed(cells: string, s: string): (r: string)
    requires |s| < |cells|
    ensures |r| == |cells|
  {
    s + [NUL] + cells[|s| + 1..]
  }

  lemma BeforeNulOfPrinted(cells: string, s: string)
    requires |s| < |cells| && NUL !in s
    ensures BeforeNul(Printed(cells, s)) == s
  {
    var r := Printed(cells, s);
    assert r[|s|] == NUL;
    assert forall i :: 0 <= i < |s| ==> r[i] == s[i];
  }

  /** The memory holds a value's text and its terminator. */
  ghost predicate Holds(cells: string, v: nat) {
    && v < 0x1_0000_0000_0000_0000
    && FirstNul(cells, 0) < |cells|
    && BeforeNul(cells) == Print(v)
  }

  lemma HoldsPrinted(cells: string, v: nat)
    requires v < 0x1_0000_0000_0000_0000 && |Print(v)| < |cells|
    ensures Holds(Printed(cells, Print(v)), v)
  {
    ValueOfPrint(v);
    BeforeNulOfPrinted(cells, Print(v));
  }

  /** Below 10^15 the text and its terminator stay in `result`; from there on the terminator is behind it. */
  lemma ReachOfPrinted(cells: string, v: nat)
    requires v < 0x1_0000_0000_0000_0000 && |Print(v)| < |cells| == RESULT_SIZE + 5
    ensures var r := Printed(cells, Print(v));
            && Holds(r, v)
            && if v < 1_000_000_000_000_000 then r[RESULT_SIZE..] == cells[RESULT_SIZE..]
               else FirstNul(r, 0) >= RESULT_SIZE
  {
    HoldsPrinted(cells, v);
    ResultFits(v);
  }

  class Device {
    const inputBuf: array<char>
    const result: array<char>
    ghost var value: nat

    ghost predicate Valid()
      reads this, result
    {
      && inputBuf != result
      && inputBuf.Length == MAX_INPUT_SIZE + 1
      && result.Length == RESULT_SIZE + 5
      && Holds(result[..], value)
    }

    /** `init_simacc`. */
    constructor ()
      ensures Valid() && value == 0 && fresh(inputBuf) && fresh(result)
    {
      inputBuf := new char[MAX_INPUT_SIZE + 1](_ => NUL);
      result := new char[RESULT_SIZE + 5](_ => NUL);
      value := 0;
      new;
      result[0] := '0';
      assert Print(0) == "0";
      assert result[..][1] == NUL;
      assert BeforeNul(result[..]) == "0";
    }

    /** `simacc_read`: a page that, written back, accumulates to the value held. */
    method ReadProc() returns (page: string)
      requires Valid()
      ensures page == Print(value) + "\n"
      ensures Accumulated(page) == value
    {
      page := [];
      var i := 0;
      while result[i] != NUL
        invariant 0 <= i <= FirstNul(result[..], 0)
        invariant page == result[..i]
        decreases result.Length - i
      {
        page := page + [result[i]];
        i := i + 1;
      }
      WriteBack(value);
      page := page + "\n";
    }

    /** `copy_from_user` into the buffer, up to the first byte that faults. */
    method CopyIn(buffer: string, len: nat, fault: nat) returns (left: nat)
      requires inputBuf.Length == MAX_INPUT_SIZE + 1
      requires len <= |buffer| && len <= MAX_INPUT_SIZE
      modifies inputBuf
      ensures left == 0 <==> fault >= len
      ensures left == 0 ==> inputBuf[..len] == buffer[..len]
    {
      for i := 0 to len
        invariant i <= fault
        invariant inputBuf[..i] == buffer[..i]
      {
        if i == fault {
          return len - i;
        }
        inputBuf[i] := buffer[i];
      }
      left := 0;
    }

    /** The one-pass loop. */
    method Scan() returns (sum: nat)
      requires inputBuf.Length == MAX_INPUT_SIZE + 1
      ensures sum == VarsAt(inputBuf[..], Looked(inputBuf[..])).sum
    {
      ghost var cells := inputBuf[..];
      var num: nat, i, c := 0, 0, NUL;
      sum := 0;
      while true
        invariant 0 <= i <= FirstNul(cells, 0) && i < MAX_INPUT_SIZE
        invariant Vars(num, sum) == VarsAt(cells, i)
        decreases MAX_INPUT_SIZE - i
      {
        c := inputBuf[i];
        i := i + 1;
        if IsDigit(c) {
          num := (num * 10 + DigitValue(c)) % 0x1_0000_0000_0000_0000;
        } else {
          sum := (sum + num) % 0x1_0000_0000_0000_0000;
          num := 0;
        }
        if c == NUL || i >= MAX_INPUT_SIZE {
          break;
        }
      }
    }

    /** `sprintf(result, ...)`, character by character. */
    method Sprintf(s: string)
      requires |s| < result.Length
      modifies result
      ensures result[..] == Printed(old(result[..]), s)
    {
      for i := 0 to |s|
        invariant result[..i] == s[..i]
        invariant result[i..] == old(result[i..])
      {
        result[i] := s[i];
      }
      result[|s|] := NUL;
    }

    /** `simacc_write`: the value held afterwards depends on this text alone, not on what the buffer
        held; and memory behind `result` is touched exactly when that value is 10^15 or more. */
    method WriteProc(buffer: string, fault: nat) returns (ret: int)
      requires Valid()
      modifies this`value, inputBuf, result
      ensures Valid()
      ensures var len := if |buffer| > 1024 then 1024 else |buffer|;
              if fault < len then ret == -14 && value == old(value) && result[..] == old(result[..])
              else ret == len && value == Accumulated(buffer)
      ensures ret >= 0 ==>
                if value < 1_000_000_000_000_000 then result[RESULT_SIZE..] == old(result[RESULT_SIZE..])
                else FirstNul(result[..], 0) >= RESULT_SIZE
    {
      var len := |buffer|;
      if len > MAX_INPUT_SIZE {
        len := MAX_INPUT_SIZE;
      }
      var left := CopyIn(buffer, len, fault);
      if left != 0 {
        return -EFAULT;
      }
      inputBuf[len] := NUL;
      LoopComputes(inputBuf[..], buffer);
      var sum := Scan();
      PrintIsShort(sum);
      ReachOfPrinted(result[..], sum);
      Sprintf(Print(sum));
      value := sum;
      ret := len;
    }

    /** Feeding the device its own output leaves it as it is. */
    method Echo()
      requires Valid()
      modifies this`value, inputBuf, result
      ensures Valid() && value == old(value)
    {
      var page := ReadProc();
      var ret := WriteProc(page, |page|);
    }
  }
}
