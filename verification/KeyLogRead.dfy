/** The handshake between the reader and the interrupt handler, in every run. */
module KeyLogRead {
  import opened Words
  import opened Common
  import opened KeyLog

  predicate Reading(r: Reader) {
    r.Waiting? || r.Asleep? || r.Passed?
  }

  /** How many of the first `n` steps run up to the latest `keys = len`. */
  function SetAt(steps: seq<Step>, n: nat): (k: nat)
    requires n <= |steps|
    ensures k <= n
  {
    if n == 0 then 0 else if steps[n - 1].SetKeys? then n else SetAt(steps, n - 1)
  }

  function CodesAfter(step: Step, codes: seq<Byte>): seq<Byte> {
    match step
    case SetKeys => []
    case Scancode(code) => codes + [code]
    case _ => codes
  }

  /** The scancodes delivered since then, in order. */
  function Delivered(steps: seq<Step>, n: nat): seq<Byte>
    requires n <= |steps|
  {
    if n == 0 then [] else CodesAfter(steps[n - 1], Delivered(steps, n - 1))
  }

  /** What the memory held when `keys` was last set. */
  function Base(steps: seq<Step>, n: nat): Option<Memory>
    requires n <= |steps|
  {
    Exec(steps, SetAt(steps, n)).kbuf
  }

  /** The slot that the `j`-th scancode (from 0) of a read of `len` goes to. */
  function Slot(len: nat, j: nat): Int32 {
    Wrap32(len - j)
  }

  /** The latest of the first `n` scancodes that went to a slot, or -1. */
  function Writer(len: nat, n: nat, slot: int): (w: int)
    ensures -1 <= w < n
  {
    if n == 0 then -1 else if Slot(len, n - 1) == slot then n - 1 else Writer(len, n - 1, slot)
  }

  /** What a slot should hold after those codes. */
  function Content(base: Memory, len: nat, codes: seq<Byte>, i: nat): Byte
    requires i < |base|
  {
    var w := Writer(len, |codes|, i - ORIGIN);
    if w >= 0 then codes[w] else base[i]
  }

  /** The memory has the delivered codes in their slots and is otherwise as it was. */
  ghost predicate Stored(kbuf: Memory, base: Memory, len: nat, codes: seq<Byte>) {
    && |kbuf| == |base|
    && forall i {:trigger kbuf[i]} :: 0 <= i < |kbuf| ==> kbuf[i] == Content(base, len, codes, i)
  }

  lemma ContentStep(base: Memory, len: nat, codes: seq<Byte>, code: Byte, i: nat)
    requires i < |base|
    ensures Content(base, len, codes + [code], i)
         == if Slot(len, |codes|) == i - ORIGIN then code else Content(base, len, codes, i)
  {
  }

  lemma StoredStep(kbuf: Memory, base: Memory, len: nat, codes: seq<Byte>, code: Byte)
    requires Stored(kbuf, base, len, codes)
    ensures Stored(kbuf[ORIGIN + Slot(len, |codes|) := code], base, len, codes + [code])
  {
    forall i | 0 <= i < |base| {
      ContentStep(base, len, codes, code, i);
    }
  }

  /** The read handshake's invariant, for the codes delivered since `keys` was set. */
  ghost predicate Handshake(s: State, base: Option<Memory>, codes: seq<Byte>) {
    && (!s.reader.Idle? ==> s.kbuf.Some? && |s.kbuf.value| >= ORIGIN + s.reader.len)
    && (Reading(s.reader) ==>
          && base.Some?
          && s.keys == Slot(s.reader.len, |codes|)
          && Stored(s.kbuf.value, base.value, s.reader.len, codes)
          && (s.reader.Asleep? ==> s.keys != 0))
  }

  lemma HandshakeCode(s: State, base: Option<Memory>, codes: seq<Byte>, code: Byte)
    requires Handshake(s, base, codes)
    ensures Handshake(Handle(s, code), base, codes + [code])
  {
    if Reading(s.reader) {
      Wrap32Add(s.reader.len - |codes|, -1);
      StoredStep(s.kbuf.value, base.value, s.reader.len, codes, code);
    }
  }

  lemma HandshakeSet(s: State)
    requires Enabled(s, SetKeys) && s.kbuf.Some? && |s.kbuf.value| >= ORIGIN + s.reader.len
    ensures Handshake(Next(s, SetKeys), s.kbuf, [])
  {
  }

  lemma HandshakeOther(s: State, base: Option<Memory>, codes: seq<Byte>, step: Step)
    requires Enabled(s, step) && Handshake(s, base, codes)
    requires !step.SetKeys? && !step.Scancode?
    ensures Handshake(Next(s, step), base, codes)
  {
  }

  function BaseAfter(s: State, step: Step, base: Option<Memory>): Option<Memory> {
    if step.SetKeys? then s.kbuf else base
  }

  lemma HandshakeStep(s: State, base: Option<Memory>, codes: seq<Byte>, step: Step)
    requires Enabled(s, step) && Handshake(s, base, codes)
    ensures Handshake(Next(s, step), BaseAfter(s, step, base), CodesAfter(step, codes))
  {
    match step {
      case Scancode(code) => HandshakeCode(s, base, codes, code);
      case SetKeys => HandshakeSet(s);
      case _ => HandshakeOther(s, base, codes, step);
    }
  }

  lemma HistoryStep(steps: seq<Step>, n: nat)
    requires n < |steps| && Possible(steps, n + 1)
    ensures Enabled(Exec(steps, n), steps[n])
    ensures Exec(steps, n + 1) == Next(Exec(steps, n), steps[n])
    ensures Base(steps, n + 1) == BaseAfter(Exec(steps, n), steps[n], Base(steps, n))
  {
  }

  lemma {:induction false} HandshakeAlways(steps: seq<Step>, n: nat)
    requires n <= |steps| && Possible(steps, n)
    ensures Handshake(Exec(steps, n), Base(steps, n), Delivered(steps, n))
  {
    if n > 0 {
      HandshakeAlways(steps, n - 1);
      HistoryStep(steps, n - 1);
      HandshakeStep(Exec(steps, n - 1), Base(steps, n - 1), Delivered(steps, n - 1), steps[n - 1]);
    }
  }

  // ---------------------------------------------------------------- counting and slots

  /** No two of the first 2^32 scancodes of a read share a slot. */
  lemma SlotsDistinct(len: nat, j: nat, k: nat)
    requires j < k < 0x1_0000_0000
    ensures Slot(len, j) != Slot(len, k)
  {
    Wrap32Same(len - j, len - k);
  }

  lemma SlotMeets(len: nat, i: nat, j: nat)
    requires i <= len < 0x8000_0000 && j < 0x1_0000_0000
    ensures Slot(len, j) == i <==> j == len - i
  {
  }

  /** Short of 2^32 scancodes, slot `i` is written by number `len - i` alone. */
  lemma {:induction false} WriterExactly(len: nat, n: nat, i: nat)
    requires i <= len < 0x8000_0000 && n <= 0x1_0000_0000
    ensures Writer(len, n, i) == if len - i < n then len - i else -1
  {
    if n > 0 {
      SlotMeets(len, i, n - 1);
      WriterExactly(len, n - 1, i);
    }
  }

  ghost predicate Descending(kbuf: Memory, len: nat, codes: seq<Byte>)
    requires |codes| <= len <= |kbuf| - 1 - ORIGIN
  {
    forall j {:trigger codes[j]} :: 0 <= j < |codes| ==> kbuf[ORIGIN + len - j] == codes[j]
  }

  /** `keys` is what is still missing, and the `j`-th scancode (from 0) is in slot `len - j`. */
  ghost predicate Counted(s: State, codes: seq<Byte>)
    requires Reading(s.reader)
  {
    && s.kbuf.Some?
    && s.keys == Wrap32(s.reader.len - |codes|)
    && (s.reader.len < 0x8000_0000 && |codes| <= s.reader.len ==>
          s.keys == s.reader.len - |codes| && Descending(s.kbuf.value, s.reader.len, codes))
  }

  lemma StoredDescending(kbuf: Memory, base: Memory, len: nat, codes: seq<Byte>)
    requires Stored(kbuf, base, len, codes)
    requires |codes| <= len < 0x8000_0000
    ensures Descending(kbuf, len, codes)
  {
    forall j {:trigger codes[j]} | 0 <= j < |codes|
      ensures kbuf[ORIGIN + len - j] == codes[j]
    {
      WriterExactly(len, |codes|, len - j);
    }
  }

  lemma HandshakeCounts(s: State, base: Option<Memory>, codes: seq<Byte>)
    requires Handshake(s, base, codes) && Reading(s.reader)
    ensures Counted(s, codes)
  {
    if s.reader.len < 0x8000_0000 && |codes| <= s.reader.len {
      StoredDescending(s.kbuf.value, base.value, s.reader.len, codes);
    }
  }

  /** So it is in every run, while a read is between `keys = len` and its return. */
  lemma CountsDown(steps: seq<Step>, n: nat)
    requires n <= |steps| && Possible(steps, n)
    requires Reading(Exec(steps, n).reader)
    ensures Counted(Exec(steps, n), Delivered(steps, n))
  {
    HandshakeAlways(steps, n);
    HandshakeCounts(Exec(steps, n), Base(steps, n), Delivered(steps, n));
  }

  lemma InBounds(len: nat, j: nat)
    requires len < 0x8000_0000
    ensures 0 <= Slot(len, j) < len <==> 1 <= j % 0x1_0000_0000 <= len
  {
  }

  /** A store is inside the `len` bytes allocated exactly when it is not the first of the read and not
      past the `len`-th after it, counted modulo 2^32. So the first store of every read is outside. */
  lemma StoreInBoundsIff(steps: seq<Step>, n: nat)
    requires n < |steps| && Possible(steps, n + 1) && steps[n].Scancode?
    requires Reading(Exec(steps, n).reader) && Exec(steps, n).reader.len < 0x8000_0000
    ensures Exec(steps, n).kbuf.Some?
    ensures Exec(steps, n + 1).kbuf
         == Some(Exec(steps, n).kbuf.value[ORIGIN + Exec(steps, n).keys := steps[n].code])
    ensures 0 <= Exec(steps, n).keys < Exec(steps, n).reader.len
            <==> 1 <= |Delivered(steps, n)| % 0x1_0000_0000 <= Exec(steps, n).reader.len
  {
    HandshakeAlways(steps, n);
    InBounds(Exec(steps, n).reader.len, |Delivered(steps, n)|);
  }

  // ---------------------------------------------------------------- waiting

  /** How many scancodes are missing, as the code can tell: modulo 2^32. */
  function Missing(steps: seq<Step>, n: nat, len: nat): UInt32
    requires n <= |steps|
  {
    (len - |Delivered(steps, n)|) % 0x1_0000_0000
  }

  /** The reader gets past its test exactly when nothing is missing at that moment. */
  lemma PassesIff(steps: seq<Step>, n: nat)
    requires n < |steps| && Possible(steps, n + 1) && steps[n].Check?
    ensures var len := Exec(steps, n).reader.len;
            if Missing(steps, n, len) == 0 then Exec(steps, n + 1).reader == Passed(len)
            else Exec(steps, n + 1).reader == Asleep(len)
  {
    HandshakeAlways(steps, n);
    Wrap32Zero(Exec(steps, n).reader.len - |Delivered(steps, n)|);
  }

  /** Short of 2^32 interrupts in one read, nothing is missing only when just as many came as asked. */
  lemma MissingExactly(steps: seq<Step>, n: nat, len: nat)
    requires n <= |steps| && len < 0x1_0000_0000 && |Delivered(steps, n)| < 0x1_0000_0000
    ensures Missing(steps, n, len) == 0 <==> |Delivered(steps, n)| == len
  {
  }

  /** A sleeping reader always has something missing, and an interrupt wakes it exactly when it
      brings the last code missing. */
  lemma WakesIff(steps: seq<Step>, n: nat)
    requires n < |steps| && Possible(steps, n + 1)
    requires Exec(steps, n).reader.Asleep? && steps[n].Scancode?
    ensures var len := Exec(steps, n).reader.len;
            && Missing(steps, n, len) != 0
            && Exec(steps, n + 1).reader == if Missing(steps, n + 1, len) == 0 then Waiting(len) else Asleep(len)
  {
    HandshakeAlways(steps, n);
    HandshakeAlways(steps, n + 1);
    Wrap32Zero(Exec(steps, n).reader.len - |Delivered(steps, n)|);
    Wrap32Zero(Exec(steps, n).reader.len - |Delivered(steps, n + 1)|);
  }

  /** The wake-up is for nothing if one more code comes before the reader tests: it sleeps again,
      though it has all its keys. */
  lemma WokenInVain(memory: Memory, a: Byte, b: Byte)
    ensures var steps := [Open, Alloc(1, memory), SetKeys, Check, Scancode(a), Scancode(b), Check];
            && Possible(steps, 7)
            && Exec(steps, 4).reader == Asleep(1) && Exec(steps, 5).reader == Waiting(1)
            && Exec(steps, 7).reader == Asleep(1)
  {
    var steps := [Open, Alloc(1, memory), SetKeys, Check, Scancode(a), Scancode(b), Check];
    var s := State(None, 0, 1, 0, 1, Idle, NotYet, []);
    var m := memory[ORIGIN + 1 := a];
    OneStep(steps, 0, Loaded);
    OneStep(steps, 1, s);
    OneStep(steps, 2, s.(kbuf := Some(memory), reader := Allocated(1)));
    OneStep(steps, 3, s.(kbuf := Some(memory), keys := 1, reader := Waiting(1)));
    OneStep(steps, 4, s.(kbuf := Some(memory), keys := 1, reader := Asleep(1)));
    OneStep(steps, 5, s.(kbuf := Some(m), reader := Waiting(1)));
    OneStep(steps, 6, s.(kbuf := Some(m[ORIGIN := b]), keys := -1, reader := Waiting(1)));
  }

  // ---------------------------------------------------------------- what a read returns

  /** Byte `i` of a completed read is the latest scancode that went to slot `i`, or else what was in
      memory when `keys` was set. */
  ghost function Returned(base: Memory, len: nat, codes: seq<Byte>): (r: seq<Byte>)
    requires ORIGIN + len <= |base|
    ensures |r| == len
  {
    seq<Byte>(len, i requires 0 <= i < len => Content(base, len, codes, ORIGIN + i))
  }

  lemma StoredBytes(kbuf: Memory, base: Memory, len: nat, codes: seq<Byte>)
    requires Stored(kbuf, base, len, codes) && ORIGIN + len <= |base|
    ensures FirstBytes(kbuf, len) == Returned(base, len, codes)
  {
    forall i | 0 <= i < len
      ensures FirstBytes(kbuf, len)[i] == Returned(base, len, codes)[i]
    {
      assert FirstBytes(kbuf, len)[i] == kbuf[ORIGIN + i];
    }
  }

  lemma ReadReturns(steps: seq<Step>, n: nat)
    requires n < |steps| && Possible(steps, n + 1) && steps[n] == Copy(false)
    ensures Base(steps, n).Some? && ORIGIN + Exec(steps, n).reader.len <= |Base(steps, n).value|
    ensures Exec(steps, n + 1).user
         == Returned(Base(steps, n).value, Exec(steps, n).reader.len, Delivered(steps, n))
  {
    HandshakeAlways(steps, n);
    StoredBytes(Exec(steps, n).kbuf.value, Base(steps, n).value, Exec(steps, n).reader.len, Delivered(steps, n));
  }

  /** Short of 2^32 scancodes, that is number `len - i`, if it has come: the codes come out backwards,
      and the first one not at all. */
  lemma ReturnedBackwards(base: Memory, len: nat, codes: seq<Byte>, i: nat)
    requires ORIGIN + len <= |base| && i < len < 0x8000_0000 && |codes| <= 0x1_0000_0000
    ensures Returned(base, len, codes)[i] == if len - i < |codes| then codes[len - i] else base[ORIGIN + i]
  {
    WriterExactly(len, |codes|, i);
    var k := ORIGIN + i;
    assert k - ORIGIN == i;
    assert Content(base, len, codes, k) == if len - i < |codes| then codes[len - i] else base[k];
  }

  predicate Palindrome(s: seq<Byte>) {
    forall i {:trigger s[i]} :: 0 <= i < |s| ==> s[i] == s[|s| - 1 - i]
  }

  /** The byte that takes the place of the first code: the one that came after the last code asked
      for, if any did, or the stale byte 0 of the buffer. */
  function Stray(base: Memory, len: nat, codes: seq<Byte>): Byte {
    if len < |codes| then codes[len] else base[ORIGIN]
  }

  lemma ReturnedInOrderIff(base: Memory, len: nat, codes: seq<Byte>)
    requires ORIGIN + len <= |base| && len < 0x8000_0000 && len <= |codes| <= 0x1_0000_0000
    ensures Returned(base, len, codes) == codes[..len] <==>
              len == 0 || (codes[0] == Stray(base, len, codes) && Palindrome(codes[1..len]))
  {
    var r := Returned(base, len, codes);
    forall i | 0 <= i < len {
      ReturnedBackwards(base, len, codes, i);
    }
    if len > 0 {
      BackwardsInOrder(r, codes[..len], Stray(base, len, codes));
      assert codes[..len][1..] == codes[1..len];
    }
  }

  /** A sequence that holds `stray` and then another's elements backwards, without its first. */
  lemma BackwardsInOrder(r: seq<Byte>, c: seq<Byte>, stray: Byte)
    requires |r| == |c| > 0 && r[0] == stray
    requires forall i :: 0 < i < |c| ==> r[i] == c[|c| - i]
    ensures r == c <==> c[0] == stray && Palindrome(c[1..])
  {
    var p := c[1..];
    assert forall i :: 0 <= i < |p| ==> p[i] == c[i + 1];
    if r == c {
      forall i | 0 <= i < |p|
        ensures p[i] == p[|p| - 1 - i]
      {
        assert p[i] == r[i + 1];
      }
    }
    if c[0] == stray && Palindrome(p) {
      forall i | 0 <= i < |c|
        ensures r[i] == c[i]
      {
        assert i > 0 ==> p[i - 1] == p[|p| - i];
      }
    }
  }

  lemma EnoughWhenNoneMissing(len: nat, delivered: nat)
    requires len < 0x1_0000_0000 && Wrap32(len - delivered) == 0
    ensures delivered >= len
  {
    Wrap32Zero(len - delivered);
  }

  ghost predicate HasEnough(r: Reader, delivered: nat) {
    r.Passed? && r.len < 0x1_0000_0000 ==> delivered >= r.len
  }

  lemma EnoughStep(s: State, base: Option<Memory>, codes: seq<Byte>, step: Step)
    requires Handshake(s, base, codes) && Enabled(s, step) && HasEnough(s.reader, |codes|)
    ensures HasEnough(Next(s, step).reader, |CodesAfter(step, codes)|)
  {
    if step.Check? && s.keys == 0 && s.reader.len < 0x1_0000_0000 {
      EnoughWhenNoneMissing(s.reader.len, |codes|);
    }
  }

  /** A reader past its wait has got at least as many codes as it asked for. */
  lemma {:induction false} PassedHasEnough(steps: seq<Step>, n: nat)
    requires n <= |steps| && Possible(steps, n)
    ensures HasEnough(Exec(steps, n).reader, |Delivered(steps, n)|)
  {
    if n > 0 {
      PassedHasEnough(steps, n - 1);
      HandshakeAlways(steps, n - 1);
      EnoughStep(Exec(steps, n - 1), Base(steps, n - 1), Delivered(steps, n - 1), steps[n - 1]);
    }
  }

  /** In every run: a completed read has the first `len` codes in the order typed only by accident, if
      and only if the first equals the stray byte and the others read the same backwards. */
  lemma InOrderIff(steps: seq<Step>, n: nat)
    requires n < |steps| && Possible(steps, n + 1) && steps[n] == Copy(false)
    requires Exec(steps, n).reader.len < 0x8000_0000 && |Delivered(steps, n)| <= 0x1_0000_0000
    ensures Base(steps, n).Some? && |Delivered(steps, n)| >= Exec(steps, n).reader.len
    ensures var len, codes := Exec(steps, n).reader.len, Delivered(steps, n);
            Exec(steps, n + 1).user == codes[..len] <==>
              len == 0 || (codes[0] == Stray(Base(steps, n).value, len, codes) && Palindrome(codes[1..len]))
  {
    PassedHasEnough(steps, n);
    ReadReturns(steps, n);
    ReturnedInOrderIff(Base(steps, n).value, Exec(steps, n).reader.len, Delivered(steps, n));
  }

  /** For one key the stale byte is all a user gets. */
  lemma OneKeyRead(memory: Memory, code: Byte)
    ensures var steps := [Open, Alloc(1, memory), SetKeys, Scancode(code), Check, Copy(false)];
            Possible(steps, 6) && Exec(steps, 6).user == [memory[ORIGIN]]
  {
    var steps := [Open, Alloc(1, memory), SetKeys, Scancode(code), Check, Copy(false)];
    var s := State(None, 0, 1, 0, 1, Idle, NotYet, []);
    var m := memory[ORIGIN + 1 := code];
    OneStep(steps, 0, Loaded);
    OneStep(steps, 1, s);
    OneStep(steps, 2, s.(kbuf := Some(memory), reader := Allocated(1)));
    OneStep(steps, 3, s.(kbuf := Some(memory), keys := 1, reader := Waiting(1)));
    OneStep(steps, 4, s.(kbuf := Some(m), reader := Waiting(1)));
    OneStep(steps, 5, s.(kbuf := Some(m), reader := Passed(1)));
  }
}
