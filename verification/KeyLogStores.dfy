/** Every store of the interrupt handler in every run, also between `kbuf = kmalloc(len)` and
    `keys = len`, and after a read has returned: `kfree(kbuf)` leaves `kbuf` set. */
module KeyLogStores {
  import opened Words
  import opened Common
  import opened KeyLog
  import opened KeyLogRead

  // ---------------------------------------------------------------- what happened

  /** There has been a `kmalloc`. */
  predicate HasBuffer(steps: seq<Step>, n: nat)
    requires n <= |steps|
  {
    n > 0 && (steps[n - 1].Alloc? || HasBuffer(steps, n - 1))
  }

  /** How many bytes the latest `kmalloc` allocated. */
  function AllocLen(steps: seq<Step>, n: nat): nat
    requires n <= |steps|
  {
    if n == 0 then 0 else if steps[n - 1].Alloc? then steps[n - 1].len else AllocLen(steps, n - 1)
  }

  /** They have been freed. Of the ways a read ends, only the completed copy does that. */
  predicate Freed(steps: seq<Step>, n: nat)
    requires n <= |steps|
  {
    n > 0 && !steps[n - 1].Alloc? && (steps[n - 1] == Copy(false) || Freed(steps, n - 1))
  }

  /** What `keys` was last set to. */
  function Asked(steps: seq<Step>, n: nat): nat
    requires n <= |steps|
  {
    if n == 0 then 0 else if steps[n - 1].SetKeys? then AllocLen(steps, n - 1) else Asked(steps, n - 1)
  }

  /** The stores since then. */
  function Stores(steps: seq<Step>, n: nat): nat
    requires n <= |steps|
  {
    if n == 0 || steps[n - 1].SetKeys? then 0
    else Stores(steps, n - 1) + if steps[n - 1].Scancode? && HasBuffer(steps, n - 1) then 1 else 0
  }

  // ---------------------------------------------------------------- where stores go

  /** The state's buffer and count, told from what happened. */
  ghost predicate Counts(s: State, hasBuffer: bool, len: nat, keys: int) {
    && (s.kbuf.Some? <==> hasBuffer)
    && (!s.reader.Idle? ==> s.reader.len == len)
    && s.keys == Wrap32(keys)
  }

  lemma CountsStep(s: State, step: Step, hasBuffer: bool, len: nat, asked: nat, stores: nat)
    requires Enabled(s, step) && Counts(s, hasBuffer, len, asked - stores)
    ensures Counts(Next(s, step), step.Alloc? || hasBuffer,
                   if step.Alloc? then step.len else len,
                   if step.SetKeys? then len
                   else asked - (stores + if step.Scancode? && hasBuffer then 1 else 0))
  {
    Wrap32Add(asked - stores, -1);
  }

  lemma {:induction false} CountsAlways(steps: seq<Step>, n: nat)
    requires n <= |steps| && Possible(steps, n)
    ensures Counts(Exec(steps, n), HasBuffer(steps, n), AllocLen(steps, n), Asked(steps, n) - Stores(steps, n))
  {
    if n > 0 {
      CountsAlways(steps, n - 1);
      CountsStep(Exec(steps, n - 1), steps[n - 1], HasBuffer(steps, n - 1), AllocLen(steps, n - 1),
                 Asked(steps, n - 1), Stores(steps, n - 1));
    }
  }

  /** The slot in bytes that are allocated and not yet freed. */
  predicate Live(steps: seq<Step>, n: nat, slot: int)
    requires n <= |steps|
  {
    !Freed(steps, n) && 0 <= slot < AllocLen(steps, n)
  }

  lemma WrapInRange(x: int, len: nat)
    ensures 0 <= Wrap32(x) < len <==> x % 0x1_0000_0000 < len && x % 0x1_0000_0000 < 0x8000_0000
  {
  }

  /** In every run, every interrupt with `kbuf` set stores at slot `keys`, and that hits live bytes if
      and only if the buffer has not been freed and what is left to ask for, modulo 2^32, is less than
      its length and than 2^31. */
  lemma StoreIsLiveIff(steps: seq<Step>, n: nat)
    requires n < |steps| && Possible(steps, n + 1)
    requires steps[n].Scancode? && HasBuffer(steps, n)
    ensures Exec(steps, n).kbuf.Some?
    ensures Exec(steps, n + 1).kbuf
         == Some(Exec(steps, n).kbuf.value[ORIGIN + Exec(steps, n).keys := steps[n].code])
    ensures Live(steps, n, Exec(steps, n).keys) <==>
              var left := (Asked(steps, n) - Stores(steps, n)) % 0x1_0000_0000;
              !Freed(steps, n) && left < AllocLen(steps, n) && left < 0x8000_0000
  {
    CountsAlways(steps, n);
    WrapInRange(Asked(steps, n) - Stores(steps, n), AllocLen(steps, n));
  }

  /** Before any `kmalloc` an interrupt stores nothing. */
  lemma NoBufferNoStore(steps: seq<Step>, n: nat)
    requires n < |steps| && Possible(steps, n + 1)
    requires steps[n].Scancode? && !HasBuffer(steps, n)
    ensures Exec(steps, n + 1) == Exec(steps, n)
  {
    CountsAlways(steps, n);
  }

  // ---------------------------------------------------------------- in a read

  /** From its `kmalloc` on a read has a live buffer, and once `keys` is set what counts is the
      scancodes delivered to it. */
  ghost predicate InRead(r: Reader, hasBuffer: bool, freed: bool, len: nat, asked: nat, stores: nat, codes: nat) {
    && (!r.Idle? ==> hasBuffer && !freed)
    && (Reading(r) ==> asked == len && stores == codes)
  }

  lemma InReadStep(s: State, step: Step, hasBuffer: bool, freed: bool, len: nat, asked: nat, stores: nat,
                   codes: seq<Byte>)
    requires Enabled(s, step) && InRead(s.reader, hasBuffer, freed, len, asked, stores, |codes|)
    ensures InRead(Next(s, step).reader, step.Alloc? || hasBuffer,
                   !step.Alloc? && (step == Copy(false) || freed),
                   if step.Alloc? then step.len else len,
                   if step.SetKeys? then len else asked,
                   if step.SetKeys? then 0 else stores + if step.Scancode? && hasBuffer then 1 else 0,
                   |CodesAfter(step, codes)|)
  {
  }

  lemma {:induction false} StoresAreDelivered(steps: seq<Step>, n: nat)
    requires n <= |steps| && Possible(steps, n)
    ensures InRead(Exec(steps, n).reader, HasBuffer(steps, n), Freed(steps, n), AllocLen(steps, n),
                   Asked(steps, n), Stores(steps, n), |Delivered(steps, n)|)
  {
    if n > 0 {
      StoresAreDelivered(steps, n - 1);
      InReadStep(Exec(steps, n - 1), steps[n - 1], HasBuffer(steps, n - 1), Freed(steps, n - 1),
                 AllocLen(steps, n - 1), Asked(steps, n - 1), Stores(steps, n - 1), Delivered(steps, n - 1));
    }
  }

  /** So in a read a store is live if and only if it is neither the first nor past the `len`-th after
      it, counted modulo 2^32: the first store of every read is outside. */
  lemma InReadLiveIff(steps: seq<Step>, n: nat)
    requires n < |steps| && Possible(steps, n + 1) && steps[n].Scancode?
    requires Reading(Exec(steps, n).reader) && Exec(steps, n).reader.len < 0x8000_0000
    ensures Live(steps, n, Exec(steps, n).keys)
            <==> 1 <= |Delivered(steps, n)| % 0x1_0000_0000 <= Exec(steps, n).reader.len
  {
    CountsAlways(steps, n);
    StoresAreDelivered(steps, n);
    StoreInBoundsIff(steps, n);
  }

  // ---------------------------------------------------------------- examples

  /** A store into a one-byte buffer that still counts for the read a signal ended: slot 2. */
  lemma StaleKeysExample(m: Memory, m2: Memory, a: Byte, b: Byte, steps: seq<Step>)
    requires steps == [Open, Alloc(3, m), SetKeys, Check, Scancode(a), Signal, Alloc(1, m2), Scancode(b)]
    ensures Possible(steps, 8)
    ensures Exec(steps, 7).keys == 2 && AllocLen(steps, 7) == 1 && !Live(steps, 7, 2)
  {
    StaleKeysRun(m, m2, a, b, steps);
    assert steps[6] == Alloc(1, m2);
    OneStep(steps, 7, State(Some(m2), 2, 1, 0, 1, Allocated(1), NotYet, []));
  }

  lemma StaleKeysRun(m: Memory, m2: Memory, a: Byte, b: Byte, steps: seq<Step>)
    requires steps == [Open, Alloc(3, m), SetKeys, Check, Scancode(a), Signal, Alloc(1, m2), Scancode(b)]
    ensures Possible(steps, 7)
    ensures Exec(steps, 7) == State(Some(m2), 2, 1, 0, 1, Allocated(1), NotYet, [])
  {
    var s := State(None, 0, 1, 0, 1, Idle, NotYet, []);
    OneStep(steps, 0, Loaded);
    OneStep(steps, 1, s);
    OneStep(steps, 2, s.(kbuf := Some(m), reader := Allocated(3)));
    OneStep(steps, 3, s.(kbuf := Some(m), keys := 3, reader := Waiting(3)));
    OneStep(steps, 4, s.(kbuf := Some(m), keys := 3, reader := Asleep(3)));
    OneStep(steps, 5, s.(kbuf := Some(m[ORIGIN + 3 := a]), keys := 2, reader := Asleep(3)));
    OneStep(steps, 6, s.(kbuf := Some(m[ORIGIN + 3 := a]), keys := 2));
  }

  /** A store after the read has returned: into memory already freed. */
  lemma AfterFreeExample(m: Memory, a: Byte, b: Byte, steps: seq<Step>)
    requires steps == [Open, Alloc(1, m), SetKeys, Scancode(a), Check, Copy(false), Scancode(b)]
    ensures Possible(steps, 7) && Freed(steps, 6)
    ensures Exec(steps, 7).kbuf == Some(m[ORIGIN + 1 := a][ORIGIN := b])
  {
    var s := State(None, 0, 1, 0, 1, Idle, NotYet, []);
    var m' := m[ORIGIN + 1 := a];
    OneStep(steps, 0, Loaded);
    OneStep(steps, 1, s);
    OneStep(steps, 2, s.(kbuf := Some(m), reader := Allocated(1)));
    OneStep(steps, 3, s.(kbuf := Some(m), keys := 1, reader := Waiting(1)));
    OneStep(steps, 4, s.(kbuf := Some(m'), reader := Waiting(1)));
    OneStep(steps, 5, s.(kbuf := Some(m'), reader := Passed(1)));
    OneStep(steps, 6, s.(kbuf := Some(m'), user := FirstBytes(m', 1)));
  }

  /** A store that comes before `keys = len`, and happens to hit the buffer. */
  lemma EarlyStoreExample(m: Memory, a: Byte, steps: seq<Step>)
    requires steps == [Open, Alloc(5, m), Scancode(a)]
    ensures Possible(steps, 3) && Exec(steps, 2).keys == 0 && Live(steps, 2, 0)
  {
    var s := State(None, 0, 1, 0, 1, Idle, NotYet, []);
    OneStep(steps, 0, Loaded);
    OneStep(steps, 1, s);
    OneStep(steps, 2, s.(kbuf := Some(m), reader := Allocated(5)));
  }
}
