/** The key logger of keyboard_interrupt_misc_device.c as a transition system: opens, closes, one
    reader, interrupts at any time while the handler is installed, signals, and unloading.

    The handler stores with `kbuf[keys--]`, so a read of `len` keys uses slots len down to 1, although
    `len` bytes are allocated, and goes on downwards if more interrupts come. `kbuf` is therefore the
    memory around the pointer, as far as an `int` can index it, with slot 0 at `ORIGIN`. */
module KeyLog {
  import opened Words
  import opened Common

  const ORIGIN: nat := 0x8000_0000

  type Memory = m: seq<Byte> | |m| >= 0x1_0000_0000 witness seq(0x1_0000_0000, _ => 0)

  /** Where the one reader is in `keylog_read`. `len` is the callback's argument. */
  datatype Reader =
    | Idle
    | Allocated(len: nat)  // kbuf assigned, keys not yet
    | Waiting(len: nat)    // in wait_event_interruptible, about to test keys == 0
    | Asleep(len: nat)     // on key_wait
    | Passed(len: nat)     // past the wait

  /** Where `keylog_driver_exit` is. In `wait_for_completion` it has an entry in the completion's wait
      queue until `init_completion` makes that queue anew, and it is awake or sleeps. Between its
      guard and `misc_deregister` the device can still be used. */
  datatype Exit =
    | NotYet
    | Tested
    | Waits(queued: bool, awake: bool)
    | Cleared   // past guard and wait
    | Unloaded  // after misc_deregister

  datatype State = State(
    kbuf: Option<Memory>,
    keys: Int32,
    intrRegistered: int,
    done: nat,             // of the completion kbd_complete
    files: nat,            // how many times the device is open
    reader: Reader,
    exit: Exit,
    user: seq<Byte>)       // what the last copy_to_user delivered

  datatype Step =
    | Open
    | Close
    | Alloc(len: nat, memory: Memory)  // kmalloc, with what is in memory there
    | SetKeys
    | Scancode(code: Byte)             // a data interrupt
    | Check                            // the reader tests its condition
    | Signal                           // a signal interrupts the sleeping reader
    | Copy(faults: bool)
    | ExitTests                        // `if (intr_registered)`
    | ExitTurn                         // the unloading task runs in `wait_for_completion`
    | Deregister                       // `misc_deregister`

  const Loaded: State := State(None, 0, 0, 0, 0, Idle, NotYet, [])

  /** What the rest of the kernel lets happen. A read keeps its file open. */
  predicate Enabled(s: State, step: Step) {
    !s.exit.Unloaded? &&
    match step
    case Open => true
    case Close => s.files > 0 && (s.reader.Idle? || s.files > 1)
    case Alloc(len, memory) => s.reader.Idle? && s.files > 0 && |memory| >= ORIGIN + len
    case SetKeys => s.reader.Allocated?
    case Scancode(_) => s.files > 0
    case Check => s.reader.Waiting?
    case Signal => s.reader.Asleep?
    case Copy(_) => s.reader.Passed?
    case ExitTests => s.exit.NotYet?
    case ExitTurn => s.exit.Tested? || (s.exit.Waits? && s.exit.awake)
    case Deregister => s.exit.Cleared?
  }

  /** `testirq_handler` on incoming data. */
  function Handle(s: State, code: Byte): State {
    if s.kbuf.None? then s
    else
      var keys := Wrap32(s.keys - 1);
      var woken := if keys == 0 && s.reader.Asleep? then Waiting(s.reader.len) else s.reader;
      s.(kbuf := Some(s.kbuf.value[ORIGIN + s.keys := code]), keys := keys, reader := woken)
  }

  /** `copy_to_user(buf, kbuf, len)`. */
  function FirstBytes(kbuf: Memory, len: nat): seq<Byte> {
    if ORIGIN + len <= |kbuf| then kbuf[ORIGIN..ORIGIN + len] else []
  }

  function Next(s: State, step: Step): State
    requires Enabled(s, step)
  {
    match step
    case Open =>
      var exit := if s.exit.Waits? then Waits(false, s.exit.awake) else s.exit;
      s.(intrRegistered := s.intrRegistered + 1, done := 0, files := s.files + 1, exit := exit)
    case Close =>
      var exit := if s.exit.Waits? && s.exit.queued then Waits(true, true) else s.exit;
      s.(intrRegistered := s.intrRegistered - 1, done := s.done + 1, files := s.files - 1, exit := exit)
    case Alloc(len, memory) => s.(kbuf := Some(memory), reader := Allocated(len))
    case SetKeys => s.(keys := Wrap32(s.reader.len), reader := Waiting(s.reader.len))
    case Scancode(code) => Handle(s, code)
    case Check => s.(reader := if s.keys == 0 then Passed(s.reader.len) else Asleep(s.reader.len))
    case Signal => s.(reader := Idle)
    case Copy(faults) =>
      if faults || s.kbuf.None? then s.(reader := Idle)
      else s.(reader := Idle, user := FirstBytes(s.kbuf.value, s.reader.len))
    case ExitTests => s.(exit := if s.intrRegistered != 0 then Tested else Cleared)
    case ExitTurn =>
      if s.done > 0 then s.(done := s.done - 1, exit := Cleared)
      else s.(exit := Waits(s.exit.Tested? || s.exit.queued, false))
    case Deregister => s.(exit := Unloaded)
  }

  /** The state after the first `n` steps. A step that is not enabled does not happen. */
  function Exec(steps: seq<Step>, n: nat): State
    requires n <= |steps|
  {
    if n == 0 then Loaded
    else
      var s := Exec(steps, n - 1);
      if Enabled(s, steps[n - 1]) then Next(s, steps[n - 1]) else s
  }

  /** Each of the first `n` steps does happen. */
  predicate Possible(steps: seq<Step>, n: nat)
    requires n <= |steps|
  {
    n == 0 || (Possible(steps, n - 1) && Enabled(Exec(steps, n - 1), steps[n - 1]))
  }

  lemma OneStep(steps: seq<Step>, n: nat, s: State)
    requires n < |steps| && Possible(steps, n) && Exec(steps, n) == s && Enabled(s, steps[n])
    ensures Possible(steps, n + 1) && Exec(steps, n + 1) == Next(s, steps[n])
  {
  }
}
