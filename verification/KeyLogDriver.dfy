/** The callbacks of keyboard_interrupt_misc_device.c on real memory and real wait queues. `kbuf` points
    into an array that the handler writes in place, the user's buffer is another array, and a task
    that waits is an object which a queue may hold and a wake-up marks. `keylog_read` blocks, so it
    is four methods: up to `kbuf = kmalloc(len)`, `keys = len`, one round of
    `wait_event_interruptible`, and the rest. Each does what its step in `KeyLog` says. */
module KeyLogDriver {
  import opened Words
  import opened Common
  import opened KeyLog

  /** An entry of a wait queue: the task behind it sleeps until it is marked. */
  class Waiter {
    var awake: bool

    constructor ()
      ensures awake
    {
      awake := true;
    }
  }

  datatype ReadPc = Out | HasBuffer | InWait | PastWait

  datatype ExitPc = Before | PastGuard | InCompletion | PastWaiting | Gone

  class Driver {
    // the module's globals
    var kbuf: array?<Byte>       // slot 0 is at ORIGIN
    var keys: Int32
    var intrRegistered: int
    var done: nat                // kbd_complete.done
    var completion: seq<Waiter>  // kbd_complete.wait
    var keyWait: seq<Waiter>     // key_wait
    // the tasks that run the callbacks
    var files: nat
    var readPc: ReadPc
    var len: nat
    var buf: array<Byte>
    const reader: Waiter
    var exitPc: ExitPc
    const unloader: Waiter
    // the user buffer filled last
    var filled: array<Byte>

    ghost function Repr(): set<object>
      reads this
    {
      var memory: set<object> := if kbuf == null then {} else {kbuf};
      {this, reader, unloader, buf, filled} + memory
    }

    ghost predicate Valid()
      reads this, Repr()
    {
      && reader != unloader
      && (kbuf != null ==> kbuf.Length >= 0x1_0000_0000 && kbuf != buf && kbuf != filled)
      && (readPc != Out ==> kbuf != null && buf.Length == len && ORIGIN + len <= kbuf.Length)
      && (completion == [] || completion == [unloader])
      && (exitPc != InCompletion ==> completion == [])
      && (keyWait == [] || keyWait == [reader])
      && (readPc == InWait && !reader.awake ==> keyWait == [reader])
    }

    ghost function View(): State
      reads this, Repr()
      requires Valid()
    {
      State(if kbuf == null then None else Some(kbuf[..]), keys, intrRegistered, done, files,
            match readPc
            case Out => Idle
            case HasBuffer => Allocated(len)
            case InWait => if reader.awake then Waiting(len) else Asleep(len)
            case PastWait => Passed(len),
            match exitPc
            case Before => NotYet
            case PastGuard => Tested
            case InCompletion => Waits(unloader in completion, unloader.awake)
            case PastWaiting => Cleared
            case Gone => Unloaded,
            filled[..])
    }

    constructor ()
      ensures Is(Loaded) && fresh(Repr())
    {
      kbuf, keys, intrRegistered, done, completion, keyWait := null, 0, 0, 0, [], [];
      files, readPc, len, exitPc := 0, Out, 0, Before;
      buf := new Byte[0];
      filled := new Byte[0];
      reader := new Waiter();
      unloader := new Waiter();
    }

    /** `keylog_open`; `init_completion` makes the queue anew, whoever was in it. */
    method OpenFile()
      requires Valid() && Enabled(View(), Open)
      modifies this
      ensures Valid() && View() == Next(old(View()), Open) && Repr() == old(Repr())
    {
      files := files + 1;
      intrRegistered := intrRegistered + 1;
      done := 0;
      completion := [];
    }

    /** `keylog_close`; `complete` wakes the first task in the queue. */
    method CloseFile()
      requires Valid() && Enabled(View(), Close)
      modifies this, unloader
      ensures Valid() && View() == Next(old(View()), Close) && Repr() == old(Repr())
    {
      files := files - 1;
      intrRegistered := intrRegistered - 1;
      done := done + 1;
      if completion != [] {
        completion[0].awake := true;
      }
    }

    /** `wake_up_interruptible(&key_wait)`: all in the queue wake and leave it. */
    method WakeReaders()
      requires Valid()
      modifies this`keyWait, reader
      ensures keyWait == []
      ensures reader.awake == (old(reader.awake) || old(keyWait) != [])
    {
      while keyWait != []
        invariant keyWait == [] || keyWait == [reader]
        invariant old(keyWait) == [] ==> keyWait == []
        invariant reader.awake == (old(reader.awake) || (old(keyWait) != [] && keyWait == []))
        decreases |keyWait|
      {
        keyWait[0].awake := true;
        keyWait := keyWait[1..];
      }
    }

    /** `testirq_handler`, on the only cause its register ever reports. */
    method HandleInterrupt(scancode: Byte)
      requires Valid() && Enabled(View(), Scancode(scancode))
      modifies Repr()
      ensures Valid() && View() == Next(old(View()), Scancode(scancode)) && Repr() == old(Repr())
    {
      if kbuf != null {
        kbuf[ORIGIN + keys] := scancode;
        keys := Wrap32(keys - 1);
        if keys == 0 {
          WakeReaders();
        }
      }
    }

    /** A read begins: the user's buffer, and `kbuf = kmalloc(len)` somewhere in memory. */
    method BeginRead(len: nat, memory: Memory)
      requires Valid() && Enabled(View(), Alloc(len, memory))
      modifies this
      ensures Valid() && View() == Next(old(View()), Alloc(len, memory))
      ensures fresh(Repr() - old(Repr()))
    {
      buf := new Byte[len];
      kbuf := new Byte[|memory|](i requires 0 <= i < |memory| => memory[i]);
      this.len, readPc := len, HasBuffer;
      assert kbuf[..] == memory;
    }

    method AskForKeys()
      requires Valid() && Enabled(View(), SetKeys)
      modifies this, reader
      ensures Valid() && View() == Next(old(View()), SetKeys) && Repr() == old(Repr())
    {
      keys := Wrap32(len);
      reader.awake := true;
      readPc := InWait;
    }

    /** One round of `wait_event_interruptible`: test, and otherwise queue and sleep. */
    method TestCondition()
      requires Valid() && Enabled(View(), Check)
      modifies this, reader
      ensures Valid() && View() == Next(old(View()), Check) && Repr() == old(Repr())
    {
      if keys == 0 {
        readPc, keyWait := PastWait, [];
      } else {
        keyWait := [reader];
        reader.awake := false;
      }
    }

    /** A signal ends the wait, which then gives -ERESTARTSYS, and the read. */
    method GetSignal() returns (ret: int)
      requires Valid() && Enabled(View(), Signal)
      modifies this
      ensures Valid() && View() == Next(old(View()), Signal) && Repr() == old(Repr())
      ensures ret == -512
    {
      readPc, keyWait := Out, [];
      ret := -512;
    }

    /** `copy_to_user`, byte by byte, and the return, through an `int`. */
    method FinishRead(faults: bool) returns (ret: int)
      requires Valid() && Enabled(View(), Copy(faults))
      modifies this, buf
      ensures Valid() && View() == Next(old(View()), Copy(faults))
      ensures fresh(Repr() - old(Repr()))
      ensures ret == if faults then -14 else Wrap32(old(View()).reader.len)
      ensures readPc == Out && (faults ==> filled == old(filled))
    {
      ret := -EFAULT;
      if !faults {
        CopyOut();
        filled := buf;
        ret := Wrap32(len);
      }
      readPc := Out;
    }

    method CopyOut()
      requires kbuf != null && kbuf != buf && buf.Length == len && ORIGIN + len <= kbuf.Length
      modifies buf
      ensures buf[..] == kbuf[ORIGIN..ORIGIN + len]
    {
      for i := 0 to len
        invariant buf[..i] == kbuf[ORIGIN..ORIGIN + i]
      {
        buf[i] := kbuf[ORIGIN + i];
      }
    }

    /** The guard of `keylog_driver_exit`. */
    method BeginExit()
      requires Valid() && Enabled(View(), ExitTests)
      modifies this
      ensures Valid() && View() == Next(old(View()), ExitTests) && Repr() == old(Repr())
    {
      if intrRegistered != 0 {
        exitPc := PastGuard;
      } else {
        exitPc := PastWaiting;
      }
    }

    /** One round of `wait_for_completion`: take a completion, or sleep; it queues on entry only. */
    method WaitForCompletion()
      requires Valid() && Enabled(View(), ExitTurn)
      modifies this, unloader
      ensures Valid() && View() == Next(old(View()), ExitTurn) && Repr() == old(Repr())
    {
      if done > 0 {
        done := done - 1;
        completion, exitPc := [], PastWaiting;
      } else {
        if exitPc == PastGuard {
          completion := completion + [unloader];
        }
        unloader.awake := false;
        exitPc := InCompletion;
      }
    }

    /** `misc_deregister`. */
    method DeregisterDevice()
      requires Valid() && Enabled(View(), Deregister)
      modifies this
      ensures Valid() && View() == Next(old(View()), Deregister) && Repr() == old(Repr())
    {
      exitPc := Gone;
    }

    /** The driver is in this state of the transition system. */
    ghost predicate Is(s: State)
      reads this, Repr()
    {
      Valid() && View() == s
    }

    method Do(step: Step, ghost s: State)
      requires Is(s) && Enabled(s, step)
      modifies Repr()
      ensures Is(Next(s, step))
      ensures fresh(Repr() - old(Repr()))
    {
      match step {
        case Open => OpenFile();
        case Close => CloseFile();
        case Alloc(n, memory) => BeginRead(n, memory);
        case SetKeys => AskForKeys();
        case Scancode(code) => HandleInterrupt(code);
        case Check => TestCondition();
        case Signal => var _ := GetSignal();
        case Copy(faults) => var _ := FinishRead(faults);
        case ExitTests => BeginExit();
        case ExitTurn => WaitForCompletion();
        case Deregister => DeregisterDevice();
      }
    }
  }

  /** Every possible run of the callbacks is a run of the transition system. */
  method RunDriver(steps: seq<Step>, n: nat) returns (d: Driver)
    requires n <= |steps| && Possible(steps, n)
    ensures d.Is(Exec(steps, n)) && fresh(d.Repr())
  {
    if n == 0 {
      d := new Driver();
    } else {
      d := RunDriver(steps, n - 1);
      d.Do(steps[n - 1], Exec(steps, n - 1));
    }
  }
}
