/** Every run of the key logger, place by place: where its one reader is, what may happen next, and what
    a step leaves as it was, all told from what has happened. */
module KeyLogRuns {
  import opened Words
  import opened Common
  import opened KeyLog
  import opened KeyLogRead
  import opened KeyLogStores
  import opened KeyLogUnload

  // ---------------------------------------------------------------- where the reader is

  /** A step of `keylog_read` itself. */
  predicate OfReader(step: Step) {
    step.Alloc? || step.SetKeys? || step.Check? || step.Signal? || step.Copy?
  }

  /** Just after the latest such step among the first `n`, or 0. */
  function MovedAt(steps: seq<Step>, n: nat): (k: nat)
    requires n <= |steps|
    ensures k <= n
  {
    if n == 0 || OfReader(steps[n - 1]) then n else MovedAt(steps, n - 1)
  }

  lemma {:induction false} MovedAtMeaning(steps: seq<Step>, n: nat)
    requires n <= |steps|
    ensures var k := MovedAt(steps, n);
            (k > 0 ==> OfReader(steps[k - 1])) && forall i :: k <= i < n ==> !OfReader(steps[i])
  {
    if n > 0 && !OfReader(steps[n - 1]) {
      MovedAtMeaning(steps, n - 1);
    }
  }

  /** At some moment from `k` on nothing was missing. */
  ghost predicate Filled(steps: seq<Step>, k: nat, n: nat, len: nat)
    requires n <= |steps|
  {
    exists m :: k <= m <= n && Missing(steps, m, len) == 0
  }

  /** Where its latest step left it, and what came since: after a test it is past the wait if nothing was
      missing then, woken if nothing was missing at a moment since, and otherwise asleep. */
  function PlaceAfter(step: Step, len: nat, passed: bool, filled: bool): Reader {
    match step
    case Alloc(_, _) => Allocated(len)
    case SetKeys => Waiting(len)
    case Check => if passed then Passed(len) else if filled then Waiting(len) else Asleep(len)
    case _ => Idle
  }

  ghost function Place(steps: seq<Step>, n: nat): Reader
    requires n <= |steps|
  {
    var k, len := MovedAt(steps, n), AllocLen(steps, n);
    if k == 0 then Idle
    else PlaceAfter(steps[k - 1], len, Missing(steps, k - 1, len) == 0, Filled(steps, k, n, len))
  }

  lemma FilledStep(steps: seq<Step>, k: nat, n: nat, len: nat)
    requires k <= n < |steps|
    ensures Filled(steps, k, n + 1, len) <==> Filled(steps, k, n, len) || Missing(steps, n + 1, len) == 0
  {
    if Filled(steps, k, n, len) {
      var m :| k <= m <= n && Missing(steps, m, len) == 0;
      assert k <= m <= n + 1;
    }
  }

  lemma FilledAt(steps: seq<Step>, n: nat, len: nat)
    requires n <= |steps|
    ensures Filled(steps, n, n, len) <==> Missing(steps, n, len) == 0
  {
  }

  lemma ZeroIff(keys: Int32, len: nat, delivered: nat)
    requires keys == Wrap32(len - delivered)
    ensures keys == 0 <==> (len - delivered) % 0x1_0000_0000 == 0
  {
    Wrap32Zero(len - delivered);
  }

  lemma KeysCount(steps: seq<Step>, n: nat)
    requires n <= |steps| && Possible(steps, n) && Reading(Exec(steps, n).reader)
    ensures Exec(steps, n).keys == Wrap32(Exec(steps, n).reader.len - |Delivered(steps, n)|)
  {
    CountsAlways(steps, n);
    StoresAreDelivered(steps, n);
  }

  /** `keys` is 0 exactly when nothing is missing. */
  lemma KeysTellMissing(steps: seq<Step>, n: nat)
    requires n <= |steps| && Possible(steps, n) && Reading(Exec(steps, n).reader)
    ensures Exec(steps, n).keys == 0 <==> Missing(steps, n, Exec(steps, n).reader.len) == 0
  {
    KeysCount(steps, n);
    ZeroIff(Exec(steps, n).keys, Exec(steps, n).reader.len, |Delivered(steps, n)|);
  }

  /** What one of its own steps does to the reader. */
  function MovedTo(s: State, step: Step): Reader
    requires OfReader(step) && (step.SetKeys? || step.Check? ==> !s.reader.Idle?)
  {
    match step
    case Alloc(len, _) => Allocated(len)
    case SetKeys => Waiting(s.reader.len)
    case Check => if s.keys == 0 then Passed(s.reader.len) else Asleep(s.reader.len)
    case _ => Idle
  }

  lemma ReaderMoves(s: State, step: Step)
    requires Enabled(s, step) && OfReader(step)
    ensures Next(s, step).reader == MovedTo(s, step)
  {
  }

  lemma SameLength(steps: seq<Step>, n: nat)
    requires n < |steps| && Possible(steps, n + 1) && (steps[n].SetKeys? || steps[n].Check?)
    ensures AllocLen(steps, n + 1) == Exec(steps, n).reader.len
  {
    CountsAlways(steps, n);
  }

  /** A test leaves as much missing as there was. */
  lemma SameMissing(steps: seq<Step>, n: nat)
    requires n < |steps| && steps[n].Check?
    ensures Missing(steps, n + 1, AllocLen(steps, n + 1)) == Missing(steps, n, AllocLen(steps, n + 1))
  {
    assert Delivered(steps, n + 1) == Delivered(steps, n);
  }

  lemma PlaceOfMove(steps: seq<Step>, n: nat)
    requires n < |steps| && OfReader(steps[n])
    ensures var len := AllocLen(steps, n + 1);
            PlaceAfter(steps[n], len, Missing(steps, n, len) == 0, Filled(steps, n + 1, n + 1, len))
            == Place(steps, n + 1)
  {
    assert MovedAt(steps, n + 1) == n + 1;
  }

  lemma CheckMoves(steps: seq<Step>, n: nat)
    requires n < |steps| && Possible(steps, n + 1) && steps[n].Check?
    ensures Exec(steps, n + 1).reader == Place(steps, n + 1)
  {
    var len := AllocLen(steps, n + 1);
    PlaceOfMove(steps, n);
    SameLength(steps, n);
    SameMissing(steps, n);
    FilledAt(steps, n + 1, len);
    KeysTellMissing(steps, n);
    ReaderMoves(Exec(steps, n), steps[n]);
  }

  lemma PlaceMoves(steps: seq<Step>, n: nat)
    requires n < |steps| && Possible(steps, n + 1) && OfReader(steps[n])
    ensures Exec(steps, n + 1).reader == Place(steps, n + 1)
  {
    if steps[n].Check? {
      CheckMoves(steps, n);
    } else {
      PlaceOfMove(steps, n);
      ReaderMoves(Exec(steps, n), steps[n]);
      if steps[n].SetKeys? {
        SameLength(steps, n);
      }
    }
  }

  /** What other steps do to the reader: a last scancode wakes it, and that is all. */
  lemma OthersWake(steps: seq<Step>, n: nat)
    requires n < |steps| && Possible(steps, n + 1) && !OfReader(steps[n])
    ensures var r := Exec(steps, n).reader;
            Exec(steps, n + 1).reader ==
              if r.Asleep? && Missing(steps, n + 1, r.len) == 0 then Waiting(r.len) else r
  {
    HandshakeAlways(steps, n);
    if Exec(steps, n).reader.Asleep? {
      KeysTellMissing(steps, n);
      KeysTellMissing(steps, n + 1);
    }
  }

  lemma PlaceOfOther(steps: seq<Step>, n: nat)
    requires n < |steps| && !OfReader(steps[n])
    ensures var k, len := MovedAt(steps, n), AllocLen(steps, n);
            if k == 0 then Place(steps, n + 1) == Idle
            else
              PlaceAfter(steps[k - 1], len, Missing(steps, k - 1, len) == 0, Filled(steps, k, n + 1, len))
              == Place(steps, n + 1)
  {
    assert MovedAt(steps, n + 1) == MovedAt(steps, n);
    assert AllocLen(steps, n + 1) == AllocLen(steps, n);
  }

  lemma PlaceStays(steps: seq<Step>, n: nat)
    requires n < |steps| && Possible(steps, n + 1) && !OfReader(steps[n])
    requires Exec(steps, n).reader == Place(steps, n)
    ensures Exec(steps, n + 1).reader == Place(steps, n + 1)
  {
    OthersWake(steps, n);
    PlaceOfOther(steps, n);
    FilledStep(steps, MovedAt(steps, n), n, AllocLen(steps, n));
  }

  /** In every run the reader is where its own steps and the scancodes put it. */
  lemma {:induction false} ReaderAlways(steps: seq<Step>, n: nat)
    requires n <= |steps| && Possible(steps, n)
    ensures Exec(steps, n).reader == Place(steps, n)
  {
    if n > 0 {
      if OfReader(steps[n - 1]) {
        PlaceMoves(steps, n - 1);
      } else {
        ReaderAlways(steps, n - 1);
        PlaceStays(steps, n - 1);
      }
    }
  }

  // ---------------------------------------------------------------- what a step leaves alone

  /** Only a completed copy gives the user anything, and only `kmalloc` and the handler touch the
      buffer. */
  lemma Untouched(steps: seq<Step>, n: nat)
    requires n < |steps| && Possible(steps, n + 1)
    ensures steps[n] != Copy(false) ==> Exec(steps, n + 1).user == Exec(steps, n).user
    ensures steps[n].Alloc? ==> Exec(steps, n + 1).kbuf == Some(steps[n].memory)
    ensures !steps[n].Alloc? && !steps[n].Scancode? ==> Exec(steps, n + 1).kbuf == Exec(steps, n).kbuf
  {
    HistoryStep(steps, n);
  }

  /** Every way a read ends. By a signal or a fault the user has got nothing. */
  lemma ReadEnds(steps: seq<Step>, n: nat)
    requires n < |steps| && Possible(steps, n + 1) && (steps[n].Copy? || steps[n].Signal?)
    ensures Exec(steps, n + 1).reader.Idle?
    ensures steps[n] != Copy(false) ==> Exec(steps, n + 1).user == Exec(steps, n).user
  {
    Untouched(steps, n);
    ReaderAlways(steps, n + 1);
  }

  lemma {:induction false} MemoryWaits(steps: seq<Step>, a: nat, n: nat)
    requires a < n <= |steps| && Possible(steps, n) && steps[a].Alloc?
    requires forall i :: a < i < n ==> !steps[i].Scancode? && !steps[i].Alloc?
    ensures Exec(steps, n).kbuf == Some(steps[a].memory)
  {
    Untouched(steps, n - 1);
    if a < n - 1 {
      MemoryWaits(steps, a, n - 1);
    }
  }

  /** With no store between `kmalloc` and `keys = len`, the stale bytes of a read are those `kmalloc`
      found. */
  lemma BaseIsAllocated(steps: seq<Step>, a: nat, n: nat)
    requires n <= |steps| && Possible(steps, n) && a < SetAt(steps, n) && steps[a].Alloc?
    requires forall i :: a < i < SetAt(steps, n) ==> !steps[i].Scancode? && !steps[i].Alloc?
    ensures Base(steps, n) == Some(steps[a].memory)
  {
    PossiblePrefix(steps, SetAt(steps, n), n);
    MemoryWaits(steps, a, SetAt(steps, n));
  }

  // ---------------------------------------------------------------- what may happen

  /** What can come next, told from what has happened. */
  ghost predicate MayCome(steps: seq<Step>, n: nat, step: Step)
    requires n <= |steps|
  {
    var files, place := FilesOpen(steps, n), Place(steps, n);
    match step
    case Open => true
    case Close => files > (if place == Idle then 0 else 1)
    case Alloc(len, memory) => place == Idle && files > 0 && |memory| - 0x8000_0000 >= len
    case SetKeys => place.Allocated?
    case Scancode(_) => files > 0
    case Check => place.Waiting?
    case Signal => place.Asleep?
    case Copy(_) => place.Passed?
    case ExitTests => !HasTested(steps, n)
    case ExitTurn => HasTested(steps, n) && (!HasWaited(steps, n) || Woken(steps, n))
    case Deregister => false
  }

  /** Until the exit function is past its wait, just that can happen; after it, all but its own steps
      as before, and `misc_deregister`; and after that, nothing. */
  lemma EnabledIff(steps: seq<Step>, n: nat, step: Step)
    requires n <= |steps| && Possible(steps, n)
    ensures Enabled(Exec(steps, n), step) <==>
              match Exec(steps, n).exit
              case Unloaded => false
              case Cleared => step.Deregister? || (MayCome(steps, n, step) && !step.ExitTests? && !step.ExitTurn?)
              case _ => MayCome(steps, n, step)
  {
    ReaderAlways(steps, n);
    RegisteredAlways(steps, n);
    if !Leaving(Exec(steps, n).exit) {
      ExitAlways(steps, n);
    }
  }

  /** The exit function stays past its wait, once there, until `misc_deregister`, which comes last. */
  lemma LeavesOnce(steps: seq<Step>, n: nat)
    requires n < |steps| && Possible(steps, n + 1)
    ensures Exec(steps, n + 1).exit.Unloaded? <==> steps[n].Deregister?
    ensures Exec(steps, n).exit.Cleared? && !steps[n].Deregister? ==> Exec(steps, n + 1).exit.Cleared?
    ensures !Exec(steps, n).exit.Unloaded?
  {
    HistoryStep(steps, n);
  }

  /** The closes since the latest open. */
  function ClosesSinceOpen(steps: seq<Step>, n: nat): nat
    requires n <= |steps|
  {
    if n == 0 || steps[n - 1].Open? then 0
    else ClosesSinceOpen(steps, n - 1) + if steps[n - 1].Close? then 1 else 0
  }

  lemma DoneStep(s: State, step: Step)
    requires Enabled(s, step) && !Leaving(s.exit)
    ensures Next(s, step).done ==
              if step.Open? then 0
              else if step.Close? then s.done + 1
              else if step.ExitTurn? && s.done > 0 then s.done - 1
              else s.done
    ensures step.ExitTurn? ==> (Leaving(Next(s, step).exit) <==> s.done > 0)
  {
  }

  lemma NotLeftBefore(steps: seq<Step>, n: nat)
    requires n < |steps| && Possible(steps, n + 1) && !Leaving(Exec(steps, n + 1).exit)
    ensures !Leaving(Exec(steps, n).exit)
  {
  }

  /** Each of them is a completion that the exit function can take. */
  lemma {:induction false} DoneAlways(steps: seq<Step>, n: nat)
    requires n <= |steps| && Possible(steps, n) && !Leaving(Exec(steps, n).exit)
    ensures Exec(steps, n).done == ClosesSinceOpen(steps, n)
  {
    if n > 0 {
      NotLeftBefore(steps, n - 1);
      DoneAlways(steps, n - 1);
      DoneStep(Exec(steps, n - 1), steps[n - 1]);
    }
  }

  /** In its wait it passes exactly when there is one, and takes just one. */
  lemma TurnTakesOne(steps: seq<Step>, n: nat)
    requires n < |steps| && Possible(steps, n + 1) && steps[n].ExitTurn?
    ensures Exec(steps, n + 1).exit.Cleared? <==> ClosesSinceOpen(steps, n) > 0
    ensures Exec(steps, n + 1).done == if ClosesSinceOpen(steps, n) > 0 then ClosesSinceOpen(steps, n) - 1 else 0
  {
    DoneAlways(steps, n);
    DoneStep(Exec(steps, n), steps[n]);
  }
}
