/** The unload handshake in every run: registrations, the completion, and its wait queue. */
module KeyLogUnload {
  import opened Common
  import opened KeyLog

  // ---------------------------------------------------------------- what happened

  /** Opens less closes. */
  function FilesOpen(steps: seq<Step>, n: nat): int
    requires n <= |steps|
  {
    if n == 0 then 0
    else FilesOpen(steps, n - 1) + if steps[n - 1].Open? then 1 else if steps[n - 1].Close? then -1 else 0
  }

  /** The latest open or close was a close. */
  predicate LastIsClose(steps: seq<Step>, n: nat)
    requires n <= |steps|
  {
    n > 0 && (steps[n - 1].Close? || (!steps[n - 1].Open? && LastIsClose(steps, n - 1)))
  }

  /** The exit function has tested `intr_registered`. */
  predicate HasTested(steps: seq<Step>, n: nat)
    requires n <= |steps|
  {
    n > 0 && (steps[n - 1].ExitTests? || HasTested(steps, n - 1))
  }

  /** It has gone to wait. */
  predicate HasWaited(steps: seq<Step>, n: nat)
    requires n <= |steps|
  {
    n > 0 && (steps[n - 1].ExitTurn? || HasWaited(steps, n - 1))
  }

  /** It has gone to wait, and there was no open since: it is still in the queue. */
  predicate Listening(steps: seq<Step>, n: nat)
    requires n <= |steps|
  {
    n > 0 &&
    match steps[n - 1]
    case Open => false
    case ExitTurn => Listening(steps, n - 1) || !HasWaited(steps, n - 1)
    case _ => Listening(steps, n - 1)
  }

  /** A close came while it was in the queue, and it has not run since. */
  predicate Woken(steps: seq<Step>, n: nat)
    requires n <= |steps|
  {
    n > 0 &&
    match steps[n - 1]
    case ExitTurn => false
    case Close => Listening(steps, n - 1) || Woken(steps, n - 1)
    case _ => Woken(steps, n - 1)
  }

  /** It sleeps, and the queue it sleeps in is no longer the completion's. */
  predicate Stranded(steps: seq<Step>, n: nat)
    requires n <= |steps|
  {
    HasWaited(steps, n) && !Listening(steps, n) && !Woken(steps, n)
  }

  /** Position `w` is the exit function's first turn in its wait, before `n`. */
  ghost predicate FirstTurn(steps: seq<Step>, n: nat, w: nat)
    requires n <= |steps|
  {
    w < n && steps[w].ExitTurn? && forall i :: 0 <= i < w ==> !steps[i].ExitTurn?
  }

  lemma {:induction false} WaitedMeaning(steps: seq<Step>, n: nat)
    requires n <= |steps|
    ensures HasWaited(steps, n) <==> exists i :: 0 <= i < n && steps[i].ExitTurn?
  {
    if n > 0 {
      WaitedMeaning(steps, n - 1);
    }
  }

  ghost predicate QuietSince(steps: seq<Step>, n: nat, w: nat)
    requires n <= |steps|
  {
    FirstTurn(steps, n, w) && forall i :: w < i < n ==> !steps[i].Open?
  }

  /** It listens exactly when no open came after its first turn. */
  lemma {:induction false} ListeningMeaning(steps: seq<Step>, n: nat)
    requires n <= |steps|
    ensures Listening(steps, n) <==> exists w: nat :: QuietSince(steps, n, w)
  {
    if n > 0 {
      var m := n - 1;
      ListeningMeaning(steps, m);
      WaitedMeaning(steps, m);
      if w: nat :| QuietSince(steps, m, w) {
        assert !steps[m].Open? ==> QuietSince(steps, n, w);
      }
      if steps[m].ExitTurn? && !HasWaited(steps, m) {
        assert QuietSince(steps, n, m);
      }
      if w: nat :| QuietSince(steps, n, w) {
        assert w < m ==> QuietSince(steps, m, w);
      }
    }
  }

  ghost predicate WokenBy(steps: seq<Step>, n: nat, c: nat)
    requires n <= |steps|
  {
    c < n && steps[c].Close? && Listening(steps, c) && forall i :: c < i < n ==> !steps[i].ExitTurn?
  }

  /** It is woken exactly when a close came while it listened and it has taken no turn since. */
  lemma {:induction false} WokenMeaning(steps: seq<Step>, n: nat)
    requires n <= |steps|
    ensures Woken(steps, n) <==> exists c: nat :: WokenBy(steps, n, c)
  {
    if n > 0 {
      var m := n - 1;
      WokenMeaning(steps, m);
      if c: nat :| WokenBy(steps, m, c) {
        assert !steps[m].ExitTurn? ==> WokenBy(steps, n, c);
      }
      if steps[m].Close? && Listening(steps, m) {
        assert WokenBy(steps, n, m);
      }
      if c: nat :| WokenBy(steps, n, c) {
        assert c < m ==> WokenBy(steps, m, c);
      }
    }
  }

  // ---------------------------------------------------------------- what the state says of it

  /** Its next turn takes it past guard and wait. */
  predicate CanPass(s: State) {
    || (s.exit.NotYet? && s.intrRegistered == 0)
    || (s.exit.Tested? && s.done > 0)
    || (s.exit.Waits? && s.exit.awake && s.done > 0)
  }

  /** It can pass exactly when one of its own steps can take it there now, and no other step can. */
  lemma CanPassMeaning(s: State)
    requires !s.exit.Cleared? && !s.exit.Unloaded?
    ensures CanPass(s) <==> exists step :: Enabled(s, step) && Next(s, step).exit.Cleared?
    ensures forall step :: Enabled(s, step) && Next(s, step).exit.Cleared? ==> step.ExitTests? || step.ExitTurn?
  {
    if CanPass(s) {
      var step := if s.exit.NotYet? then ExitTests else ExitTurn;
      assert Enabled(s, step) && Next(s, step).exit.Cleared?;
    }
  }

  predicate Leaving(e: Exit) {
    e.Cleared? || e.Unloaded?
  }

  ghost predicate Registered(s: State, files: int, lastIsClose: bool) {
    && s.intrRegistered == s.files == files
    && (!Leaving(s.exit) ==> (s.done > 0 <==> lastIsClose))
    && (!s.reader.Idle? ==> s.files > 0)
    && (s.exit.Tested? || s.exit.Waits? ==> lastIsClose || files > 0)
  }

  lemma {:induction false} RegisteredAlways(steps: seq<Step>, n: nat)
    requires n <= |steps| && Possible(steps, n)
    ensures Registered(Exec(steps, n), FilesOpen(steps, n), LastIsClose(steps, n))
  {
    if n > 0 {
      RegisteredAlways(steps, n - 1);
    }
  }

  function ExitOf(tested: bool, waited: bool, listening: bool, woken: bool): Exit {
    if !tested then NotYet else if !waited then Tested else Waits(listening, woken)
  }

  /** The state's exit and what happened agree; and in the queue the exit function is awake exactly
      when the latest open or close was a close. */
  ghost predicate ExitKnown(s: State, tested: bool, waited: bool, listening: bool, woken: bool, lastIsClose: bool) {
    && s.exit == ExitOf(tested, waited, listening, woken)
    && (waited ==> tested)
    && (listening ==> waited && (woken <==> lastIsClose))
  }

  lemma ExitStep(s: State, step: Step, tested: bool, waited: bool, listening: bool, woken: bool, lastIsClose: bool)
    requires Enabled(s, step) && !Leaving(Next(s, step).exit)
    requires s.done > 0 <==> lastIsClose
    requires ExitKnown(s, tested, waited, listening, woken, lastIsClose)
    ensures ExitKnown(Next(s, step),
                      step.ExitTests? || tested,
                      step.ExitTurn? || waited,
                      if step.Open? then false else if step.ExitTurn? then listening || !waited else listening,
                      if step.ExitTurn? then false else if step.Close? then listening || woken else woken,
                      if step.Close? then true else if step.Open? then false else lastIsClose)
  {
  }

  /** Where the exit function is, told from what happened. */
  lemma {:induction false} ExitAlways(steps: seq<Step>, n: nat)
    requires n <= |steps| && Possible(steps, n) && !Leaving(Exec(steps, n).exit)
    ensures ExitKnown(Exec(steps, n), HasTested(steps, n), HasWaited(steps, n), Listening(steps, n),
                      Woken(steps, n), LastIsClose(steps, n))
  {
    if n > 0 {
      RegisteredAlways(steps, n - 1);
      ExitAlways(steps, n - 1);
      ExitStep(Exec(steps, n - 1), steps[n - 1], HasTested(steps, n - 1), HasWaited(steps, n - 1),
               Listening(steps, n - 1), Woken(steps, n - 1), LastIsClose(steps, n - 1));
    }
  }

  // ---------------------------------------------------------------- passing the guard

  /** In any run, opens overlapping or not: the exit function can pass with a file open exactly when it
      has tested its guard, files are open, the latest open or close was a close, and it can hear of
      that: it has not yet gone to wait, or there was no open since it did, or it was woken and has
      not run since. */
  lemma PassesUnderFileIff(steps: seq<Step>, n: nat)
    requires n <= |steps| && Possible(steps, n) && !Leaving(Exec(steps, n).exit)
    ensures CanPass(Exec(steps, n)) && Exec(steps, n).files > 0 <==>
              && HasTested(steps, n) && FilesOpen(steps, n) > 0 && LastIsClose(steps, n)
              && !Stranded(steps, n)
  {
    RegisteredAlways(steps, n);
    ExitAlways(steps, n);
  }

  /** With no file open, it can pass exactly when it is not stranded. */
  lemma PassesIff(steps: seq<Step>, n: nat)
    requires n <= |steps| && Possible(steps, n) && !Leaving(Exec(steps, n).exit)
    requires Exec(steps, n).files == 0
    ensures CanPass(Exec(steps, n)) <==> !Stranded(steps, n)
  {
    RegisteredAlways(steps, n);
    ExitAlways(steps, n);
  }

  ghost predicate NoOverlap(steps: seq<Step>, n: nat)
    requires n <= |steps|
  {
    forall m {:trigger FilesOpen(steps, m)} :: 0 <= m <= n ==> FilesOpen(steps, m) <= 1
  }

  lemma {:induction false} CloseWasLast(steps: seq<Step>, n: nat)
    requires n <= |steps| && Possible(steps, n) && NoOverlap(steps, n)
    requires LastIsClose(steps, n)
    ensures FilesOpen(steps, n) == 0
  {
    if !steps[n - 1].Close? {
      CloseWasLast(steps, n - 1);
    } else {
      RegisteredAlways(steps, n);
      assert FilesOpen(steps, n - 1) <= 1;
    }
  }

  /** When opens do not overlap, it passes only when no file is open and no read in progress. */
  lemma GuardIsSafe(steps: seq<Step>, n: nat)
    requires n <= |steps| && Possible(steps, n) && NoOverlap(steps, n)
    requires CanPass(Exec(steps, n))
    ensures Exec(steps, n).files == 0 && Exec(steps, n).reader.Idle?
  {
    RegisteredAlways(steps, n);
    if LastIsClose(steps, n) {
      CloseWasLast(steps, n);
    }
  }

  lemma {:induction false} SleepsOn(steps: seq<Step>, m: nat, n: nat)
    requires m <= n <= |steps| && Exec(steps, m).exit == Waits(false, false)
    ensures Exec(steps, n).exit == Waits(false, false)
  {
    if m < n {
      SleepsOn(steps, m, n - 1);
    }
  }

  lemma {:induction false} PossiblePrefix(steps: seq<Step>, m: nat, n: nat)
    requires m <= n <= |steps| && Possible(steps, n)
    ensures Possible(steps, m)
  {
    if m < n {
      PossiblePrefix(steps, m, n - 1);
    }
  }

  /** Once stranded it never passes, whatever happens. */
  lemma StrandedForever(steps: seq<Step>, m: nat, n: nat)
    requires m <= n <= |steps| && Possible(steps, n)
    requires Stranded(steps, m) && !Leaving(Exec(steps, m).exit)
    ensures !Leaving(Exec(steps, n).exit) && !CanPass(Exec(steps, n))
  {
    PossiblePrefix(steps, m, n);
    ExitAlways(steps, m);
    SleepsOn(steps, m, n);
  }

  // ---------------------------------------------------------------- deregistering

  /** The latest open or close at or after `p` was an open. */
  ghost predicate OpenedFrom(steps: seq<Step>, p: nat, n: nat)
    requires n <= |steps|
  {
    exists k: nat :: LatestOpen(steps, p, n, k)
  }

  ghost predicate LatestOpen(steps: seq<Step>, p: nat, n: nat, k: nat)
    requires n <= |steps|
  {
    p <= k < n && steps[k].Open? && forall i :: k < i < n ==> !steps[i].Open? && !steps[i].Close?
  }

  lemma OpenedFromStep(steps: seq<Step>, p: nat, n: nat)
    requires p <= n < |steps|
    ensures OpenedFrom(steps, p, n + 1)
            <==> steps[n].Open? || (!steps[n].Close? && OpenedFrom(steps, p, n))
  {
    var m := n + 1;
    if steps[n].Open? {
      assert LatestOpen(steps, p, m, n);
    }
    if k: nat :| LatestOpen(steps, p, n, k) {
      assert !steps[n].Open? && !steps[n].Close? ==> LatestOpen(steps, p, m, k);
    }
    if k: nat :| LatestOpen(steps, p, m, k) {
      assert k < n ==> LatestOpen(steps, p, n, k);
    }
  }

  lemma {:induction false} FilesFrom(steps: seq<Step>, p: nat, n: nat)
    requires p <= n <= |steps| && Possible(steps, n) && NoOverlap(steps, n)
    requires FilesOpen(steps, p) == 0
    ensures FilesOpen(steps, n) == if OpenedFrom(steps, p, n) then 1 else 0
  {
    if p < n {
      FilesFrom(steps, p, n - 1);
      OpenedFromStep(steps, p, n - 1);
      RegisteredAlways(steps, n - 1);
      RegisteredAlways(steps, n);
      assert FilesOpen(steps, n) <= 1;
    }
  }

  /** When opens do not overlap, `misc_deregister` finds a file open exactly when one was opened after
      the step `p` that passed the guard, and not closed again. */
  lemma DeregistersUnderFileIff(steps: seq<Step>, p: nat, n: nat)
    requires p < n < |steps| && Possible(steps, n + 1) && NoOverlap(steps, n)
    requires !Leaving(Exec(steps, p).exit) && Exec(steps, p + 1).exit.Cleared?
    requires steps[n].Deregister?
    ensures Exec(steps, n).files > 0 <==> OpenedFrom(steps, p, n)
  {
    PossiblePrefix(steps, p + 1, n + 1);
    CanPassMeaning(Exec(steps, p));
    GuardIsSafe(steps, p);
    RegisteredAlways(steps, p);
    FilesFrom(steps, p, n);
    RegisteredAlways(steps, n);
  }

  // ---------------------------------------------------------------- examples

  /** Without any overlap, an open between the guard and `misc_deregister`. */
  lemma GapExample()
    ensures var steps := [ExitTests, Open, Deregister];
            Possible(steps, 3) && Exec(steps, 3).exit.Unloaded? && Exec(steps, 3).files == 1
  {
    var steps := [ExitTests, Open, Deregister];
    OneStep(steps, 0, Loaded);
    OneStep(steps, 1, Loaded.(exit := Cleared));
    OneStep(steps, 2, State(None, 0, 1, 0, 1, Idle, Cleared, []));
  }

  /** Two overlapping opens and one close let the exit function pass while a read is in progress. */
  lemma OverlapExample(len: nat, memory: Memory)
    requires |memory| >= ORIGIN + len
    ensures var steps := [Open, Open, Alloc(len, memory), ExitTests, Close, ExitTurn];
            && Possible(steps, 6)
            && Exec(steps, 6).exit.Cleared? && Exec(steps, 6).files == 1 && !Exec(steps, 6).reader.Idle?
  {
    var steps := [Open, Open, Alloc(len, memory), ExitTests, Close, ExitTurn];
    var s := State(Some(memory), 0, 2, 0, 2, Allocated(len), NotYet, []);
    OneStep(steps, 0, Loaded);
    OneStep(steps, 1, State(None, 0, 1, 0, 1, Idle, NotYet, []));
    OneStep(steps, 2, State(None, 0, 2, 0, 2, Idle, NotYet, []));
    OneStep(steps, 3, s);
    OneStep(steps, 4, s.(exit := Tested));
    OneStep(steps, 5, s.(exit := Tested, intrRegistered := 1, done := 1, files := 1));
  }

  /** The run that hangs. */
  ghost predicate Hangs(steps: seq<Step>) {
    steps == [Open, ExitTests, ExitTurn, Close, Open, ExitTurn, Close]
  }

  lemma HangFiles(steps: seq<Step>)
    requires Hangs(steps)
    ensures NoOverlap(steps, 7)
  {
    assert FilesOpen(steps, 1) == 1;
    assert FilesOpen(steps, 3) == 1;
    assert FilesOpen(steps, 4) == 0;
    assert FilesOpen(steps, 6) == 1;
  }

  lemma HangTests(steps: seq<Step>)
    requires Hangs(steps)
    ensures Possible(steps, 2)
    ensures Exec(steps, 2) == State(None, 0, 1, 0, 1, Idle, Tested, [])
  {
    OneStep(steps, 0, Loaded);
    OneStep(steps, 1, State(None, 0, 1, 0, 1, Idle, NotYet, []));
  }

  lemma HangBegins(steps: seq<Step>)
    requires Hangs(steps)
    ensures Possible(steps, 4)
    ensures Exec(steps, 4) == State(None, 0, 0, 1, 0, Idle, Waits(true, true), [])
  {
    HangTests(steps);
    OneStep(steps, 2, State(None, 0, 1, 0, 1, Idle, Tested, []));
    OneStep(steps, 3, State(None, 0, 1, 0, 1, Idle, Waits(true, false), []));
  }

  lemma HangReopens(steps: seq<Step>)
    requires Hangs(steps)
    ensures Possible(steps, 5)
    ensures Exec(steps, 5) == State(None, 0, 1, 0, 1, Idle, Waits(false, true), [])
  {
    HangBegins(steps);
    OneStep(steps, 4, State(None, 0, 0, 1, 0, Idle, Waits(true, true), []));
  }

  lemma HangSleeps(steps: seq<Step>)
    requires Hangs(steps)
    ensures Possible(steps, 6)
    ensures Exec(steps, 6) == State(None, 0, 1, 0, 1, Idle, Waits(false, false), [])
  {
    HangReopens(steps);
    OneStep(steps, 5, State(None, 0, 1, 0, 1, Idle, Waits(false, true), []));
  }

  lemma HangEnds(steps: seq<Step>)
    requires Hangs(steps)
    ensures Possible(steps, 7)
    ensures Exec(steps, 7) == State(None, 0, 0, 1, 0, Idle, Waits(false, false), [])
  {
    HangSleeps(steps);
    OneStep(steps, 6, State(None, 0, 1, 0, 1, Idle, Waits(false, false), []));
  }

  /** Without any overlap, an open between the close that wakes the exit function and its next turn
      strands it: all files are closed and the completion is pending, and it sleeps on. */
  lemma HangExample(steps: seq<Step>)
    requires Hangs(steps)
    ensures Possible(steps, 7) && NoOverlap(steps, 7)
    ensures Exec(steps, 7).files == 0 && Exec(steps, 7).done == 1 && Exec(steps, 7).exit == Waits(false, false)
  {
    HangEnds(steps);
    HangFiles(steps);
  }
}
