/** Packet hooks, clears and one /proc/net_proc reader, interleaved.

    A hook takes two steps, because it reads `root` before it takes the lock. A clear is one locked
    step. The reader takes no lock: each of its callbacks (`my_start`, then `my_show` and `my_next` in
    turn until `my_next` returns NULL) is a step of its own, and anything may happen between two. */
module PacketWalk {
  import opened Words
  import opened PacketTotals
  import opened PacketSums
  import opened PacketList

  /** The reader has not started, is about to show row `i`, has shown row `i`, or has met NULL. */
  datatype Phase = Idle | About(i: nat) | Shown(i: nat) | Done

  datatype Step = HookEnters | HookAdds(k: nat, src: string, size: Int32) | Clears | ReaderMoves

  datatype World = World(rows: seq<Row>, hooks: nat, phase: Phase, out: seq<Line>)

  const Start: World := World(Initial, 0, Idle, [])

  /** Where the reader stands after meeting position `i` of the list. */
  function Meet(i: nat, rows: seq<Row>): Phase {
    if i < |rows| then About(i) else Done
  }

  function Moved(w: World): World {
    match w.phase
    case Idle => w.(phase := Meet(1, w.rows))
    case About(i) =>
      if i < |w.rows| then w.(phase := Shown(i), out := w.out + [LineOf(w.rows[i])]) else w
    case Shown(i) => w.(phase := Meet(i + 1, w.rows))
    case Done => w
  }

  function After(w: World, step: Step): World {
    match step
    case HookEnters => w.(hooks := w.hooks + 1)
    case HookAdds(k, src, size) =>
      if k < w.hooks then w.(hooks := w.hooks - 1, rows := Record(w.rows, src, size)) else w
    case Clears => w.(rows := Cleared(w.rows))
    case ReaderMoves => Moved(w)
  }

  /** The world after the first `n` steps. */
  function Exec(steps: seq<Step>, n: nat): World
    requires n <= |steps|
  {
    if n == 0 then Start else After(Exec(steps, n - 1), steps[n - 1])
  }

  // ---------------------------------------------------------------- writers

  /** The locked sections among the first `n` steps, in order. */
  function OpsOf(steps: seq<Step>, n: nat): seq<Op>
    requires n <= |steps|
  {
    if n == 0 then []
    else
      var before := OpsOf(steps, n - 1);
      match steps[n - 1]
      case HookAdds(k, src, size) =>
        if k < Exec(steps, n - 1).hooks then before + [Packet(src, size)] else before
      case Clears => before + [Clear]
      case _ => before
  }

  /** How many hooks have entered, and how many steps are a hook's locked section. */
  function Enters(steps: seq<Step>, n: nat): nat
    requires n <= |steps|
  {
    if n == 0 then 0 else Enters(steps, n - 1) + if steps[n - 1].HookEnters? then 1 else 0
  }

  function Adds(steps: seq<Step>, n: nat): nat
    requires n <= |steps|
  {
    if n == 0 then 0 else Adds(steps, n - 1) + if steps[n - 1].HookAdds? then 1 else 0
  }

  function ClearSteps(steps: seq<Step>, n: nat): nat
    requires n <= |steps|
  {
    if n == 0 then 0 else ClearSteps(steps, n - 1) + if steps[n - 1].Clears? then 1 else 0
  }

  function Packets(ops: seq<Op>): nat {
    if ops == [] then 0 else Packets(ops[..|ops| - 1]) + if ops[|ops| - 1].Packet? then 1 else 0
  }

  lemma PacketsSnoc(ops: seq<Op>, op: Op)
    ensures Packets(ops + [op]) == Packets(ops) + if op.Packet? then 1 else 0
  {
    assert (ops + [op])[..|ops|] == ops;
  }

  lemma HooksAfter(w: World, step: Step)
    requires !step.HookAdds?
    ensures After(w, step).hooks == w.hooks + if step.HookEnters? then 1 else 0
  {
  }

  /** Every hook that has entered is in flight or has added its packet, and every clear is on record. */
  lemma {:induction false} NothingLost(steps: seq<Step>, n: nat)
    requires n <= |steps|
    ensures Exec(steps, n).hooks + Packets(OpsOf(steps, n)) == Enters(steps, n)
    ensures |OpsOf(steps, n)| == Packets(OpsOf(steps, n)) + ClearSteps(steps, n)
  {
    if n > 0 {
      NothingLost(steps, n - 1);
      var w, before, step := Exec(steps, n - 1), OpsOf(steps, n - 1), steps[n - 1];
      if step.HookAdds? {
        PacketsSnoc(before, Packet(step.src, step.size));
        assert OpsOf(steps, n) == if step.k < w.hooks then before + [Packet(step.src, step.size)] else before;
      } else if step.Clears? {
        PacketsSnoc(before, Clear);
      } else {
        assert OpsOf(steps, n) == before;
        HooksAfter(w, step);
      }
    }
  }

  /** Each locked section belongs to a hook that entered and has not added yet. */
  ghost predicate Scheduled(steps: seq<Step>, n: nat)
    requires n <= |steps|
  {
    forall i {:trigger Adds(steps, i)} :: 0 <= i < n && steps[i].HookAdds? ==>
      steps[i].k < Enters(steps, i) - Adds(steps, i)
  }

  /** The packets and clears as scheduled, whatever the world does. */
  function Sections(steps: seq<Step>, n: nat): seq<Op>
    requires n <= |steps|
  {
    if n == 0 then []
    else
      Sections(steps, n - 1) +
      match steps[n - 1]
      case HookAdds(_, src, size) => [Packet(src, size)]
      case Clears => [Clear]
      case _ => []
  }

  /** Then all of them take place, in that order, and no other. */
  lemma {:induction false} AllTakePlace(steps: seq<Step>, n: nat)
    requires n <= |steps| && Scheduled(steps, n)
    ensures Exec(steps, n).hooks == Enters(steps, n) - Adds(steps, n)
    ensures OpsOf(steps, n) == Sections(steps, n)
  {
    if n > 0 {
      AllTakePlace(steps, n - 1);
      var w, before, step := Exec(steps, n - 1), OpsOf(steps, n - 1), steps[n - 1];
      if step.HookAdds? {
        assert step.k < Enters(steps, n - 1) - Adds(steps, n - 1);
        assert OpsOf(steps, n) == before + [Packet(step.src, step.size)];
      } else {
        HooksAfter(w, step);
        assert OpsOf(steps, n) == before + if step.Clears? then [Clear] else [];
      }
    }
  }

  lemma RunSnoc(ops: seq<Op>, op: Op)
    ensures Run(ops + [op]) == Apply(Run(ops), op)
  {
    assert (ops + [op])[..|ops|] == ops;
  }

  /** The reader disturbs nothing: the list is what the locked sections alone make it. */
  lemma {:induction false} ListIsRun(steps: seq<Step>, n: nat)
    requires n <= |steps|
    ensures Exec(steps, n).rows == Run(OpsOf(steps, n))
  {
    if n > 0 {
      ListIsRun(steps, n - 1);
      match steps[n - 1] {
        case HookAdds(k, src, size) => RunSnoc(OpsOf(steps, n - 1), Packet(src, size));
        case Clears => RunSnoc(OpsOf(steps, n - 1), Clear);
        case _ =>
      }
    }
  }

  /** So under a proper schedule the list is what its packets and clears make it. */
  lemma ListIsScheduled(steps: seq<Step>, n: nat)
    requires n <= |steps|
    ensures Scheduled(steps, n) ==> Exec(steps, n).rows == Run(Sections(steps, n))
  {
    ListIsRun(steps, n);
    if Scheduled(steps, n) {
      AllTakePlace(steps, n);
    }
  }

  ghost predicate Extends(rows: seq<Row>, more: seq<Row>) {
    |rows| <= |more| && forall i :: 0 <= i < |rows| ==> more[i].addr == rows[i].addr
  }

  lemma {:induction false} ListGrows(steps: seq<Step>, m: nat, n: nat)
    requires m <= n <= |steps|
    ensures Extends(Exec(steps, m).rows, Exec(steps, n).rows)
  {
    if m < n {
      ListGrows(steps, m, n - 1);
    }
  }

  // ---------------------------------------------------------------- the reader

  /** The output so far is the list from its first node up to where the reader stands. */
  ghost predicate OnTrack(w: World) {
    && |w.out| < |w.rows|
    && (forall j :: 0 <= j < |w.out| ==> w.out[j].addr == w.rows[j + 1].addr)
    && match w.phase
       case Idle => |w.out| == 0
       case About(i) => 1 <= i < |w.rows| && |w.out| == i - 1
       case Shown(i) => 1 <= i < |w.rows| && |w.out| == i
       case Done => true
  }

  lemma OnTrackStep(w: World, step: Step)
    requires OnTrack(w)
    ensures OnTrack(After(w, step))
  {
  }

  lemma {:induction false} AlwaysOnTrack(steps: seq<Step>, n: nat)
    requires n <= |steps|
    ensures OnTrack(Exec(steps, n))
  {
    if n > 0 {
      AlwaysOnTrack(steps, n - 1);
      OnTrackStep(Exec(steps, n - 1), steps[n - 1]);
    }
  }

  function OutAddrs(out: seq<Line>): (a: seq<string>)
    ensures |a| == |out| && forall i :: 0 <= i < |out| ==> a[i] == out[i].addr
  {
    seq(|out|, i requires 0 <= i < |out| => out[i].addr)
  }

  lemma DoneStep(w: World, step: Step)
    requires OnTrack(w) && After(w, step).phase.Done?
    ensures After(w, step).out == w.out
    ensures !w.phase.Done? ==> |w.out| + 1 == |w.rows| == |After(w, step).rows|
  {
  }

  /** When the reader met NULL, and that it had then shown the whole list. */
  lemma {:induction false} WalkEnd(steps: seq<Step>, n: nat) returns (e: nat)
    requires n <= |steps| && Exec(steps, n).phase.Done?
    ensures 0 < e <= n
    ensures Exec(steps, e).phase.Done? && !Exec(steps, e - 1).phase.Done?
    ensures Exec(steps, n).out == Exec(steps, e).out
    ensures |Exec(steps, e).out| + 1 == |Exec(steps, e).rows|
  {
    AlwaysOnTrack(steps, n - 1);
    DoneStep(Exec(steps, n - 1), steps[n - 1]);
    if Exec(steps, n - 1).phase.Done? {
      e := WalkEnd(steps, n - 1);
    } else {
      e := n;
    }
  }

  /** A finished walk lists exactly the sources on the list when it met NULL, in list order. So
      every source that was there when it began comes out, once, before any later one. */
  lemma WalkIsComplete(steps: seq<Step>, s: nat, n: nat) returns (e: nat)
    requires s < n <= |steps|
    requires Exec(steps, s).phase.Idle? && steps[s].ReaderMoves?
    requires Exec(steps, n).phase.Done?
    ensures s < e <= n
    ensures |Exec(steps, e).rows| > 0 && |Exec(steps, s).rows| > 0
    ensures OutAddrs(Exec(steps, n).out) == Addrs(Exec(steps, e).rows)[1..]
    ensures Addrs(Exec(steps, s).rows)[1..] <= OutAddrs(Exec(steps, n).out)
    ensures Distinct(OutAddrs(Exec(steps, n).out))
  {
    e := WalkEnd(steps, n);
    NotBegun(steps, s, e);
    AlwaysOnTrack(steps, e);
    AlwaysOnTrack(steps, s);
    ListGrows(steps, s, e);
    ListIsRun(steps, e);
    RunIsFaithful(OpsOf(steps, e));
  }

  /** A reader that is idle at `s` cannot have finished by then. */
  lemma {:induction false} NotBegun(steps: seq<Step>, s: nat, e: nat)
    requires s <= |steps| && e <= |steps|
    requires Exec(steps, s).phase.Idle? && !Exec(steps, e).phase.Idle?
    ensures s < e
    decreases s
  {
    if e <= s {
      if s > 0 {
        assert Exec(steps, s - 1).phase.Idle?;
        if e < s {
          NotBegun(steps, s - 1, e);
        }
      }
    }
  }

  lemma RowIsRight(steps: seq<Step>, n: nat, i: nat)
    requires n <= |steps| && i < |Exec(steps, n).rows|
    ensures RightRow(OpsOf(steps, n), Exec(steps, n).rows[i])
  {
    ListIsRun(steps, n);
    RunIsFaithful(OpsOf(steps, n));
  }

  /** A step adds no line, or it is the reader's and adds the line of the row it stands before. */
  lemma OutStep(w: World, step: Step)
    requires OnTrack(w)
    ensures After(w, step).out == w.out ||
            (&& step.ReaderMoves? && w.phase == About(|w.out| + 1) && |w.out| + 1 < |w.rows|
             && After(w, step).out == w.out + [LineOf(w.rows[|w.out| + 1])])
  {
  }

  /** A line read off a right row: the count in 32 bits, and the bytes in 64 bits cut to whole
      kilobytes toward zero. */
  ghost predicate RightLine(ops: seq<Op>, line: Line) {
    var bytes := Wrap64(SinceClear(ops, line.addr, Size));
    && line.packets == Wrap32(SinceClear(ops, line.addr, One))
    && (bytes >= 0 ==> 0 <= bytes - 1024 * line.kilobytes < 1024)
    && (bytes <= 0 ==> 0 <= 1024 * line.kilobytes - bytes < 1024)
  }

  lemma LineIsRight(ops: seq<Op>, r: Row)
    requires RightRow(ops, r)
    ensures LineOf(r).addr == r.addr && RightLine(ops, LineOf(r))
  {
    TruncatedMeaning(r.bytes, 1024);
  }

  /** Every line shows its source's packets and kilobytes as they stood when it was shown. */
  lemma {:induction false} LineIsSnapshot(steps: seq<Step>, n: nat, j: nat) returns (k: nat)
    requires n <= |steps| && j < |Exec(steps, n).out|
    ensures k < n && j + 1 < |Exec(steps, k).rows|
    ensures steps[k].ReaderMoves? && Exec(steps, k).phase == About(j + 1)
    ensures Exec(steps, n).out[j] == LineOf(Exec(steps, k).rows[j + 1])
    ensures RightLine(OpsOf(steps, k), Exec(steps, n).out[j])
  {
    AlwaysOnTrack(steps, n - 1);
    OutStep(Exec(steps, n - 1), steps[n - 1]);
    if j < |Exec(steps, n - 1).out| {
      k := LineIsSnapshot(steps, n - 1, j);
    } else {
      k := n - 1;
      RowIsRight(steps, k, j + 1);
      LineIsRight(OpsOf(steps, k), Exec(steps, k).rows[j + 1]);
    }
  }

  /** How often the reader was scheduled. */
  function Turns(steps: seq<Step>, n: nat): nat
    requires n <= |steps|
  {
    if n == 0 then 0 else Turns(steps, n - 1) + if steps[n - 1].ReaderMoves? then 1 else 0
  }

  lemma {:induction false} TurnsTaken(steps: seq<Step>, n: nat)
    requires n <= |steps|
    ensures match Exec(steps, n).phase
            case Idle => Turns(steps, n) == 0
            case About(i) => Turns(steps, n) == 2 * i - 1
            case Shown(i) => Turns(steps, n) == 2 * i
            case Done => true
  {
    if n > 0 {
      TurnsTaken(steps, n - 1);
      AlwaysOnTrack(steps, n - 1);
    }
  }

  /** The walk ends: two turns a source and one more always suffice, however the hooks interleave. */
  lemma WalkEnds(steps: seq<Step>, n: nat)
    requires n <= |steps|
    requires Turns(steps, n) > 2 * (|Exec(steps, n).rows| - 1)
    ensures Exec(steps, n).phase.Done?
  {
    TurnsTaken(steps, n);
    AlwaysOnTrack(steps, n);
  }

  // ---------------------------------------------------------------- on the heap

  /** The module at work on real pointers: its list, the `root` each hook in flight has read, and
      the reader's `void *v` with what seq_file knows about it. */
  class Module {
    const log: Log
    var entered: seq<Node>
    var v: Node?
    var started: bool
    var shown: bool
    var out: seq<Line>

    ghost predicate Matches(w: World)
      reads this, log, log.spine
    {
      && log.Valid() && log.rows == w.rows && log.freed == []
      && |entered| == w.hooks
      && (forall i :: 0 <= i < |entered| ==> entered[i] == log.root)
      && out == w.out
      && match w.phase
         case Idle => !started
         case About(i) => started && !shown && i < |log.spine| && v == log.spine[i]
         case Shown(i) => started && shown && i < |log.spine| && v == log.spine[i]
         case Done => started && v == null
    }

    constructor ()
      ensures Matches(Start) && fresh(log) && fresh(log.spine)
    {
      log := new Log();
      entered, v, started, shown, out := [], null, false, false, [];
    }

    /** The entry of `add_to_list_network`, before the lock. */
    method EnterHook(ghost w: World)
      requires Matches(w)
      modifies this`entered
      ensures Matches(After(w, HookEnters)) && entered == old(entered) + [log.root]
    {
      entered := entered + [log.root];
    }

    /** The rest of it, for the `k`-th hook in flight. */
    method AddPacket(k: nat, src: string, size: Int32, ghost w: World)
      requires Matches(w)
      modifies this`entered, log`tail, log`spine, log`live, log`rows, log.spine
      ensures Matches(After(w, HookAdds(k, src, size)))
      ensures forall i :: 0 <= i < |log.spine| ==> log.spine[i] in old(log.spine) || fresh(log.spine[i])
    {
      if k < |entered| {
        var start := entered[k];
        entered := entered[..k] + entered[k + 1..];
        log.AddLocked(start, src, size);
      }
    }

    method ClearAll(ghost w: World)
      requires Matches(w)
      modifies log`rows, log.spine
      ensures Matches(After(w, Clears)) && log.spine == old(log.spine)
    {
      log.ClearLocked();
    }

    /** The reader's next callback. */
    method MoveReader(ghost w: World)
      requires Matches(w)
      modifies this`v, this`started, this`shown, this`out
      ensures Matches(After(w, ReaderMoves))
    {
      if !started {
        v, started, shown := log.Start(), true, false;
      } else if v != null {
        if !shown {
          out, shown := out + [log.Show(v)], true;
        } else {
          v, shown := log.Next(v, w.phase.i), false;
        }
      }
    }

    method Do(step: Step, ghost w: World)
      requires Matches(w)
      modifies this, log`tail, log`spine, log`live, log`rows, log.spine
      ensures Matches(After(w, step))
      ensures forall i :: 0 <= i < |log.spine| ==> log.spine[i] in old(log.spine) || fresh(log.spine[i])
    {
      match step {
        case HookEnters => EnterHook(w);
        case HookAdds(k, src, size) => AddPacket(k, src, size, w);
        case Clears => ClearAll(w);
        case ReaderMoves => MoveReader(w);
      }
    }
  }

  /** Under any schedule the pointers do what the worlds above say. */
  method RunSchedule(steps: seq<Step>) returns (m: Module)
    ensures m.Matches(Exec(steps, |steps|))
    ensures |m.entered| + Packets(OpsOf(steps, |steps|)) == Enters(steps, |steps|)
    ensures Scheduled(steps, |steps|) ==> m.log.rows == Run(Sections(steps, |steps|))
    ensures fresh(m) && fresh(m.log)
  {
    m := new Module();
    for n := 0 to |steps|
      invariant m.Matches(Exec(steps, n))
      invariant fresh(m) && fresh(m.log)
      invariant forall i :: 0 <= i < |m.log.spine| ==> fresh(m.log.spine[i])
    {
      m.Do(steps[n], Exec(steps, n));
    }
    NothingLost(steps, |steps|);
    ListIsScheduled(steps, |steps|);
  }

  /** Unloading after any schedule: every node the run made is freed once, last to first, none is read
      after that, and none is left. */
  method RunThenCleanup(steps: seq<Step>) returns (m: Module)
    ensures Chain(m.log.spine) && |m.log.spine| == |Exec(steps, |steps|).rows|
    ensures m.log.freed == Reversed(m.log.spine) && m.log.live == {}
  {
    m := RunSchedule(steps);
    m.log.Cleanup();
  }
}
