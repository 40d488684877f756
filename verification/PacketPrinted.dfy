/** What a whole walk prints, with packets arriving while it goes on: the printed counts add up to
    something between the packets there were when it began and when it ended. */
module PacketPrinted {
  import opened Words
  import opened PacketTotals
  import opened PacketSums
  import opened PacketWalk

  function SumLines(out: seq<Line>): int {
    if out == [] then 0 else SumLines(out[1..]) + out[0].packets
  }

  ghost predicate NoClear(steps: seq<Step>, m: nat, n: nat)
    requires n <= |steps|
  {
    forall i :: m <= i < n ==> !steps[i].Clears?
  }

  lemma {:induction false} OpsGrow(steps: seq<Step>, m: nat, n: nat)
    requires m <= n <= |steps|
    ensures OpsOf(steps, m) <= OpsOf(steps, n)
  {
    if m < n {
      OpsGrow(steps, m, n - 1);
    }
  }

  /** Without a clear, a source's packets only become more. */
  lemma {:induction false} CountGrows(steps: seq<Step>, m: nat, n: nat, s: string)
    requires m <= n <= |steps| && NoClear(steps, m, n)
    ensures SinceClear(OpsOf(steps, m), s, One) <= SinceClear(OpsOf(steps, n), s, One)
  {
    if m < n {
      CountGrows(steps, m, n - 1, s);
      match steps[n - 1] {
        case HookAdds(k, src, size) => SinceClearSnoc(OpsOf(steps, n - 1), Packet(src, size), s, One);
        case _ =>
      }
    }
  }

  /** A source's packets since the last clear of `ops`. */
  function Count(ops: seq<Op>, s: string): int {
    SinceClear(ops, s, One)
  }

  /** The sum of such counts over a list of sources. */
  function CountOver(ops: seq<Op>, a: seq<string>): int {
    TotalOver(a, ops, ClearedAt(ops, |ops|), |ops|, One)
  }

  lemma {:induction false} SumBetween(out: seq<Line>, before: seq<Op>, after: seq<Op>)
    requires forall j :: 0 <= j < |out| ==> Count(before, out[j].addr) <= out[j].packets <= Count(after, out[j].addr)
    ensures CountOver(before, OutAddrs(out)) <= SumLines(out) <= CountOver(after, OutAddrs(out))
  {
    if out != [] {
      SumBetween(out[1..], before, after);
      assert OutAddrs(out)[1..] == OutAddrs(out[1..]);
    }
  }

  /** Line `j` shows a count between those at the start and the end. */
  lemma LineBetween(steps: seq<Step>, s: nat, e: nat, j: nat)
    requires s < e <= |steps| && NoClear(steps, s, e)
    requires Exec(steps, s).phase.Idle? && j < |Exec(steps, e).out|
    requires Count(OpsOf(steps, e), Exec(steps, e).out[j].addr) < 0x8000_0000
    ensures var line := Exec(steps, e).out[j];
            Count(OpsOf(steps, s), line.addr) <= line.packets <= Count(OpsOf(steps, e), line.addr)
  {
    var line := Exec(steps, e).out[j];
    var k := LineIsSnapshot(steps, e, j);
    NotBegun(steps, s, k);
    CountGrows(steps, s, k, line.addr);
    CountGrows(steps, k, e, line.addr);
    var ops := OpsOf(steps, k);
    TallyOneNonNegative(ops, ClearedAt(ops, |ops|), |ops|, line.addr);
    ShownCount(Count(ops, line.addr));
  }

  /** All proper sources of an earlier history are among those shown for a later one. */
  lemma VolumeOver(before: seq<Op>, after: seq<Op>)
    requires before <= after && |Run(after)| > 0
    ensures CountOver(before, Addrs(Run(after)[1..])) == VolumeSinceClear(before, One)
  {
    ShownRows(after);
    var a := Addrs(Run(after)[1..]);
    forall i | 0 <= i < |before| && before[i].Packet?
      ensures before[i].src in a <==> before[i].src != ""
    {
      assert before[i] == after[i];
    }
    Partition(a, before, ClearedAt(before, |before|), |before|, One);
  }

  /** A finished walk during which nothing was cleared and no counter wrapped prints counts that sum to
      at least the packets since the last clear when it began, and at most those when it met NULL. */
  lemma PrintedSum(steps: seq<Step>, s: nat, n: nat) returns (e: nat)
    requires s < n <= |steps| && NoClear(steps, s, n)
    requires Exec(steps, s).phase.Idle? && steps[s].ReaderMoves? && Exec(steps, n).phase.Done?
    requires forall src :: Seen(OpsOf(steps, n), src) ==> Count(OpsOf(steps, n), src) < 0x8000_0000
    ensures s < e <= n
    ensures VolumeSinceClear(OpsOf(steps, s), One) <= SumLines(Exec(steps, n).out)
              <= VolumeSinceClear(OpsOf(steps, e), One)
  {
    e := WalkEnd(steps, n);
    NotBegun(steps, s, e);
    var before, after, out := OpsOf(steps, s), OpsOf(steps, e), Exec(steps, e).out;
    OpsGrow(steps, s, e);
    forall j | 0 <= j < |out|
      ensures Count(before, out[j].addr) <= out[j].packets <= Count(after, out[j].addr)
    {
      CountIsSmall(steps, e, n, out[j].addr);
      LineBetween(steps, s, e, j);
    }
    SumBetween(out, before, after);
    ShownAtEnd(steps, e);
    VolumeOver(before, after);
    VolumeOver(after, after);
  }

  lemma CountIsSmall(steps: seq<Step>, e: nat, n: nat, src: string)
    requires e <= n <= |steps| && NoClear(steps, e, n)
    requires forall t :: Seen(OpsOf(steps, n), t) ==> Count(OpsOf(steps, n), t) < 0x8000_0000
    ensures Count(OpsOf(steps, e), src) < 0x8000_0000
  {
    CountGrows(steps, e, n, src);
    if !Seen(OpsOf(steps, n), src) {
      UnseenSinceClear(OpsOf(steps, n), src, One);
    }
  }

  /** At its end a walk has shown all there is. */
  lemma ShownAtEnd(steps: seq<Step>, e: nat)
    requires e <= |steps| && |Exec(steps, e).out| + 1 == |Exec(steps, e).rows|
    ensures |Run(OpsOf(steps, e))| > 0
    ensures OutAddrs(Exec(steps, e).out) == Addrs(Run(OpsOf(steps, e))[1..])
  {
    AlwaysOnTrack(steps, e);
    ListIsRun(steps, e);
  }
}
