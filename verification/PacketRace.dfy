/** Hooks running at once. `hook_func` passes its packet through the globals `sock_buff` and
    `ip_header`, so the source it prints and the length it books may be another hook's. The packets
    are still all counted; this says exactly when one is counted for the right source and length. */
module PacketRace {
  import opened Words
  import opened PacketTotals
  import opened PacketSums
  import opened AddressText

  datatype Skb = Skb(src: Addr, dataLen: UInt32)

  /** How far a hook has come: `of` is the packet whose source it has printed, `sized` the one whose
      length it has read. */
  datatype Stage = Called | HasBuffer | HasHeader | HasSource(of: nat) | HasLength(of: nat, sized: nat) | Finished

  datatype Step =
    | SetBuffer(h: nat)    // sock_buff = skb
    | SetHeader(h: nat)    // ip_header = skb_network_header(sock_buff)
    | PrintSource(h: nat)  // snprintf(source, 16, "%pI4", &ip_header->saddr)
    | ReadLength(h: nat)   // the argument sock_buff->data_len
    | Book(h: nat)         // add_to_list_network(source, that length)

  /** Whose packet `sock_buff` and `ip_header` point to, the hooks, and the locked sections so far. */
  datatype Race = Race(buffer: nat, header: nat, stages: seq<Stage>, ops: seq<Op>)

  /** Hook `h` was called with `skbs[h]`. */
  function Start(skbs: seq<Skb>): Race {
    Race(0, 0, seq(|skbs|, _ => Called), [])
  }

  predicate Enabled(r: Race, step: Step) {
    step.h < |r.stages| &&
    match step
    case SetBuffer(h) => r.stages[h] == Called
    case SetHeader(h) => r.stages[h] == HasBuffer
    case PrintSource(h) => r.stages[h] == HasHeader
    case ReadLength(h) => r.stages[h].HasSource?
    case Book(h) => r.stages[h].HasLength?
  }

  /** What a hook books that printed packet `a`'s source and reads packet `b`'s length. */
  function Booked(skbs: seq<Skb>, a: nat, b: nat): Op
    requires a < |skbs| && b < |skbs|
  {
    Packet(Text(skbs[a].src), Wrap32(skbs[b].dataLen))
  }

  ghost predicate Sane(skbs: seq<Skb>, r: Race) {
    && |r.stages| == |skbs|
    && (skbs != [] ==> r.buffer < |skbs| && r.header < |skbs|)
    && (forall h :: 0 <= h < |skbs| && r.stages[h].HasSource? ==> r.stages[h].of < |skbs|)
    && (forall h :: 0 <= h < |skbs| && r.stages[h].HasLength? ==>
          r.stages[h].of < |skbs| && r.stages[h].sized < |skbs|)
  }

  function Next(skbs: seq<Skb>, r: Race, step: Step): (t: Race)
    requires Sane(skbs, r) && Enabled(r, step)
    ensures Sane(skbs, t)
  {
    match step
    case SetBuffer(h) => r.(buffer := h, stages := r.stages[h := HasBuffer])
    case SetHeader(h) => r.(header := r.buffer, stages := r.stages[h := HasHeader])
    case PrintSource(h) => r.(stages := r.stages[h := HasSource(r.header)])
    case ReadLength(h) => r.(stages := r.stages[h := HasLength(r.stages[h].of, r.buffer)])
    case Book(h) =>
      r.(stages := r.stages[h := Finished],
      ops := r.ops + [Booked(skbs, r.stages[h].of, r.stages[h].sized)])
  }

  /** The race after the first `n` steps; a step that is not enabled does not happen. */
  function Exec(skbs: seq<Skb>, steps: seq<Step>, n: nat): (r: Race)
    requires n <= |steps|
    ensures Sane(skbs, r)
  {
    if n == 0 then Start(skbs)
    else
      var r := Exec(skbs, steps, n - 1);
      if Enabled(r, steps[n - 1]) then Next(skbs, r, steps[n - 1]) else r
  }

  predicate Possible(skbs: seq<Skb>, steps: seq<Step>, n: nat)
    requires n <= |steps|
  {
    n == 0 || (Possible(skbs, steps, n - 1) && Enabled(Exec(skbs, steps, n - 1), steps[n - 1]))
  }

  /** How many steps a hook has still to take. */
  function Left(stage: Stage): nat {
    match stage
    case Called => 5
    case HasBuffer => 4
    case HasHeader => 3
    case HasSource(_) => 2
    case HasLength(_, _) => 1
    case Finished => 0
  }

  /** A hook can always go on until it is finished, whatever the others do, and each step brings it one
      further and leaves the others where they are. */
  lemma HooksGoOn(skbs: seq<Skb>, r: Race, h: nat)
    requires Sane(skbs, r) && h < |skbs|
    ensures Left(r.stages[h]) > 0 <==> exists step: Step :: step.h == h && Enabled(r, step)
    ensures forall step :: Enabled(r, step) ==>
              Left(Next(skbs, r, step).stages[h]) == Left(r.stages[h]) - if step.h == h then 1 else 0
  {
    var step :=
      match r.stages[h]
      case Called => SetBuffer(h)
      case HasBuffer => SetHeader(h)
      case HasHeader => PrintSource(h)
      case HasSource(_) => ReadLength(h)
      case _ => Book(h);
    assert step.h == h && (Left(r.stages[h]) > 0 ==> Enabled(r, step));
  }

  // ---------------------------------------------------------------- nothing is lost

  function Finishes(stages: seq<Stage>): nat {
    if stages == [] then 0
    else Finishes(stages[1..]) + if stages[0].Finished? then 1 else 0
  }

  lemma {:induction false} FinishesUpdate(stages: seq<Stage>, h: nat, stage: Stage)
    requires h < |stages| && !stages[h].Finished?
    ensures Finishes(stages[h := stage]) == Finishes(stages) + if stage.Finished? then 1 else 0
  {
    if h == 0 {
      assert stages[h := stage][1..] == stages[1..];
    } else {
      FinishesUpdate(stages[1..], h - 1, stage);
      assert stages[h := stage][1..] == stages[1..][h - 1 := stage];
    }
  }

  lemma {:induction false} NoneFinished(n: nat)
    ensures Finishes(seq(n, _ => Called)) == 0
  {
    if n > 0 {
      NoneFinished(n - 1);
      assert seq(n, _ => Called)[1..] == seq(n - 1, _ => Called);
    }
  }

  /** However the hooks race, each that finishes has booked one packet. */
  lemma {:induction false} AllBooked(skbs: seq<Skb>, steps: seq<Step>, n: nat)
    requires n <= |steps|
    ensures |Exec(skbs, steps, n).ops| == Finishes(Exec(skbs, steps, n).stages)
  {
    if n == 0 {
      NoneFinished(|skbs|);
    } else {
      AllBooked(skbs, steps, n - 1);
      var r, step := Exec(skbs, steps, n - 1), steps[n - 1];
      if Enabled(r, step) {
        FinishesUpdate(r.stages, step.h, Next(skbs, r, step).stages[step.h]);
      }
    }
  }

  /** Each packet booked has the source of one of the packets and the length of one of them. */
  lemma {:induction false} BookedIsMixed(skbs: seq<Skb>, steps: seq<Step>, n: nat, i: nat) returns (a: nat, b: nat)
    requires n <= |steps| && i < |Exec(skbs, steps, n).ops|
    ensures a < |skbs| && b < |skbs| && Exec(skbs, steps, n).ops[i] == Booked(skbs, a, b)
  {
    var r := Exec(skbs, steps, n - 1);
    if i < |r.ops| {
      a, b := BookedIsMixed(skbs, steps, n - 1, i);
    } else {
      var stage := r.stages[steps[n - 1].h];
      a, b := stage.of, stage.sized;
    }
  }

  ghost predicate Proper(ops: seq<Op>) {
    forall i :: 0 <= i < |ops| ==> ops[i].Packet? && ops[i].src != ""
  }

  lemma {:induction false} VolumeIsAll(ops: seq<Op>, lo: nat, hi: nat)
    requires lo <= hi <= |ops|
    requires Proper(ops)
    ensures Volume(ops, lo, hi, One) == hi - lo
  {
    if lo < hi {
      VolumeIsAll(ops, lo, hi - 1);
    }
  }

  /** All that hooks book is packets with a proper source. */
  lemma AllProper(skbs: seq<Skb>, steps: seq<Step>, n: nat)
    requires n <= |steps|
    ensures Proper(Exec(skbs, steps, n).ops)
  {
    var ops := Exec(skbs, steps, n).ops;
    forall i | 0 <= i < |ops|
      ensures ops[i].Packet? && ops[i].src != ""
    {
      var a, b := BookedIsMixed(skbs, steps, n, i);
      TextFits(skbs[a].src);
    }
  }

  /** The counts shown after `ops` add up, modulo 2^32, to `n`. */
  ghost predicate ShownAddUpTo(ops: seq<Op>, n: nat) {
    |Run(ops)| > 0 && (SumPackets(Run(ops)[1..]) - n) % 0x1_0000_0000 == 0
  }

  lemma ProperAddUp(ops: seq<Op>)
    requires Proper(ops)
    ensures ShownAddUpTo(ops, |ops|)
  {
    ShownPacketsConserved(ops);
    VolumeIsAll(ops, ClearedAt(ops, |ops|), |ops|);
  }

  /** So however the hooks race, the counts shown add up to the hooks that have finished. */
  lemma RacingCountsConserved(skbs: seq<Skb>, steps: seq<Step>, n: nat)
    requires n <= |steps|
    ensures ShownAddUpTo(Exec(skbs, steps, n).ops, Finishes(Exec(skbs, steps, n).stages))
  {
    AllProper(skbs, steps, n);
    ProperAddUp(Exec(skbs, steps, n).ops);
    AllBooked(skbs, steps, n);
  }

  // ---------------------------------------------------------------- who is charged for what

  /** The hook that last set `sock_buff`. */
  function LastBuffer(steps: seq<Step>, n: nat): nat
    requires n <= |steps|
  {
    if n == 0 then 0 else if steps[n - 1].SetBuffer? then steps[n - 1].h else LastBuffer(steps, n - 1)
  }

  /** The hook whose packet `sock_buff` was when `ip_header` was last set. */
  function LastHeader(steps: seq<Step>, n: nat): nat
    requires n <= |steps|
  {
    if n == 0 then 0 else if steps[n - 1].SetHeader? then LastBuffer(steps, n - 1) else LastHeader(steps, n - 1)
  }

  lemma {:induction false} GlobalsAre(skbs: seq<Skb>, steps: seq<Step>, n: nat)
    requires n <= |steps| && Possible(skbs, steps, n)
    ensures Exec(skbs, steps, n).buffer == LastBuffer(steps, n)
    ensures Exec(skbs, steps, n).header == LastHeader(steps, n)
  {
    if n > 0 {
      GlobalsAre(skbs, steps, n - 1);
    }
  }

  /** Where a hook printed its source, and that it has the one `ip_header` showed then. */
  lemma {:induction false} PrintedAt(skbs: seq<Skb>, steps: seq<Step>, n: nat, h: nat) returns (p: nat)
    requires n <= |steps| && Possible(skbs, steps, n)
    requires h < |skbs| && Exec(skbs, steps, n).stages[h].HasSource?
    ensures p < n && steps[p] == PrintSource(h)
    ensures Exec(skbs, steps, n).stages[h].of == LastHeader(steps, p)
  {
    if steps[n - 1].h == h {
      p := n - 1;
      GlobalsAre(skbs, steps, p);
    } else {
      p := PrintedAt(skbs, steps, n - 1, h);
    }
  }

  /** Where a hook printed its source and read its length, and whose they are. */
  lemma {:induction false} ReadAt(skbs: seq<Skb>, steps: seq<Step>, n: nat, h: nat) returns (p: nat, q: nat)
    requires n <= |steps| && Possible(skbs, steps, n)
    requires h < |skbs| && Exec(skbs, steps, n).stages[h].HasLength?
    ensures p < q < n && steps[p] == PrintSource(h) && steps[q] == ReadLength(h)
    ensures Exec(skbs, steps, n).stages[h] == HasLength(LastHeader(steps, p), LastBuffer(steps, q))
  {
    if steps[n - 1].h == h {
      q := n - 1;
      p := PrintedAt(skbs, steps, q, h);
      GlobalsAre(skbs, steps, q);
    } else {
      p, q := ReadAt(skbs, steps, n - 1, h);
    }
  }

  /** A hook is charged rightly, with its own packet's source and length, if and only if `ip_header`
      was at a header with that source when it printed, and `sock_buff` at a packet with that length
      when it read it. */
  lemma BooksRightIff(skbs: seq<Skb>, steps: seq<Step>, n: nat, h: nat) returns (p: nat, q: nat)
    requires n < |steps| && Possible(skbs, steps, n + 1) && steps[n] == Book(h)
    ensures h < |skbs| && p < q < n && steps[p] == PrintSource(h) && steps[q] == ReadLength(h)
    ensures LastHeader(steps, p) < |skbs| && LastBuffer(steps, q) < |skbs|
    ensures Exec(skbs, steps, n + 1).ops
         == Exec(skbs, steps, n).ops + [Booked(skbs, LastHeader(steps, p), LastBuffer(steps, q))]
    ensures Booked(skbs, LastHeader(steps, p), LastBuffer(steps, q)) == Booked(skbs, h, h) <==>
              && skbs[LastHeader(steps, p)].src == skbs[h].src
              && skbs[LastBuffer(steps, q)].dataLen == skbs[h].dataLen
  {
    p, q := ReadAt(skbs, steps, n, h);
    TextInjective(skbs[LastHeader(steps, p)].src, skbs[h].src);
    Wrap32Same(skbs[LastBuffer(steps, q)].dataLen, skbs[h].dataLen);
  }

  /** No hook sets `sock_buff` from step `lo` up to step `hi`. */
  ghost predicate NoSetBuffer(steps: seq<Step>, lo: nat, hi: nat)
    requires hi <= |steps|
  {
    forall i :: lo <= i < hi ==> !steps[i].SetBuffer?
  }

  lemma {:induction false} OwnGlobals(skbs: seq<Skb>, steps: seq<Step>, b: nat, n: nat, h: nat)
    requires b < n <= |steps| && Possible(skbs, steps, n)
    requires steps[b] == SetBuffer(h) && NoSetBuffer(steps, b + 1, n)
    ensures h < |skbs|
    ensures var r := Exec(skbs, steps, n);
            && r.buffer == h
            && r.stages[h] != Called
            && (r.stages[h] == HasHeader ==> r.header == h)
            && (r.stages[h].HasSource? ==> r.stages[h].of == h)
            && (r.stages[h].HasLength? ==> r.stages[h].of == r.stages[h].sized == h)
  {
    if b + 1 < n {
      OwnGlobals(skbs, steps, b, n - 1, h);
      assert !steps[n - 1].SetBuffer?;
    }
  }

  /** A hook is charged rightly, whatever else the others do, when none of them sets `sock_buff`
      between its own setting it and its booking. */
  lemma UndisturbedBooksRight(skbs: seq<Skb>, steps: seq<Step>, b: nat, n: nat, h: nat)
    requires b < n < |steps| && Possible(skbs, steps, n + 1)
    requires steps[b] == SetBuffer(h) && NoSetBuffer(steps, b + 1, n) && steps[n] == Book(h)
    ensures h < |skbs|
    ensures Exec(skbs, steps, n + 1).ops
         == Exec(skbs, steps, n).ops + [Packet(Text(skbs[h].src), Wrap32(skbs[h].dataLen))]
  {
    OwnGlobals(skbs, steps, b, n, h);
  }

  /** Two hooks at once: the first books the second's source and length. */
  lemma MixedExample(x: Skb, y: Skb, steps: seq<Step>)
    requires steps == [SetBuffer(0), SetBuffer(1), SetHeader(0), PrintSource(0), ReadLength(0), Book(0)]
    ensures Possible([x, y], steps, 6)
    ensures Exec([x, y], steps, 6).ops == [Packet(Text(y.src), Wrap32(y.dataLen))]
  {
    var skbs := [x, y];
    assert Exec(skbs, steps, 1) == Race(0, 0, [HasBuffer, Called], []);
    assert Possible(skbs, steps, 1);
    assert Exec(skbs, steps, 2) == Race(1, 0, [HasBuffer, HasBuffer], []);
    assert Exec(skbs, steps, 3) == Race(1, 1, [HasHeader, HasBuffer], []);
    assert Possible(skbs, steps, 3);
    assert Possible(skbs, steps, 4);
    assert Exec(skbs, steps, 4) == Race(1, 1, [HasSource(1), HasBuffer], []);
    assert Possible(skbs, steps, 5);
    assert Exec(skbs, steps, 5) == Race(1, 1, [HasLength(1, 1), HasBuffer], []);
  }
}
