/** Conservation: what the lines shown by /proc/net_proc add up to. */
module PacketSums {
  import opened Words
  import opened PacketTotals

  /** One line of output: `my_show` prints the address, the count and whole kilobytes. */
  datatype Line = Line(addr: string, packets: int, kilobytes: int)

  /** C division by a positive constant, which truncates toward zero. */
  function Truncated(x: int, d: nat): int
    requires d > 0
  {
    if x >= 0 then x / d else -((-x) / d)
  }

  /** The quotient nearest to the true one on the side of zero. */
  lemma TruncatedMeaning(x: int, d: nat)
    requires d > 0
    ensures x >= 0 ==> 0 <= x - d * Truncated(x, d) < d
    ensures x <= 0 ==> 0 <= d * Truncated(x, d) - x < d
  {
  }

  function LineOf(r: Row): Line {
    Line(r.addr, r.count, Truncated(r.bytes, 1024))
  }

  function SumPackets(rows: seq<Row>): int {
    if rows == [] then 0 else SumPackets(rows[1..]) + LineOf(rows[0]).packets
  }

  function SumKilobytes(rows: seq<Row>): int {
    if rows == [] then 0 else SumKilobytes(rows[1..]) + LineOf(rows[0]).kilobytes
  }

  /** What all packets with a proper source in `ops[lo..hi]` weigh together, whoever sent them. */
  function Volume(ops: seq<Op>, lo: nat, hi: nat, w: Int32 -> int): int
    requires lo <= hi <= |ops|
  {
    if lo == hi then 0
    else
      var op := ops[hi - 1];
      Volume(ops, lo, hi - 1, w) + if op.Packet? && op.src != "" then w(op.size) else 0
  }

  function VolumeSinceClear(ops: seq<Op>, w: Int32 -> int): int {
    Volume(ops, ClearedAt(ops, |ops|), |ops|, w)
  }

  /** The same, added up source by source. */
  function TotalOver(a: seq<string>, ops: seq<Op>, lo: nat, hi: nat, w: Int32 -> int): int
    requires lo <= hi <= |ops|
  {
    if a == [] then 0 else TotalOver(a[1..], ops, lo, hi, w) + Tally(ops, lo, hi, a[0], w)
  }

  lemma {:induction false} TotalOverStep(a: seq<string>, ops: seq<Op>, lo: nat, hi: nat, w: Int32 -> int)
    requires Distinct(a) && lo < hi <= |ops|
    ensures TotalOver(a, ops, lo, hi, w)
         == TotalOver(a, ops, lo, hi - 1, w)
          + if ops[hi - 1].Packet? && ops[hi - 1].src in a then w(ops[hi - 1].size) else 0
  {
    if a != [] {
      assert a == [a[0]] + a[1..];
      assert a[0] !in a[1..];
      TotalOverStep(a[1..], ops, lo, hi, w);
    }
  }

  lemma {:induction false} TotalOverNothing(a: seq<string>, ops: seq<Op>, lo: nat, w: Int32 -> int)
    requires lo <= |ops|
    ensures TotalOver(a, ops, lo, lo, w) == 0
  {
    if a != [] {
      TotalOverNothing(a[1..], ops, lo, w);
    }
  }

  /** Adding up by source and adding up by packet agree. */
  lemma {:induction false} Partition(a: seq<string>, ops: seq<Op>, lo: nat, hi: nat, w: Int32 -> int)
    requires Distinct(a) && lo <= hi <= |ops|
    requires forall i :: 0 <= i < |ops| && ops[i].Packet? ==> (ops[i].src in a <==> ops[i].src != "")
    ensures TotalOver(a, ops, lo, hi, w) == Volume(ops, lo, hi, w)
  {
    if lo == hi {
      TotalOverNothing(a, ops, lo, w);
    } else {
      Partition(a, ops, lo, hi - 1, w);
      TotalOverStep(a, ops, lo, hi, w);
    }
  }

  /** What a list of rows should add up to. */
  function Expected(ops: seq<Op>, rows: seq<Row>, w: Int32 -> int): int {
    if rows == [] then 0 else Expected(ops, rows[1..], w) + SinceClear(ops, rows[0].addr, w)
  }

  lemma {:induction false} ExpectedIsTotal(ops: seq<Op>, rows: seq<Row>, w: Int32 -> int)
    ensures Expected(ops, rows, w) == TotalOver(Addrs(rows), ops, ClearedAt(ops, |ops|), |ops|, w)
  {
    if rows != [] {
      ExpectedIsTotal(ops, rows[1..], w);
      assert Addrs(rows)[1..] == Addrs(rows[1..]);
    }
  }

  /** The shown rows are those of the sources seen, each with its totals, and no source is missing. */
  lemma ShownRows(ops: seq<Op>)
    ensures |Run(ops)| > 0
    ensures RightTotals(ops, Run(ops)[1..])
    ensures Distinct(Addrs(Run(ops)[1..]))
    ensures forall i :: 0 <= i < |Run(ops)[1..]| ==> Seen(ops, Run(ops)[1..][i].addr)
    ensures forall i :: 0 <= i < |ops| && ops[i].Packet? ==>
              (ops[i].src in Addrs(Run(ops)[1..]) <==> ops[i].src != "")
  {
    RunIsFaithful(ops);
    var all, a := Addrs(Run(ops)), Addrs(Run(ops)[1..]);
    assert a == all[1..];
    forall i | 0 <= i < |Run(ops)[1..]|
      ensures Seen(ops, Run(ops)[1..][i].addr)
    {
      assert Seen(ops, all[i + 1]);
    }
    forall i | 0 <= i < |ops| && ops[i].Packet?
      ensures ops[i].src in a <==> ops[i].src != ""
    {
      assert From(ops[i], ops[i].src);
      assert Seen(ops, ops[i].src) && ops[i].src in all;
    }
  }

  /** The shown rows partition the traffic since the last clear. */
  lemma ShownPartition(ops: seq<Op>, w: Int32 -> int)
    ensures |Run(ops)| > 0
    ensures Expected(ops, Run(ops)[1..], w) == VolumeSinceClear(ops, w)
  {
    ShownRows(ops);
    ExpectedIsTotal(ops, Run(ops)[1..], w);
    Partition(Addrs(Run(ops)[1..]), ops, ClearedAt(ops, |ops|), |ops|, w);
  }

  lemma {:induction false} PacketsModulo(ops: seq<Op>, rows: seq<Row>)
    requires RightTotals(ops, rows)
    ensures (SumPackets(rows) - Expected(ops, rows, One)) % 0x1_0000_0000 == 0
  {
    if rows != [] {
      PacketsModulo(ops, rows[1..]);
      assert RightRow(ops, rows[0]);
    }
  }

  lemma {:induction false} TallyOneNonNegative(ops: seq<Op>, lo: nat, hi: nat, s: string)
    requires lo <= hi <= |ops|
    ensures Tally(ops, lo, hi, s, One) >= 0
  {
    if lo < hi {
      TallyOneNonNegative(ops, lo, hi - 1, s);
    }
  }

  /** A counter shows at most the true count, and that exactly until it reaches 2^31. */
  lemma ShownCount(x: nat)
    ensures Wrap32(x) <= x && (Wrap32(x) == x <==> x < 0x8000_0000)
  {
  }

  lemma {:induction false} PacketsExactIff(ops: seq<Op>, rows: seq<Row>)
    requires RightTotals(ops, rows)
    ensures SumPackets(rows) <= Expected(ops, rows, One)
    ensures SumPackets(rows) == Expected(ops, rows, One) <==>
              forall i :: 0 <= i < |rows| ==> SinceClear(ops, rows[i].addr, One) < 0x8000_0000
  {
    if rows != [] {
      PacketsExactIff(ops, rows[1..]);
      assert RightRow(ops, rows[0]);
      TallyOneNonNegative(ops, ClearedAt(ops, |ops|), |ops|, rows[0].addr);
      ShownCount(SinceClear(ops, rows[0].addr, One));
      assert forall i :: 1 <= i < |rows| ==> rows[i] == rows[1..][i - 1];
    }
  }

  lemma RowKilobytes(ops: seq<Op>, r: Row)
    requires RightRow(ops, r) && 0 <= SinceClear(ops, r.addr, Size) < 0x8000_0000_0000_0000
    ensures 0 <= SinceClear(ops, r.addr, Size) - 1024 * LineOf(r).kilobytes <= 1023
  {
  }

  lemma {:induction false} KilobytesBound(ops: seq<Op>, rows: seq<Row>)
    requires RightTotals(ops, rows)
    requires forall i :: 0 <= i < |rows| ==> 0 <= SinceClear(ops, rows[i].addr, Size) < 0x8000_0000_0000_0000
    ensures 0 <= Expected(ops, rows, Size) - 1024 * SumKilobytes(rows) <= 1023 * |rows|
  {
    if rows != [] {
      KilobytesBound(ops, rows[1..]);
      RowKilobytes(ops, rows[0]);
    }
  }

  /** In every run the shown counts add up, in 32 bits, to the packets since the last clear. */
  lemma ShownPacketsConserved(ops: seq<Op>)
    ensures |Run(ops)| > 0
    ensures (SumPackets(Run(ops)[1..]) - VolumeSinceClear(ops, One)) % 0x1_0000_0000 == 0
  {
    ShownRows(ops);
    ShownPartition(ops, One);
    PacketsModulo(ops, Run(ops)[1..]);
  }

  /** They add up exactly if and only if no proper source has sent 2^31 packets since the last clear. */
  lemma ShownPacketsExactIff(ops: seq<Op>)
    ensures |Run(ops)| > 0
    ensures SumPackets(Run(ops)[1..]) == VolumeSinceClear(ops, One) <==>
              forall s :: Seen(ops, s) && s != "" ==> SinceClear(ops, s, One) < 0x8000_0000
  {
    ShownRows(ops);
    ShownPartition(ops, One);
    var shown := Run(ops)[1..];
    PacketsExactIff(ops, shown);
    if forall i :: 0 <= i < |shown| ==> SinceClear(ops, shown[i].addr, One) < 0x8000_0000 {
      forall s | Seen(ops, s) && s != ""
        ensures SinceClear(ops, s, One) < 0x8000_0000
      {
        SeenIsShown(ops, s);
      }
    } else {
      var i :| 0 <= i < |shown| && SinceClear(ops, shown[i].addr, One) >= 0x8000_0000;
      ShownIsProper(ops, i);
    }
  }

  lemma SeenIsShown(ops: seq<Op>, s: string)
    requires Seen(ops, s) && s != ""
    ensures |Run(ops)| > 0
    ensures exists i :: 0 <= i < |Run(ops)[1..]| && Run(ops)[1..][i].addr == s
  {
    SeenHasRow(ops, s);
    var k := Find(Run(ops), s);
    assert Run(ops)[1..][k - 1] == Run(ops)[k];
  }

  lemma ShownIsProper(ops: seq<Op>, i: nat)
    requires |Run(ops)| > 0 && i < |Run(ops)[1..]|
    ensures Seen(ops, Run(ops)[1..][i].addr) && Run(ops)[1..][i].addr != ""
  {
    RunIsFaithful(ops);
    var a := Addrs(Run(ops));
    assert Seen(ops, a[i + 1]) && a[i + 1] != a[0];
  }

  /** Rounding down loses less than a kilobyte a line and never invents traffic. */
  lemma ShownKilobytesBound(ops: seq<Op>)
    requires forall s :: Seen(ops, s) ==> 0 <= SinceClear(ops, s, Size) < 0x8000_0000_0000_0000
    ensures |Run(ops)| > 0
    ensures 0 <= VolumeSinceClear(ops, Size) - 1024 * SumKilobytes(Run(ops)[1..])
              <= 1023 * (|Run(ops)| - 1)
  {
    ShownRows(ops);
    ShownPartition(ops, Size);
    KilobytesBound(ops, Run(ops)[1..]);
  }
}
