/** What the per-source packet list of network_procfs.c is for, without pointers.

    `Run` is the list's contents as the code computes them, one operation at a time. `Faithful` says
    what they should be in terms of the whole history of operations, and `RunIsFaithful` and
    `FaithfulIsUnique` together say that the one is exactly the other. */
module PacketTotals {
  import opened Words

  /** One `struct network_list`, without its link. Row 0 is the sentinel `root`. */
  datatype Row = Row(addr: string, count: int, bytes: int)

  /** One `spin_lock`..`spin_unlock` section. */
  datatype Op = Packet(src: string, size: Int32) | Clear

  // ---------------------------------------------------------------- the code's view

  function Bumped(r: Row, size: Int32): Row {
    Row(r.addr, Wrap32(r.count + 1), Wrap64(r.bytes + size))
  }

  /** The first row for an address, or the number of rows. */
  function Find(rows: seq<Row>, addr: string): (i: nat)
    ensures i <= |rows|
    ensures i < |rows| ==> rows[i].addr == addr
    ensures forall j :: 0 <= j < i ==> rows[j].addr != addr
  {
    if rows == [] || rows[0].addr == addr then 0 else 1 + Find(rows[1..], addr)
  }

  function Record(rows: seq<Row>, src: string, size: Int32): seq<Row> {
    var i := Find(rows, src);
    if i < |rows| then rows[i := Bumped(rows[i], size)] else rows + [Row(src, 1, size)]
  }

  function Cleared(rows: seq<Row>): seq<Row> {
    seq(|rows|, i requires 0 <= i < |rows| => Row(rows[i].addr, 0, 0))
  }

  function Apply(rows: seq<Row>, op: Op): seq<Row> {
    match op
    case Packet(src, size) => Record(rows, src, size)
    case Clear => Cleared(rows)
  }

  const Initial: seq<Row> := [Row("", 0, 0)]

  function Run(ops: seq<Op>): seq<Row> {
    if ops == [] then Initial else Apply(Run(ops[..|ops| - 1]), ops[|ops| - 1])
  }

  function Addrs(rows: seq<Row>): (a: seq<string>)
    ensures |a| == |rows|
  {
    seq(|rows|, i requires 0 <= i < |rows| => rows[i].addr)
  }

  // ---------------------------------------------------------------- the history's view

  predicate From(op: Op, s: string) {
    op.Packet? && op.src == s
  }

  predicate Seen(ops: seq<Op>, s: string) {
    exists i :: 0 <= i < |ops| && From(ops[i], s)
  }

  /** Source `s` was seen before `t` ever was. */
  predicate Earlier(ops: seq<Op>, s: string, t: string) {
    exists p :: 0 <= p < |ops| && From(ops[p], s) && !Seen(ops[..p + 1], t)
  }

  /** Just after the last clear among the first `n` operations, or 0. */
  function ClearedAt(ops: seq<Op>, n: nat): (k: nat)
    requires n <= |ops|
    ensures k <= n
    ensures forall i :: k <= i < n ==> ops[i].Packet?
    ensures k > 0 ==> ops[k - 1].Clear?
  {
    if n == 0 || ops[n - 1].Clear? then n else ClearedAt(ops, n - 1)
  }

  /** The packets (weight `One`) or bytes (weight `Size`) of one source in `ops[lo..hi]`. */
  function Tally(ops: seq<Op>, lo: nat, hi: nat, s: string, w: Int32 -> int): int
    requires lo <= hi <= |ops|
  {
    if lo == hi then 0
    else Tally(ops, lo, hi - 1, s, w) + if From(ops[hi - 1], s) then w(ops[hi - 1].size) else 0
  }

  function One(size: Int32): int { 1 }

  function Size(size: Int32): int { size }

  /** What a source sent since the last clear. */
  function SinceClear(ops: seq<Op>, s: string, w: Int32 -> int): int {
    Tally(ops, ClearedAt(ops, |ops|), |ops|, s, w)
  }

  ghost predicate Distinct(a: seq<string>) {
    forall i, j :: 0 <= i < j < |a| ==> a[i] != a[j]
  }

  /** Row 0 is the sentinel; after it comes each other source seen so far, once, oldest first. */
  ghost predicate RightSources(ops: seq<Op>, a: seq<string>) {
    && |a| > 0 && a[0] == ""
    && Distinct(a)
    && (forall i {:trigger Seen(ops, a[i])} :: 0 < i < |a| ==> Seen(ops, a[i]))
    && (forall s {:trigger Seen(ops, s)} :: Seen(ops, s) ==> s in a)
    && (forall i, j {:trigger Earlier(ops, a[i], a[j])} :: 0 < i < j < |a| ==> Earlier(ops, a[i], a[j]))
  }

  /** A row says what the history says about its address. */
  ghost predicate RightRow(ops: seq<Op>, r: Row) {
    && r.count == Wrap32(SinceClear(ops, r.addr, One))
    && r.bytes == Wrap64(SinceClear(ops, r.addr, Size))
  }

  ghost predicate RightTotals(ops: seq<Op>, rows: seq<Row>) {
    forall i {:trigger RightRow(ops, rows[i])} :: 0 <= i < |rows| ==> RightRow(ops, rows[i])
  }

  ghost predicate Faithful(ops: seq<Op>, rows: seq<Row>) {
    RightSources(ops, Addrs(rows)) && RightTotals(ops, rows)
  }

  // ---------------------------------------------------------------- the two agree

  lemma SeenSnoc(ops: seq<Op>, op: Op, s: string)
    ensures Seen(ops + [op], s) <==> Seen(ops, s) || From(op, s)
  {
    var all := ops + [op];
    assert all[|ops|] == op;
    if Seen(ops, s) {
      var i :| 0 <= i < |ops| && From(ops[i], s);
      assert all[i] == ops[i];
    }
  }

  lemma SeenEarlier(ops: seq<Op>, s: string, t: string)
    requires Seen(ops, s) && !Seen(ops, t)
    ensures Earlier(ops, s, t)
  {
    var p :| 0 <= p < |ops| && From(ops[p], s);
    assert forall i :: 0 <= i <= p ==> ops[..p + 1][i] == ops[i];
  }

  lemma EarlierSnoc(ops: seq<Op>, op: Op, s: string, t: string)
    requires Earlier(ops, s, t)
    ensures Earlier(ops + [op], s, t)
  {
    var all := ops + [op];
    var p :| 0 <= p < |ops| && From(ops[p], s) && !Seen(ops[..p + 1], t);
    assert all[p] == ops[p] && all[..p + 1] == ops[..p + 1];
  }

  lemma EarlierAsymmetric(ops: seq<Op>, s: string, t: string)
    requires Earlier(ops, s, t)
    ensures !Earlier(ops, t, s)
  {
    var p :| 0 <= p < |ops| && From(ops[p], s) && !Seen(ops[..p + 1], t);
    forall q | 0 <= q <= p
      ensures !From(ops[q], t)
    {
      assert ops[..p + 1][q] == ops[q];
    }
    forall q | p <= q < |ops| && From(ops[q], t)
      ensures Seen(ops[..q + 1], s)
    {
      assert ops[..q + 1][p] == ops[p];
    }
  }

  lemma ClearedAtSnoc(ops: seq<Op>, op: Op)
    ensures ClearedAt(ops + [op], |ops| + 1) == if op.Clear? then |ops| + 1 else ClearedAt(ops, |ops|)
  {
    var all := ops + [op];
    var j, k := ClearedAt(ops, |ops|), ClearedAt(all, |all|);
    assert all[|ops|] == op;
    assert forall i :: 0 <= i < |ops| ==> all[i] == ops[i];
  }

  lemma {:induction false} TallyPrefix(ops: seq<Op>, op: Op, lo: nat, hi: nat, s: string, w: Int32 -> int)
    requires lo <= hi <= |ops|
    ensures Tally(ops + [op], lo, hi, s, w) == Tally(ops, lo, hi, s, w)
  {
    if lo < hi {
      TallyPrefix(ops, op, lo, hi - 1, s, w);
      assert (ops + [op])[hi - 1] == ops[hi - 1];
    }
  }

  /** A source's total after one more operation. */
  lemma SinceClearSnoc(ops: seq<Op>, op: Op, s: string, w: Int32 -> int)
    ensures SinceClear(ops + [op], s, w)
         == if op.Clear? then 0 else SinceClear(ops, s, w) + if From(op, s) then w(op.size) else 0
  {
    ClearedAtSnoc(ops, op);
    if op.Packet? {
      TallyPrefix(ops, op, ClearedAt(ops, |ops|), |ops|, s, w);
    }
  }

  lemma {:induction false} UnseenTally(ops: seq<Op>, lo: nat, hi: nat, s: string, w: Int32 -> int)
    requires lo <= hi <= |ops| && !Seen(ops, s)
    ensures Tally(ops, lo, hi, s, w) == 0
  {
    if lo < hi {
      UnseenTally(ops, lo, hi - 1, s, w);
      assert !From(ops[hi - 1], s);
    }
  }

  lemma UnseenSinceClear(ops: seq<Op>, s: string, w: Int32 -> int)
    requires !Seen(ops, s)
    ensures SinceClear(ops, s, w) == 0
  {
    UnseenTally(ops, ClearedAt(ops, |ops|), |ops|, s, w);
  }

  /** A packet from a known source, or a clear, changes no address. */
  lemma SourcesKept(ops: seq<Op>, op: Op, a: seq<string>)
    requires RightSources(ops, a)
    requires op.Packet? ==> op.src in a
    ensures RightSources(ops + [op], a)
  {
    forall s {
      SeenSnoc(ops, op, s);
    }
    forall i, j | 0 < i < j < |a|
      ensures Earlier(ops + [op], a[i], a[j])
    {
      EarlierSnoc(ops, op, a[i], a[j]);
    }
  }

  /** A packet from a new source puts that source last. */
  lemma SourcesGrow(ops: seq<Op>, op: Op, a: seq<string>)
    requires RightSources(ops, a)
    requires op.Packet? && op.src !in a
    ensures RightSources(ops + [op], a + [op.src])
  {
    var b := a + [op.src];
    forall s {
      SeenSnoc(ops, op, s);
    }
    assert forall s :: s in a ==> s in b;
    assert op.src == b[|a|];
    forall i, j | 0 < i < j < |b|
      ensures Earlier(ops + [op], b[i], b[j])
    {
      if j == |a| {
        SeenEarlier(ops, b[i], op.src);
      }
      EarlierSnoc(ops, op, b[i], b[j]);
    }
  }

  lemma SourcesStep(ops: seq<Op>, op: Op, rows: seq<Row>)
    requires RightSources(ops, Addrs(rows))
    ensures RightSources(ops + [op], Addrs(Apply(rows, op)))
  {
    var a, b := Addrs(rows), Addrs(Apply(rows, op));
    if op.Packet? && Find(rows, op.src) == |rows| {
      assert b == a + [op.src];
      SourcesGrow(ops, op, a);
    } else {
      assert b == a;
      if op.Packet? {
        assert a[Find(rows, op.src)] == op.src;
      }
      SourcesKept(ops, op, a);
    }
  }

  /** With distinct addresses, the first match is the only match. */
  lemma FindOnly(rows: seq<Row>, i: nat)
    requires i < |rows| && Distinct(Addrs(rows))
    ensures Find(rows, rows[i].addr) == i
  {
    var k := Find(rows, rows[i].addr);
    assert Addrs(rows)[k] == Addrs(rows)[i];
  }

  lemma RightRowBumped(ops: seq<Op>, op: Op, r: Row)
    requires RightRow(ops, r) && From(op, r.addr)
    ensures RightRow(ops + [op], Bumped(r, op.size))
  {
    SinceClearSnoc(ops, op, r.addr, One);
    SinceClearSnoc(ops, op, r.addr, Size);
    Wrap32Add(SinceClear(ops, r.addr, One), 1);
    Wrap64Add(SinceClear(ops, r.addr, Size), op.size);
  }

  lemma RightRowKept(ops: seq<Op>, op: Op, r: Row)
    requires RightRow(ops, r) && op.Packet? && op.src != r.addr
    ensures RightRow(ops + [op], r)
  {
    SinceClearSnoc(ops, op, r.addr, One);
    SinceClearSnoc(ops, op, r.addr, Size);
  }

  lemma RightRowCleared(ops: seq<Op>, s: string)
    ensures RightRow(ops + [Clear], Row(s, 0, 0))
  {
    SinceClearSnoc(ops, Clear, s, One);
    SinceClearSnoc(ops, Clear, s, Size);
  }

  lemma RightRowNew(ops: seq<Op>, op: Op)
    requires op.Packet? && !Seen(ops, op.src)
    ensures RightRow(ops + [op], Row(op.src, 1, op.size))
  {
    SinceClearSnoc(ops, op, op.src, One);
    SinceClearSnoc(ops, op, op.src, Size);
    UnseenSinceClear(ops, op.src, One);
    UnseenSinceClear(ops, op.src, Size);
  }

  lemma TotalsStep(ops: seq<Op>, op: Op, rows: seq<Row>, i: nat)
    requires Faithful(ops, rows)
    requires i < |Apply(rows, op)|
    ensures RightRow(ops + [op], Apply(rows, op)[i])
  {
    if op.Clear? {
      RightRowCleared(ops, rows[i].addr);
    } else if i == |rows| {
      assert op.src !in Addrs(rows);
      RightRowNew(ops, op);
    } else if rows[i].addr == op.src {
      FindOnly(rows, i);
      RightRowBumped(ops, op, rows[i]);
    } else {
      RightRowKept(ops, op, rows[i]);
    }
  }

  /** For every sequence of packets and clears the list holds exactly what the history says. */
  lemma {:induction false} RunIsFaithful(ops: seq<Op>)
    ensures Faithful(ops, Run(ops))
  {
    if ops == [] {
      assert Addrs(Initial) == [""];
    } else {
      var before, op := ops[..|ops| - 1], ops[|ops| - 1];
      RunIsFaithful(before);
      SourcesStep(before, op, Run(before));
      assert ops == before + [op];
      forall i | 0 <= i < |Run(ops)| {
        TotalsStep(before, op, Run(before), i);
      }
    }
  }

  lemma {:induction false} SameSources(ops: seq<Op>, a: seq<string>, b: seq<string>, n: nat)
    requires RightSources(ops, a) && RightSources(ops, b)
    requires n <= |a|
    ensures n <= |b| && forall i :: 0 <= i < n ==> a[i] == b[i]
  {
    if n > 1 {
      var i := n - 1;
      SameSources(ops, a, b, i);
      assert Seen(ops, a[i]) && a[i] in b;
      var j :| 0 <= j < |b| && b[j] == a[i];
      assert Seen(ops, b[i]) && b[i] in a;
      var k :| 0 <= k < |a| && a[k] == b[i];
      if i < k {
        EarlierAsymmetric(ops, a[i], a[k]);
      }
    }
  }

  lemma SameRows(ops: seq<Op>, rows: seq<Row>, other: seq<Row>)
    requires RightTotals(ops, rows) && RightTotals(ops, other)
    requires Addrs(rows) == Addrs(other)
    ensures rows == other
  {
    forall i | 0 <= i < |rows|
      ensures i < |other| && rows[i] == other[i]
    {
      assert Addrs(rows)[i] == rows[i].addr;
      assert Addrs(other)[i] == other[i].addr;
      assert RightRow(ops, rows[i]) && RightRow(ops, other[i]);
    }
  }

  /** Nothing else does: the description leaves no freedom. */
  lemma FaithfulIsUnique(ops: seq<Op>, rows: seq<Row>)
    requires Faithful(ops, rows)
    ensures rows == Run(ops)
  {
    RunIsFaithful(ops);
    var a, b := Addrs(rows), Addrs(Run(ops));
    SameSources(ops, a, b, |a|);
    SameSources(ops, b, a, |b|);
    SameRows(ops, rows, Run(ops));
  }

  /** A source seen so far has a row, not the sentinel's, with that source's totals. */
  lemma SeenHasRow(ops: seq<Op>, s: string)
    requires Seen(ops, s) && s != ""
    ensures var k := Find(Run(ops), s);
            0 < k < |Run(ops)| && Run(ops)[k].addr == s && RightRow(ops, Run(ops)[k])
  {
    RunIsFaithful(ops);
    var a := Addrs(Run(ops));
    var i :| 0 <= i < |a| && a[i] == s;
    FindOnly(Run(ops), i);
  }
}
