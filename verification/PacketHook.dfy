/** The list as `hook_func` drives it: keyed by printed IPv4 source, fed with `skb->data_len`,
    an unsigned 32-bit length that `add_to_list_network` receives as an `int`. */
module PacketHook {
  import opened Words
  import opened PacketTotals
  import opened AddressText

  datatype Event = Arrive(src: Addr, dataLen: UInt32) | Reset

  function OpOf(e: Event): Op {
    match e
    case Arrive(src, dataLen) => Packet(Text(src), Wrap32(dataLen))
    case Reset => Clear
  }

  function Ops(es: seq<Event>): (ops: seq<Op>)
    ensures |ops| == |es|
    ensures forall i :: 0 <= i < |es| ==> ops[i] == OpOf(es[i])
  {
    seq(|es|, i requires 0 <= i < |es| => OpOf(es[i]))
  }

  /** Just after the last clear, or 0. */
  function ResetAt(es: seq<Event>): (k: nat)
    ensures k <= |es|
  {
    ClearedAt(Ops(es), |es|)
  }

  predicate ArriveFrom(e: Event, x: Addr) {
    e.Arrive? && e.src == x
  }

  /** The bytes a source really sent in `es[lo..hi]`. */
  function TrueBytes(es: seq<Event>, lo: nat, hi: nat, x: Addr): int
    requires lo <= hi <= |es|
  {
    if lo == hi then 0
    else TrueBytes(es, lo, hi - 1, x) + if ArriveFrom(es[hi - 1], x) then es[hi - 1].dataLen else 0
  }

  /** How many of its packets in `es[lo..hi]` have a length that is negative as an `int`. */
  function Oversized(es: seq<Event>, lo: nat, hi: nat, x: Addr): nat
    requires lo <= hi <= |es|
  {
    if lo == hi then 0
    else
      var e := es[hi - 1];
      Oversized(es, lo, hi - 1, x) + if ArriveFrom(e, x) && e.dataLen >= 0x8000_0000 then 1 else 0
  }

  /** The list position at which a source is accounted. */
  function NodeOf(es: seq<Event>, x: Addr): nat {
    Find(Run(Ops(es)), Text(x))
  }

  /** What one arrival adds to a source's signed total. */
  lemma SignedSize(e: Event, x: Addr)
    ensures From(OpOf(e), Text(x)) <==> ArriveFrom(e, x)
    ensures e.Arrive? ==>
              OpOf(e).size == e.dataLen - if e.dataLen >= 0x8000_0000 then 0x1_0000_0000 else 0
  {
    if e.Arrive? {
      TextInjective(e.src, x);
    }
  }

  lemma {:induction false} SignedBytes(es: seq<Event>, lo: nat, hi: nat, x: Addr)
    requires lo <= hi <= |es|
    ensures Tally(Ops(es), lo, hi, Text(x), Size)
         == TrueBytes(es, lo, hi, x) - 0x1_0000_0000 * Oversized(es, lo, hi, x)
  {
    if lo < hi {
      SignedBytes(es, lo, hi - 1, x);
      SignedSize(es[hi - 1], x);
    }
  }

  /** Keying by text is keying by address: a source seen so far has a node of its own, never the
      sentinel, and two sources share a node exactly when they are the same address. */
  lemma OneNodePerAddress(es: seq<Event>, x: Addr, y: Addr)
    requires (exists i :: 0 <= i < |es| && ArriveFrom(es[i], x))
    requires (exists i :: 0 <= i < |es| && ArriveFrom(es[i], y))
    ensures 0 < NodeOf(es, x) < |Run(Ops(es))|
    ensures NodeOf(es, x) == NodeOf(es, y) <==> x == y
  {
    HasNode(es, x);
    HasNode(es, y);
    TextInjective(x, y);
  }

  lemma HasNode(es: seq<Event>, x: Addr)
    requires exists i :: 0 <= i < |es| && ArriveFrom(es[i], x)
    ensures 0 < NodeOf(es, x) < |Run(Ops(es))|
    ensures Run(Ops(es))[NodeOf(es, x)].addr == Text(x)
    ensures RightRow(Ops(es), Run(Ops(es))[NodeOf(es, x)])
  {
    TextFits(x);
    var i :| 0 <= i < |es| && ArriveFrom(es[i], x);
    assert From(Ops(es)[i], Text(x));
    SeenHasRow(Ops(es), Text(x));
  }

  /** Every row after the sentinel belongs to some address that sent a packet. */
  lemma RowHasAddress(es: seq<Event>, i: nat) returns (x: Addr)
    requires 0 < i < |Run(Ops(es))|
    ensures exists j :: 0 <= j < |es| && ArriveFrom(es[j], x)
    ensures NodeOf(es, x) == i
  {
    RunIsFaithful(Ops(es));
    var rows := Run(Ops(es));
    var s := Addrs(rows)[i];
    assert Seen(Ops(es), s);
    var j :| 0 <= j < |es| && From(Ops(es)[j], s);
    x := es[j].src;
    assert ArriveFrom(es[j], x);
    FindOnly(rows, i);
  }

  lemma NeverEmpty(es: seq<Event>)
    ensures !Seen(Ops(es), "")
  {
    forall i | 0 <= i < |es|
      ensures !From(Ops(es)[i], "")
    {
      if es[i].Arrive? {
        TextFits(es[i].src);
      }
    }
  }

  /** No packet from the hook is ever booked on the sentinel. */
  lemma SentinelStaysZero(es: seq<Event>)
    ensures |Run(Ops(es))| > 0 && Run(Ops(es))[0] == Row("", 0, 0)
  {
    NeverEmpty(es);
    SentinelUnused(Ops(es));
  }

  lemma SentinelUnused(ops: seq<Op>)
    requires !Seen(ops, "")
    ensures |Run(ops)| > 0 && Run(ops)[0] == Row("", 0, 0)
  {
    RunIsFaithful(ops);
    UnseenSinceClear(ops, "", One);
    UnseenSinceClear(ops, "", Size);
    assert Addrs(Run(ops))[0] == "";
    assert RightRow(ops, Run(ops)[0]);
  }

  /** The true bytes since the last clear, less 2^32 for every oversized packet. */
  function BookedBytes(es: seq<Event>, x: Addr): int {
    TrueBytes(es, ResetAt(es), |es|, x) - 0x1_0000_0000 * Oversized(es, ResetAt(es), |es|, x)
  }

  lemma BooksBytes(es: seq<Event>, x: Addr)
    ensures SinceClear(Ops(es), Text(x), Size) == BookedBytes(es, x)
  {
    SignedBytes(es, ResetAt(es), |es|, x);
  }

  lemma NodeBytes(es: seq<Event>, x: Addr)
    requires exists i :: 0 <= i < |es| && ArriveFrom(es[i], x)
    ensures NodeOf(es, x) < |Run(Ops(es))|
    ensures Run(Ops(es))[NodeOf(es, x)].bytes == Wrap64(BookedBytes(es, x))
  {
    HasNode(es, x);
    BooksBytes(es, x);
  }

  lemma WrapShift(b: int, t: int, k: nat)
    requires b == t - 0x1_0000_0000 * k
    ensures Wrap64(b) == Wrap64(t) <==> k % 0x1_0000_0000 == 0
  {
    Wrap64Same(b, t);
  }

  /** The byte figure is the true one, modulo 2^64, exactly when the number of packets of 2 GiB or
      more that the source sent since the last clear is a multiple of 2^32, so in particular when
      there are none. */
  lemma BytesRightIff(es: seq<Event>, x: Addr)
    requires exists i :: 0 <= i < |es| && ArriveFrom(es[i], x)
    ensures NodeOf(es, x) < |Run(Ops(es))|
    ensures Run(Ops(es))[NodeOf(es, x)].bytes == Wrap64(TrueBytes(es, ResetAt(es), |es|, x))
            <==> Oversized(es, ResetAt(es), |es|, x) % 0x1_0000_0000 == 0
  {
    NodeBytes(es, x);
    var t, k := TrueBytes(es, ResetAt(es), |es|, x), Oversized(es, ResetAt(es), |es|, x);
    WrapShift(BookedBytes(es, x), t, k);
  }

  /** One such packet is enough: it lowers the figure below zero. */
  lemma OversizedExample(x: Addr)
    ensures var es := [Arrive(x, 0x8000_0000)];
            Run(Ops(es)) == [Row("", 0, 0), Row(Text(x), 1, -0x8000_0000)]
  {
    var es := [Arrive(x, 0x8000_0000)];
    TextFits(x);
    assert Ops(es)[..0] == [];
    assert Run([]) == Initial;
    assert Find(Initial, Text(x)) == 1;
  }
}
