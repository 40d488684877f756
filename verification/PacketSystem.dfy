/** The whole of network_procfs.c under the netfilter hook: every packet's source is a printed IPv4
    address, and the list on the heap has the shape that promises. */
module PacketSystem {
  import opened Words
  import opened PacketTotals
  import opened AddressText
  import opened PacketHook
  import opened PacketList
  import opened PacketWalk

  /** A packet of this step comes through `hook_func`. */
  ghost predicate FromHook(step: Step) {
    step.HookAdds? ==> exists x: Addr :: Text(x) == step.src
  }

  lemma EventOf(src: string, size: Int32) returns (e: Event)
    requires exists x: Addr :: Text(x) == src
    ensures OpOf(e) == Packet(src, size)
  {
    var x: Addr :| Text(x) == src;
    e := Arrive(x, if size < 0 then size + 0x1_0000_0000 else size);
  }

  /** What the hook and the clears did, as a history of arrivals. */
  lemma {:induction false} EventsOf(steps: seq<Step>, n: nat) returns (es: seq<Event>)
    requires n <= |steps| && forall i :: 0 <= i < |steps| ==> FromHook(steps[i])
    ensures Ops(es) == OpsOf(steps, n)
  {
    es := [];
    if n > 0 {
      es := EventsOf(steps, n - 1);
      var step := steps[n - 1];
      match step {
        case HookAdds(k, src, size) =>
          if k < Exec(steps, n - 1).hooks {
            assert FromHook(step);
            var e := EventOf(src, size);
            assert Ops(es + [e]) == Ops(es) + [OpOf(e)];
            es := es + [e];
          }
        case Clears =>
          assert Ops(es + [Reset]) == Ops(es) + [Clear];
          es := es + [Reset];
        case _ =>
      }
    }
  }

  /** The shape of a list fed by the hook: a sentinel that counts nothing, then distinct addresses. */
  ghost predicate Sound(rows: seq<Row>) {
    && |rows| > 0 && rows[0] == Row("", 0, 0)
    && (forall i :: 0 < i < |rows| ==> exists x: Addr :: rows[i].addr == Text(x))
    && Distinct(Addrs(rows))
  }

  lemma SoundRows(steps: seq<Step>, n: nat)
    requires n <= |steps| && forall i :: 0 <= i < |steps| ==> FromHook(steps[i])
    ensures Sound(Exec(steps, n).rows)
  {
    var es := EventsOf(steps, n);
    ListIsRun(steps, n);
    RunIsFaithful(Ops(es));
    SentinelStaysZero(es);
    forall i | 0 < i < |Run(Ops(es))|
      ensures exists x: Addr :: Run(Ops(es))[i].addr == Text(x)
    {
      var x := RowHasAddress(es, i);
      assert Run(Ops(es))[i].addr == Text(x);
    }
  }

  /** Under any schedule of hooks, clears and the reader, the pointers do what the worlds say, the
      sentinel counts nothing, and the other nodes hold distinct IPv4 addresses. */
  method RunHooks(steps: seq<Step>) returns (m: Module)
    requires forall i :: 0 <= i < |steps| ==> FromHook(steps[i])
    ensures m.Matches(Exec(steps, |steps|)) && Sound(m.log.rows)
    ensures m.log.root.addr == "" && m.log.root.count == 0 && m.log.root.dataUsed == 0
  {
    SoundRows(steps, |steps|);
    m := RunSchedule(steps);
    assert m.log.rows[0] == RowOf(m.log.spine[0]);
  }
}
