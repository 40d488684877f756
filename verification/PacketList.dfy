/** The linked list of network_procfs.c: a sentinel `root`, a cached `tail`, and one node per source.

    Every method stands for one `spin_lock`..`spin_unlock` section, or for one unlocked callback.
    `spine` is the chain of nodes from `root`, and `rows` their contents, so each contract ties the
    pointers to the operations of `PacketTotals`. `live` and `freed` are what the slab cache knows:
    the nodes handed out and not taken back, and the nodes taken back, in order. */
module PacketList {
  import opened Words
  import opened PacketTotals
  import opened PacketSums

  class Node {
    var addr: string
    var count: int
    var dataUsed: int
    var next: Node?
  }

  function RowOf(n: Node): Row
    reads n
  {
    Row(n.addr, n.count, n.dataUsed)
  }

  /** The node at a position, NULL past the end. */
  ghost function At(s: seq<Node>, i: nat): Node? {
    if i < |s| then s[i] else null
  }

  /** The nodes are distinct and each points to the one after it, the last to none. */
  ghost predicate Chain(s: seq<Node>)
    reads s
  {
    && (forall i, j :: 0 <= i < j < |s| ==> s[i] != s[j])
    && (forall i {:trigger s[i].next} :: 0 <= i < |s| ==> s[i].next == At(s, i + 1))
  }

  ghost function NodeSet(s: seq<Node>): set<Node> {
    set n | n in s
  }

  lemma NodeSetSnoc(s: seq<Node>, n: Node)
    ensures NodeSet(s + [n]) == NodeSet(s) + {n}
  {
  }

  ghost function Reversed(s: seq<Node>): (r: seq<Node>)
    ensures |r| == |s|
    ensures forall i :: 0 <= i < |s| ==> r[i] == s[|s| - 1 - i]
  {
    seq(|s|, i requires 0 <= i < |s| => s[|s| - 1 - i])
  }

  class Log {
    var root: Node
    var tail: Node
    ghost var spine: seq<Node>
    ghost var rows: seq<Row>
    ghost var live: set<Node>
    ghost var freed: seq<Node>

    ghost predicate Valid()
      reads this, spine
    {
      && |spine| > 0
      && root == spine[0]
      && tail == spine[|spine| - 1]
      && Chain(spine)
      && live == NodeSet(spine)
      && |rows| == |spine|
      && (forall i :: 0 <= i < |spine| ==> rows[i] == RowOf(spine[i]))
    }

    /** The list set-up in `init_packet`. */
    constructor ()
      ensures Valid() && fresh(spine)
      ensures rows == Initial && freed == []
    {
      root := new Node;
      tail := root;
      spine, rows, live, freed := [root], Initial, {root}, [];
      new;
      root.count := 0;
      root.dataUsed := 0;
      root.next := null;
      root.addr := "";
    }

    /** The search loop of `add_to_list_network`. */
    method Search(start: Node, saddr: string) returns (temp: Node?)
      requires Valid() && start == root
      ensures temp == At(spine, Find(rows, saddr))
    {
      temp := start;
      ghost var i := 0;
      while temp != null && temp.addr != saddr
        invariant 0 <= i <= Find(rows, saddr)
        invariant temp == At(spine, i)
        decreases |spine| - i
      {
        assert rows[i] == RowOf(temp);
        temp := temp.next;
        i := i + 1;
      }
      assert i < |spine| ==> rows[i] == RowOf(temp);
    }

    /** The branch for a source that has a node. */
    method Bump(temp: Node, ghost i: nat, dataSize: Int32)
      requires Valid() && i < |spine| && temp == spine[i]
      modifies this`rows, temp`count, temp`dataUsed
      ensures Valid()
      ensures rows == old(rows)[i := Bumped(old(rows)[i], dataSize)]
    {
      temp.count := Wrap32(temp.count + 1);
      temp.dataUsed := Wrap64(temp.dataUsed + dataSize);
      rows := rows[i := RowOf(temp)];
    }

    /** The first values of a new node. */
    method Fill(node: Node, saddr: string, dataSize: Int32)
      modifies node
      ensures RowOf(node) == Row(saddr, 1, dataSize) && node.next == null
    {
      node.count := 1;
      node.dataUsed := dataSize;
      node.addr := saddr;
      node.next := null;
    }

    /** The branch for a new source. */
    method Append(saddr: string, dataSize: Int32)
      requires Valid()
      modifies this`tail, this`spine, this`live, this`rows, tail`next
      ensures Valid() && fresh(tail) && spine == old(spine) + [tail]
      ensures rows == old(rows) + [Row(saddr, 1, dataSize)]
    {
      var node := new Node;
      tail.next := node;
      tail := node;
      Fill(tail, saddr, dataSize);
      NodeSetSnoc(spine, tail);
      assert forall i :: 0 <= i < |spine| ==> spine[i] != tail;
      assert forall i :: 0 <= i < |spine| ==> RowOf(spine[i]) == rows[i];
      assert forall i {:trigger spine[i].next} :: 0 <= i < |spine| ==> spine[i].next == At(spine + [tail], i + 1);
      spine, live, rows := spine + [tail], live + {tail}, rows + [Row(saddr, 1, dataSize)];
    }

    /** The locked section of `add_to_list_network`; `start` is the value of `root` that the caller
        read before it took the lock. */
    method AddLocked(start: Node, saddr: string, dataSize: Int32)
      requires Valid() && start == root
      modifies this`tail, this`spine, this`live, this`rows, spine
      ensures Valid()
      ensures rows == Record(old(rows), saddr, dataSize)
      ensures spine == old(spine) || (spine == old(spine) + [tail] && fresh(tail))
    {
      var temp := Search(start, saddr);
      if temp != null {
        Bump(temp, Find(rows, saddr), dataSize);
      } else {
        Append(saddr, dataSize);
      }
    }

    /** The body of the clearing loop. */
    method Zero(temp: Node, ghost i: nat)
      requires Valid() && i < |spine| && temp == spine[i]
      modifies this`rows, temp`count, temp`dataUsed
      ensures Valid() && temp.next == At(spine, i + 1)
      ensures rows == old(rows)[i := Row(old(rows)[i].addr, 0, 0)]
    {
      temp.count := 0;
      temp.dataUsed := 0;
      rows := rows[i := RowOf(temp)];
    }

    /** The locked section of `my_write`. */
    method ClearLocked()
      requires Valid()
      modifies this`rows, spine
      ensures Valid()
      ensures rows == Cleared(old(rows))
    {
      var temp: Node? := root;
      ghost var was, i := rows, 0;
      while temp != null
        invariant 0 <= i <= |spine| == |was|
        invariant temp == At(spine, i)
        invariant Valid()
        invariant |rows| == |was|
        invariant forall j :: 0 <= j < |was| ==> rows[j] == if j < i then Row(was[j].addr, 0, 0) else was[j]
        decreases |spine| - i
      {
        Zero(temp, i);
        temp, i := temp.next, i + 1;
      }
    }

    /** `my_start`: the first node after the sentinel, or none. */
    function Start(): (v: Node?)
      requires Valid()
      reads this, spine
      ensures v == At(spine, 1)
    {
      root.next
    }

    /** `my_next` on the node at position `i`. */
    function Next(v: Node, ghost i: nat): (w: Node?)
      requires Valid() && i < |spine| && v == spine[i]
      reads this, spine
      ensures w == At(spine, i + 1)
    {
      v.next
    }

    /** `my_show`. */
    function Show(v: Node): Line
      reads v
    {
      LineOf(RowOf(v))
    }

    /** Reading a node is allowed only while the slab cache has not taken it back. */
    method ReadNext(node: Node) returns (next: Node?)
      requires node in live
      ensures next == node.next
    {
      next := node.next;
    }

    /** `kmem_cache_free`. */
    ghost method Release(node: Node)
      requires node in live
      modifies this`live, this`freed
      ensures live == old(live) - {node} && freed == old(freed) + [node]
    {
      live, freed := live - {node}, freed + [node];
    }

    /** The recursive destructor `free`, called on position `i` of the chain. */
    method Free(node: Node?, ghost i: nat)
      requires Chain(spine) && i <= |spine|
      requires node == At(spine, i)
      requires forall n :: n in spine[i..] ==> n in live
      modifies this`live, this`freed
      ensures live == old(live) - NodeSet(spine[i..])
      ensures freed == old(freed) + Reversed(spine[i..])
      decreases |spine| - i
    {
      if node == null {
        return;
      }
      var next := ReadNext(node);
      assert spine[i..] == [node] + spine[i + 1..];
      Free(next, i + 1);
      Release(node);
      assert Reversed(spine[i..]) == Reversed(spine[i + 1..]) + [node];
    }

    /** `cleanup_packet`, with no hook in flight: the cache is empty when it is destroyed, and every
        node was given back once, last to first. */
    method Cleanup()
      requires Valid()
      modifies this`live, this`freed
      ensures live == {}
      ensures freed == old(freed) + Reversed(spine)
    {
      assert spine[0..] == spine;
      Free(root, 0);
    }
  }
}
