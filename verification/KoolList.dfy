/** kernel_linked_list.c: building the list, walking it, and unlinking its head. The module counts
    down from 5; here the count is any `unsigned int`. */
module KoolList {
  import opened Words
  import opened LinkRing

  /** `struct kool_list` without its links. */
  datatype Kool = Kool(to: Int32, from: Int32)

  /** The structure made when the loop variable is `i`. Both sums are unsigned, then stored in `int`. */
  function Made(i: nat): Kool {
    Kool(Wrap32(10 + i), Wrap32(20 * i))
  }

  /** The entries 11, 20 and 12, 40 and so on, in 32 bits. */
  ghost predicate CountsUp(r: seq<Kool>) {
    forall k {:trigger r[k]} :: 0 <= k < |r| ==>
      (r[k].to - (11 + k)) % 0x1_0000_0000 == 0 && (r[k].from - 20 * (k + 1)) % 0x1_0000_0000 == 0
  }

  /** The head and, in list order, the structures made for 1, 2, ..., n. */
  ghost predicate Built(s: seq<Link<Kool>>, n: nat)
    reads s
  {
    Ring(s) && |s| == n + 1 && MadeFrom(s, 0)
  }

  /** Behind the head come the structures made for `i + 1`, `i + 2`, and so on. */
  ghost predicate MadeFrom(s: seq<Link<Kool>>, i: nat)
    reads s
  {
    forall j {:trigger s[j].data} :: 1 <= j < |s| ==> s[j].data == Made(i + j)
  }

  lemma MadeBelow(n: nat)
    requires 20 * n < 0x8000_0000
    ensures forall j {:trigger Made(j)} :: 0 <= j <= n ==> Made(j) == Kool(10 + j, 20 * j)
  {
    forall j | 0 <= j <= n {
      MadeMeaning(j);
    }
  }

  lemma MadeOneMore(s: seq<Link<Kool>>, t: seq<Link<Kool>>, i: nat)
    requires i > 0 && |s| > 0 && |t| == |s| + 1 && MadeFrom(s, i)
    requires t[1].data == Made(i) && forall j :: 1 <= j < |s| ==> t[j + 1] == s[j]
    ensures MadeFrom(t, i - 1)
  {
    forall j | 1 <= j < |t|
      ensures t[j].data == Made(i - 1 + j)
    {
      if j > 1 {
        assert t[j] == s[j - 1] && s[j - 1].data == Made(i + (j - 1));
      }
    }
  }

  /** The body of the insertion loop. */
  method InsertMade(head: Link<Kool>, i: nat, ghost s: seq<Link<Kool>>) returns (ghost t: seq<Link<Kool>>)
    requires Ring(s) && s[0] == head && i > 0 && MadeFrom(s, i)
    modifies s`next, s`prev
    ensures Ring(t) && |t| == |s| + 1 && t[0] == head && MadeFrom(t, i - 1)
    ensures forall j :: 0 <= j < |t| ==> t[j] in s || fresh(t[j])
  {
    t := PushFront(head, Made(i), s);
    MadeOneMore(s, t, i);
  }

  /** The insertion loop of `hello_init`. */
  method Build(n: UInt32) returns (head: Link<Kool>, ghost s: seq<Link<Kool>>)
    ensures Built(s, n) && s[0] == head
    ensures 20 * n < 0x8000_0000 ==>
              forall j {:trigger s[j].data} :: 1 <= j <= n ==> s[j].data == Kool(10 + j, 20 * j)
    ensures forall j :: 0 <= j < |s| ==> fresh(s[j])
  {
    head := new Link(Kool(0, 0));
    InitHead(head);
    s := [head];
    var i := n;
    while i != 0
      invariant 0 <= i <= n
      invariant Ring(s) && |s| == n - i + 1 && s[0] == head
      invariant MadeFrom(s, i)
      invariant forall j :: 0 <= j < |s| ==> fresh(s[j])
    {
      s := InsertMade(head, i, s);
      i := i - 1;
    }
    if 20 * n < 0x8000_0000 {
      MadeBelow(n);
    }
  }

  /** `list_for_each`: every link but the head, in ring order, and then it stops. */
  method ForEach<T>(head: Link<T>, ghost s: seq<Link<T>>) returns (visited: seq<Link<T>>)
    requires Ring(s) && s[0] == head
    ensures visited == s[1..]
  {
    visited := [];
    var pos := head.next;
    while pos != head
      invariant |visited| < |s| && visited == s[1..|visited| + 1]
      invariant pos == s[After(|s|, |visited|)]
      decreases |s| - |visited|
    {
      visited := visited + [pos];
      pos := pos.next;
    }
  }

  /** What `hello_init` prints. */
  method HelloInit(n: UInt32) returns (printed: seq<Kool>)
    ensures printed == Listing(n)
    ensures |printed| == n && CountsUp(printed)
    ensures 20 * n < 0x8000_0000 ==>
              forall k :: 0 <= k < n ==> printed[k].to == 11 + k && printed[k].from == 20 * (k + 1)
  {
    ListingCountsUp(n);
    var head, s := Build(n);
    var visited := ForEach(head, s);
    printed := [];
    for k := 0 to |visited|
      invariant printed == Listing(n)[..k]
    {
      assert visited[k] == s[k + 1];
      printed := printed + [visited[k].data];
    }
  }

  function Listing(n: nat): (r: seq<Kool>)
    ensures |r| == n && forall k :: 0 <= k < n ==> r[k] == Made(k + 1)
  {
    seq(n, k requires 0 <= k < n => Made(k + 1))
  }

  /** `Made(i)` is 10 and i, and 20 times i, as far as 32 bits go. */
  lemma MadeMeaning(i: nat)
    ensures (Made(i).to - (10 + i)) % 0x1_0000_0000 == 0 && (Made(i).from - 20 * i) % 0x1_0000_0000 == 0
    ensures 20 * i < 0x8000_0000 ==> Made(i) == Kool(10 + i, 20 * i)
  {
    Wrap32Meaning(10 + i);
    Wrap32Meaning(20 * i);
  }

  lemma ListingCountsUp(n: nat)
    ensures CountsUp(Listing(n))
    ensures 20 * n < 0x8000_0000 ==>
              forall k :: 0 <= k < n ==> Listing(n)[k].to == 11 + k && Listing(n)[k].from == 20 * (k + 1)
  {
    forall i {:trigger Made(i)} | 0 <= i <= n {
      MadeMeaning(i);
    }
  }

  predicate AscendingTo(r: seq<Kool>) {
    forall i, j :: 0 <= i < j < |r| ==> r[i].to < r[j].to
  }

  predicate AscendingFrom(r: seq<Kool>) {
    forall i, j :: 0 <= i < j < |r| ==> r[i].from < r[j].from
  }

  /** Inserting in descending order behind the head lists in ascending order, exactly as long as the
      largest value still fits an `int`. */
  lemma AscendingIff(n: nat)
    ensures AscendingTo(Listing(n)) <==> n < 0x8000_0000 - 10
    ensures AscendingFrom(Listing(n)) <==> 20 * n < 0x8000_0000
  {
    var r := Listing(n);
    if n < 0x8000_0000 - 10 {
      assert forall k :: 0 <= k < n ==> r[k].to == 11 + k;
    } else {
      var k := 0x8000_0000 - 11;
      assert r[k - 1].to == 0x7fff_ffff && r[k].to == -0x8000_0000;
    }
    if 20 * n < 0x8000_0000 {
      assert forall k :: 0 <= k < n ==> r[k].from == 20 * (k + 1);
    } else {
      var k := 0x8000_0000 / 20;
      assert r[k - 1].from == 20 * k;
      assert r[k].from == 20 * (k + 1) - 0x1_0000_0000;
    }
  }

  /** One entry more than that, and the listing ends below zero. */
  lemma DescendsExample()
    ensures var r := Listing(107_374_183);
            r[107_374_181].from == 0x7fff_fff8 && r[107_374_182].from == -0x7fff_fff4
  {
  }

  /** `hello_exit`: the entries are left as a ring of their own, in the same cyclic order. */
  method HelloExit(head: Link<Kool>, ghost s: seq<Link<Kool>>, n: UInt32)
    requires Built(s, n) && s[0] == head
    modifies s`next, s`prev
    ensures n > 0 ==> Ring(s[1..])
    ensures head.next == null && head.prev == null
    ensures forall j :: 0 <= j < |s| ==> s[j].data == old(s[j].data)
  {
    assert Removed(s, 0) == s[1..];
    ListDel(head, s, 0);
  }

  /** Linking an entry in and deleting it again puts every pointer back. */
  method AddThenDel<T>(node: Link<T>, prev: Link<T>, next: Link<T>, ghost s: seq<Link<T>>, ghost k: nat)
    requires Ring(s) && k < |s| && prev == s[k] && next == s[After(|s|, k)]
    requires node !in s
    modifies s`next, s`prev, node`next, node`prev
    ensures forall i :: 0 <= i < |s| ==> s[i].next == old(s[i].next) && s[i].prev == old(s[i].prev)
  {
    ghost var t := Inserted(s, k, node);
    RemovedInserted(s, k, node);
    ListAdd(node, prev, next, s, k);
    ListDel(node, t, k + 1);
    assert Ring(s);
  }
}
