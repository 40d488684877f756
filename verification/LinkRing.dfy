/** The circular doubly linked list of linux/list.h, as kernel_linked_list.c, thread_tree.c and
    seq_file_procfs.c use it. A link and the structure that embeds it are one object, so
    `container_of` is the identity and `data` is the rest of the structure. */
module LinkRing {

  class Link<T> {
    var next: Link?<T>
    var prev: Link?<T>
    var data: T

    /** `kmalloc` and the assignments to the embedding structure. */
    constructor (data: T)
      ensures this.data == data
    {
      this.data := data;
      next, prev := null, null;
    }
  }

  /** Positions around a ring of `n`. */
  function After(n: nat, i: nat): (j: nat)
    requires i < n
    ensures j < n
  {
    if i + 1 < n then i + 1 else 0
  }

  function Before(n: nat, i: nat): (j: nat)
    requires i < n
    ensures j < n
  {
    if i > 0 then i - 1 else n - 1
  }

  ghost predicate AllDifferent<T>(s: seq<Link<T>>) {
    forall i, j :: 0 <= i < j < |s| ==> s[i] != s[j]
  }

  /** The links of `s` form a ring in that order: `next` goes one forward, `prev` one back. */
  ghost predicate Ring<T>(s: seq<Link<T>>)
    reads s
  {
    && |s| > 0
    && AllDifferent(s)
    && (forall i {:trigger s[i].next} :: 0 <= i < |s| ==> s[i].next == s[After(|s|, i)])
    && (forall i {:trigger s[i].prev} :: 0 <= i < |s| ==> s[i].prev == s[Before(|s|, i)])
  }

  /** Following `next` and then `prev`, or the other way round, leads back. */
  lemma NextPrevInverse<T>(s: seq<Link<T>>, i: nat)
    requires Ring(s) && i < |s|
    ensures s[i].next != null && s[i].next.prev == s[i]
    ensures s[i].prev != null && s[i].prev.next == s[i]
  {
    assert s[After(|s|, i)].prev == s[Before(|s|, After(|s|, i))];
    assert s[Before(|s|, i)].next == s[After(|s|, Before(|s|, i))];
  }

  /** The pointers determine the ring: two descriptions that begin at the same link agree. */
  lemma {:induction false} RingUniqueTo<T>(s: seq<Link<T>>, t: seq<Link<T>>, n: nat)
    requires Ring(s) && Ring(t) && s[0] == t[0] && n <= |s|
    ensures n <= |t| && forall i :: 0 <= i < n ==> s[i] == t[i]
  {
    if n > 1 {
      RingUniqueTo(s, t, n - 1);
      assert s[n - 2].next == s[n - 1];
      assert t[n - 2].next == t[After(|t|, n - 2)];
    }
  }

  lemma RingUnique<T>(s: seq<Link<T>>, t: seq<Link<T>>)
    requires Ring(s) && Ring(t) && s[0] == t[0]
    ensures s == t
  {
    RingUniqueTo(s, t, |s|);
    RingUniqueTo(t, s, |t|);
  }

  /** `INIT_LIST_HEAD`. */
  method InitHead<T>(head: Link<T>)
    modifies head`next, head`prev
    ensures Ring([head])
  {
    head.next := head;
    head.prev := head;
  }

  ghost function Inserted<T>(s: seq<Link<T>>, k: nat, node: Link<T>): seq<Link<T>>
    requires k < |s|
  {
    s[..k + 1] + [node] + s[k + 1..]
  }

  ghost function Removed<T>(s: seq<Link<T>>, k: nat): seq<Link<T>>
    requires k < |s|
  {
    s[..k] + s[k + 1..]
  }

  lemma InsertedDifferent<T>(s: seq<Link<T>>, k: nat, node: Link<T>)
    requires k < |s| && AllDifferent(s) && node !in s
    ensures AllDifferent(Inserted(s, k, node))
  {
  }

  lemma RemovedDifferent<T>(s: seq<Link<T>>, k: nat)
    requires k < |s| && AllDifferent(s)
    ensures AllDifferent(Removed(s, k))
  {
  }

  /** The pointers after `node` was linked in behind `s[k]`, link by link. */
  ghost predicate LinkedIn<T>(s: seq<Link<T>>, k: nat, node: Link<T>)
    requires k < |s|
    reads s, node
  {
    && node.next == s[After(|s|, k)] && node.prev == s[k]
    && (forall i {:trigger s[i].next} :: 0 <= i < |s| ==>
          s[i].next == if i == k then node else s[After(|s|, i)])
    && (forall i {:trigger s[i].prev} :: 0 <= i < |s| ==>
          s[i].prev == if i == After(|s|, k) then node else s[Before(|s|, i)])
  }

  lemma LinkedInRing<T>(s: seq<Link<T>>, k: nat, node: Link<T>)
    requires k < |s| && AllDifferent(s) && node !in s && LinkedIn(s, k, node)
    ensures Ring(Inserted(s, k, node))
  {
    InsertedDifferent(s, k, node);
    var t, n := Inserted(s, k, node), |s| + 1;
    forall x | 0 <= x < n
      ensures t[x].next == t[After(n, x)] && t[x].prev == t[Before(n, x)]
    {
      if x != k + 1 {
        var i := if x <= k then x else x - 1;
        assert t[x] == s[i];
        assert s[i].next == if i == k then node else s[After(|s|, i)];
        assert s[i].prev == if i == After(|s|, k) then node else s[Before(|s|, i)];
      }
    }
  }

  /** `__list_add`: `node` goes between two neighbours. */
  method ListAdd<T>(node: Link<T>, prev: Link<T>, next: Link<T>, ghost s: seq<Link<T>>, ghost k: nat)
    requires Ring(s) && k < |s| && prev == s[k] && next == s[After(|s|, k)]
    requires node !in s
    modifies node`next, node`prev, prev`next, next`prev
    ensures Ring(Inserted(s, k, node))
  {
    next.prev := node;
    node.next := next;
    node.prev := prev;
    prev.next := node;
    LinkedInRing(s, k, node);
  }

  /** A new link right behind the head. */
  method PushFront<T>(head: Link<T>, data: T, ghost s: seq<Link<T>>) returns (ghost t: seq<Link<T>>)
    requires Ring(s) && s[0] == head
    modifies s`next, s`prev
    ensures Ring(t) && |t| == |s| + 1 && t[0] == head
    ensures fresh(t[1]) && t[1].data == data
    ensures forall j :: 1 <= j < |s| ==> t[j + 1] == s[j]
    ensures forall j :: 0 <= j < |t| ==> t[j] in s || fresh(t[j])
  {
    var tmp := new Link(data);
    t := Inserted(s, 0, tmp);
    ListAdd(tmp, head, head.next, s, 0);
  }

  /** The pointers after `s[k]` was bypassed, link by link. */
  ghost predicate Bypassed<T>(s: seq<Link<T>>, k: nat)
    requires k < |s|
    reads s
  {
    && (forall i {:trigger s[i].next} :: 0 <= i < |s| && i != k ==>
          s[i].next == if i == Before(|s|, k) then s[After(|s|, k)] else s[After(|s|, i)])
    && (forall i {:trigger s[i].prev} :: 0 <= i < |s| && i != k ==>
          s[i].prev == if i == After(|s|, k) then s[Before(|s|, k)] else s[Before(|s|, i)])
  }

  /** Where the link at position `x` of the shorter ring was. */
  function Was(k: nat, x: nat): nat {
    if x < k then x else x + 1
  }

  lemma RemovedAt<T>(s: seq<Link<T>>, k: nat, x: nat)
    requires k < |s| && x < |s| - 1
    ensures Removed(s, k)[x] == s[Was(k, x)]
  {
  }

  lemma WasNeighbours(n: nat, k: nat, x: nat)
    requires k < n && x < n - 1
    ensures Was(k, After(n - 1, x)) == if Was(k, x) == Before(n, k) then After(n, k) else After(n, Was(k, x))
    ensures Was(k, Before(n - 1, x)) == if Was(k, x) == After(n, k) then Before(n, k) else Before(n, Was(k, x))
  {
  }

  lemma BypassedAt<T>(s: seq<Link<T>>, k: nat, x: nat)
    requires k < |s| && Bypassed(s, k) && x < |s| - 1
    ensures var t, n := Removed(s, k), |s| - 1;
            t[x].next == t[After(n, x)] && t[x].prev == t[Before(n, x)]
  {
    var n, i := |s| - 1, Was(k, x);
    RemovedAt(s, k, x);
    RemovedAt(s, k, After(n, x));
    RemovedAt(s, k, Before(n, x));
    WasNeighbours(|s|, k, x);
    assert s[i].next == if i == Before(|s|, k) then s[After(|s|, k)] else s[After(|s|, i)];
    assert s[i].prev == if i == After(|s|, k) then s[Before(|s|, k)] else s[Before(|s|, i)];
  }

  lemma BypassedRing<T>(s: seq<Link<T>>, k: nat)
    requires k < |s| && |s| > 1 && AllDifferent(s) && Bypassed(s, k)
    ensures Ring(Removed(s, k))
  {
    RemovedDifferent(s, k);
    forall x | 0 <= x < |s| - 1
      ensures Removed(s, k)[x].next == Removed(s, k)[After(|s| - 1, x)]
      ensures Removed(s, k)[x].prev == Removed(s, k)[Before(|s| - 1, x)]
    {
      BypassedAt(s, k, x);
    }
  }

  /** Removing what was inserted gives back the sequence. */
  lemma RemovedInserted<T>(s: seq<Link<T>>, k: nat, node: Link<T>)
    requires k < |s|
    ensures |Inserted(s, k, node)| == |s| + 1 && Inserted(s, k, node)[k + 1] == node
    ensures Removed(Inserted(s, k, node), k + 1) == s
  {
  }

  /** `list_del`. Its two poison addresses, which nobody may follow, are null here. */
  method ListDel<T>(entry: Link<T>, ghost s: seq<Link<T>>, ghost k: nat)
    requires Ring(s) && k < |s| && entry == s[k]
    modifies s`next, s`prev
    ensures entry.next == null && entry.prev == null
    ensures |s| > 1 ==> Ring(Removed(s, k))
  {
    var next, prev := entry.next, entry.prev;
    next.prev := prev;
    prev.next := next;
    entry.next := null;
    entry.prev := null;
    if |s| > 1 {
      BypassedRing(s, k);
    }
  }
}
