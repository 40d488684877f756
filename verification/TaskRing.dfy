/** Walks over the task ring: the do-while of thread_tree.c and the seq_file iterator of
    seq_file_procfs.c. The ring does not change during a walk. */
module TaskRing {
  import opened LinkRing

  datatype Task = Task(pid: nat, comm: string)

  /** The do-while walk of thread_tree.c: every task once, `init_task` first, then it stops. */
  method WalkTasks(initTask: Link<Task>, ghost s: seq<Link<Task>>) returns (visited: seq<Link<Task>>)
    requires Ring(s) && s[0] == initTask
    ensures visited == s
  {
    var task := initTask;
    visited := [];
    while true
      invariant |visited| < |s| && visited == s[..|visited|] && task == s[|visited|]
      decreases |s| - |visited|
    {
      visited := visited + [task];
      task := task.next;
      if task == initTask {
        break;
      }
    }
  }

  /** `my_start` of seq_file_procfs.c. */
  function IterStart(current: Link<Task>): Link<Task> {
    current
  }

  /** `my_next`: on a ring it never returns NULL. */
  function IterNext(v: Link<Task>, ghost s: seq<Link<Task>>, ghost i: nat): (w: Link<Task>)
    requires Ring(s) && i < |s| && v == s[i]
    reads s
    ensures w == s[After(|s|, i)]
  {
    v.next
  }

  /** `my_show`: it prints the task after the one it is given. */
  function IterShow(v: Link<Task>, ghost s: seq<Link<Task>>, ghost i: nat): (t: Task)
    requires Ring(s) && i < |s| && v == s[i]
    reads s
    ensures t == s[After(|s|, i)].data
  {
    v.next.data
  }

  /** What `k` rounds of show and next print, from position `i` of the ring. */
  function Iterate(v: Link<Task>, k: nat, ghost s: seq<Link<Task>>, ghost i: nat): (r: seq<Task>)
    requires Ring(s) && i < |s| && v == s[i]
    reads s
    ensures |r| == k
    decreases k
  {
    if k == 0 then []
    else [IterShow(v, s, i)] + Iterate(IterNext(v, s, i), k - 1, s, After(|s|, i))
  }

  /** The position `j` steps further round. */
  function Around(n: nat, i: nat, j: nat): (x: nat)
    requires i < n
    ensures x < n
    decreases j
  {
    if j == 0 then i else Around(n, After(n, i), j - 1)
  }

  /** However long it runs, line `j` is the task `j + 1` places after `current`. */
  lemma {:induction false} IterateShows(v: Link<Task>, k: nat, s: seq<Link<Task>>, i: nat, j: nat)
    requires Ring(s) && i < |s| && v == s[i] && j < k
    ensures Iterate(v, k, s, i)[j] == s[Around(|s|, i, j + 1)].data
  {
    if j > 0 {
      IterateShows(IterNext(v, s, i), k - 1, s, After(|s|, i), j - 1);
    }
  }

  /** Within one lap `Around` is plain rotation, and a lap leads back. */
  lemma {:induction false} AroundIsRotation(n: nat, i: nat, j: nat)
    requires i < n && j <= n
    ensures Around(n, i, j) == if i + j < n then i + j else i + j - n
    decreases j
  {
    if j > 0 {
      if i + 1 < n {
        AroundIsRotation(n, i + 1, j - 1);
      } else {
        AroundIsRotation(n, 0, j - 1);
      }
    }
  }

  lemma {:induction false} AroundLap(n: nat, i: nat, j: nat)
    requires i < n
    ensures Around(n, i, n + j) == Around(n, i, j)
    decreases j
  {
    if j == 0 {
      AroundIsRotation(n, i, n);
    } else {
      AroundLap(n, After(n, i), j - 1);
    }
  }

  /** The ring from the successor of position `i` round to position `i`. */
  ghost function Lap(s: seq<Link<Task>>, i: nat): (t: seq<Link<Task>>)
    requires i < |s|
    ensures multiset(t) == multiset(s)
  {
    assert s == s[..i + 1] + s[i + 1..];
    s[i + 1..] + s[..i + 1]
  }

  /** One lap shows every task once, beginning with the successor of `current` and ending with
      `current` itself. */
  lemma OneLap(s: seq<Link<Task>>, i: nat, j: nat)
    requires Ring(s) && i < |s| && j < |s|
    ensures Iterate(IterStart(s[i]), |s|, s, i)[j] == Lap(s, i)[j].data
  {
    IterateShows(s[i], |s|, s, i, j);
    AroundIsRotation(|s|, i, j + 1);
  }

  /** The iterator never ends: after each lap it shows the same again. */
  lemma NeverEnds(s: seq<Link<Task>>, i: nat, k: nat, j: nat)
    requires Ring(s) && i < |s| && |s| + j < k
    ensures Iterate(IterStart(s[i]), k, s, i)[|s| + j] == Iterate(IterStart(s[i]), k, s, i)[j]
  {
    IterateShows(s[i], k, s, i, |s| + j);
    IterateShows(s[i], k, s, i, j);
    AroundLap(|s|, i, j + 1);
  }
}
