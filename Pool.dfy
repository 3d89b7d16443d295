/**
 * What the two executors of concurrent/stealing.go and concurrent/balancing.go
 * share: the fixed collection of per-worker queues indexed by worker id (the
 * `capacity` and `queues` fields of sharedContextST and sharedContextWB), the
 * task-conservation bookkeeping over it, and the round-robin submission cursor.
 *
 * A pool state is the sequence of the queues' contents, each listed from top
 * to bottom as in module Deque.
 */
module Pool {
  import opened Deque

  /** Every task held by a pool state, counted with multiplicity. */
  function AllTasks(pool: seq<seq<Task>>): multiset<Task>
  {
    if pool == [] then multiset{} else AllTasks(pool[..|pool| - 1]) + multiset(pool[|pool| - 1])
  }

  /** Replacing one queue's contents changes the pool's tasks by exactly that queue's difference. */
  lemma {:induction false} AllTasksUpdate(pool: seq<seq<Task>>, i: nat, s: seq<Task>)
    requires i < |pool|
    ensures AllTasks(pool[i := s]) + multiset(pool[i]) == AllTasks(pool) + multiset(s)
  {
    var n := |pool| - 1;
    var p' := pool[i := s];
    assert AllTasks(p') == AllTasks(p'[..n]) + multiset(p'[n]);
    if i < n {
      assert p'[..n] == pool[..n][i := s] && p'[n] == pool[n] && pool[..n][i] == pool[i];
      assert AllTasks(pool) == AllTasks(pool[..n]) + multiset(pool[n]);
      AllTasksUpdate(pool[..n], i, s);
      calc {
        AllTasks(p') + multiset(pool[i]);
        AllTasks(pool[..n][i := s]) + multiset(pool[n]) + multiset(pool[i]);
        AllTasks(pool[..n][i := s]) + multiset(pool[..n][i]) + multiset(pool[n]);
        AllTasks(pool[..n]) + multiset(s) + multiset(pool[n]);
        AllTasks(pool) + multiset(s);
      }
    } else {
      assert p'[..n] == pool[..n];
    }
  }

  /** No queue holds a task exactly when the pool holds no task at all. */
  lemma {:induction false} EmptyPoolHasNoTasks(pool: seq<seq<Task>>)
    ensures (forall i :: 0 <= i < |pool| ==> pool[i] == []) <==> AllTasks(pool) == multiset{}
  {
    if pool != [] {
      var n := |pool| - 1;
      EmptyPoolHasNoTasks(pool[..n]);
      assert forall i :: 0 <= i < n ==> pool[..n][i] == pool[i];
    }
  }

  /** One task taken from the bottom of queue `from` and put at the bottom of queue `to`. */
  function MoveBottom(pool: seq<seq<Task>>, from: nat, to: nat): (r: seq<seq<Task>>)
    requires from < |pool| && to < |pool| && from != to && pool[from] != []
    ensures |r| == |pool| && |r[from]| == |pool[from]| - 1 && |r[to]| == |pool[to]| + 1
  {
    var n := |pool[from]| - 1;
    pool[from := pool[from][..n]][to := pool[to] + [pool[from][n]]]
  }

  /**
   * Moving one task between two queues creates and loses nothing: the pool
   * holds the same tasks, the source queue shrinks by one, the target queue
   * grows by one whose new bottom is the source's old bottom, and every
   * other queue is untouched.
   */
  lemma MoveBottomConserves(pool: seq<seq<Task>>, from: nat, to: nat)
    requires from < |pool| && to < |pool| && from != to && pool[from] != []
    ensures var r := MoveBottom(pool, from, to);
      && |r| == |pool|
      && AllTasks(r) == AllTasks(pool)
      && |r[from]| == |pool[from]| - 1 && |r[to]| == |pool[to]| + 1
      && r[to][|r[to]| - 1] == pool[from][|pool[from]| - 1]
      && r[to][..|pool[to]|] == pool[to]
      && r[from] == pool[from][..|r[from]|]
      && (forall k :: 0 <= k < |pool| && k != from && k != to ==> r[k] == pool[k])
  {
    var n := |pool[from]| - 1;
    var x := pool[from][n];
    var mid := pool[from := pool[from][..n]];
    var r := mid[to := pool[to] + [x]];
    assert MoveBottom(pool, from, to) == r;
    assert pool[from] == pool[from][..n] + [x];
    AllTasksUpdate(pool, from, pool[from][..n]);
    MultisetCancel(AllTasks(mid) + multiset{x}, AllTasks(pool), multiset(pool[from][..n]));
    AllTasksUpdate(mid, to, pool[to] + [x]);
    assert mid[to] == pool[to];
    MultisetCancel(AllTasks(r), AllTasks(mid) + multiset{x}, multiset(pool[to]));
  }

  lemma MultisetCancel(a: multiset<Task>, b: multiset<Task>, m: multiset<Task>)
    requires a + m == b + m
    ensures a == b
  {
    forall e: Task ensures a[e] == b[e] {
      assert (a + m)[e] == (b + m)[e];
    }
  }

  /** The cursor step of nextDistributee: the queue after `prev`, cyclically. */
  function Next(prev: int, capacity: int): (r: int)
    requires capacity > 0
    ensures 0 <= r < capacity
  {
    (prev + 1) % capacity
  }

  /** The cursor after `n` submissions; a new service starts it at capacity - 1. */
  function Cursor(capacity: int, n: nat): (r: int)
    requires capacity > 0
    ensures 0 <= r < capacity
  {
    if n == 0 then capacity - 1 else Next(Cursor(capacity, n - 1), capacity)
  }

  lemma MulAtLeast(c: int, d: int)
    requires c > 0 && d >= 1
    ensures c * d >= c
  {
  }

  lemma DivModUnique(a: int, c: int, q: int, r: int)
    requires c > 0 && 0 <= r < c && a == c * q + r
    ensures a / c == q && a % c == r
  {
    var q0, r0 := a / c, a % c;
    assert a == c * q0 + r0;
    if q0 > q {
      MulAtLeast(c, q0 - q);
    } else if q0 < q {
      MulAtLeast(c, q - q0);
    }
  }

  /** Division and remainder by c after adding one. */
  lemma ModSucc(a: int, c: int)
    requires c > 0
    ensures (a % c + 1) % c == (a + 1) % c
    ensures a % c + 1 < c ==> (a + 1) / c == a / c && (a + 1) % c == a % c + 1
    ensures a % c + 1 == c ==> (a + 1) / c == a / c + 1 && (a + 1) % c == 0
  {
    var q, m := a / c, a % c;
    assert a == c * q + m;
    if m + 1 < c {
      DivModUnique(a + 1, c, q, m + 1);
      DivModUnique(m + 1, c, 0, m + 1);
    } else {
      assert a + 1 == c * (q + 1) + 0;
      DivModUnique(a + 1, c, q + 1, 0);
      DivModUnique(m + 1, c, 1, 0);
    }
  }

  /** Round robin: the k-th submission (from 0) goes to queue k mod capacity. */
  lemma {:induction false} CursorAt(capacity: int, k: nat)
    requires capacity > 0
    ensures Cursor(capacity, k + 1) == k % capacity
  {
    if k == 0 {
      assert Cursor(capacity, 1) == (capacity - 1 + 1) % capacity;
    } else {
      CursorAt(capacity, k - 1);
      ModSucc(k - 1, capacity);
    }
  }

  /**
   * What a new service deals to queue `i` from the tasks submitted in order:
   * the n-th submission (from 1) goes to queue Cursor(capacity, n).
   */
  function Deal(capacity: int, tasks: seq<Task>, i: int): (r: seq<Task>)
    requires capacity > 0
    ensures |r| <= |tasks|
    ensures !(0 <= i < capacity) ==> r == []
  {
    if tasks == [] then []
    else
      var n := |tasks|;
      Deal(capacity, tasks[..n - 1], i) + (if Cursor(capacity, n) == i then [tasks[n - 1]] else [])
  }

  /**
   * After n submissions to a new service, queue i has received
   * n / capacity tasks, plus one for the first n mod capacity queues: every
   * queue gets the floor or the ceiling of n / capacity.
   */
  lemma {:induction false} DealtEvenly(capacity: int, tasks: seq<Task>, i: int)
    requires capacity > 0 && 0 <= i < capacity
    ensures |Deal(capacity, tasks, i)| == |tasks| / capacity + (if i < |tasks| % capacity then 1 else 0)
  {
    var n := |tasks|;
    if n > 0 {
      DealtEvenly(capacity, tasks[..n - 1], i);
      CursorAt(capacity, n - 1);
      ModSucc(n - 1, capacity);
    }
  }

  /** The per-worker queues of one executor, indexed by worker id. */
  class QueuePool {
    const capacity: nat
    const queues: seq<UnBoundedDEQueue>
    ghost var Contents: seq<seq<Task>>  // the pool state: each queue's contents, by worker id
    ghost var Repr: set<object>

    /** Every queue is valid and the queues' footprints are pairwise disjoint. */
    ghost predicate Valid()
      reads this, Repr
      ensures Valid() ==> this in Repr
    {
      && this in Repr
      && |queues| == capacity
      && (forall i :: 0 <= i < capacity ==>
            queues[i] in Repr && queues[i].Repr <= Repr && this !in queues[i].Repr && queues[i].Valid())
      && (forall i, j :: 0 <= i < j < capacity ==> queues[i].Repr !! queues[j].Repr)
      && |Contents| == capacity
      && (forall i :: 0 <= i < capacity ==> Contents[i] == queues[i].Contents)
    }

    /** `capacity` new, empty queues (the queue-creating loop of both constructors). */
    constructor (capacity: nat)
      ensures Valid() && fresh(Repr)
      ensures this.capacity == capacity
      ensures forall i :: 0 <= i < capacity ==> Contents[i] == []
    {
      var qs: seq<UnBoundedDEQueue> := [];
      ghost var r: set<object> := {};
      var i := 0;
      while i < capacity
        invariant 0 <= i <= capacity && |qs| == i
        invariant fresh(r)
        invariant forall k :: 0 <= k < i ==>
                    qs[k] in r && qs[k].Repr <= r && qs[k].Valid() && qs[k].Contents == []
        invariant forall k, l :: 0 <= k < l < i ==> qs[k].Repr !! qs[l].Repr
      {
        var q := new UnBoundedDEQueue();
        qs := qs + [q];
        r := r + q.Repr;
        i := i + 1;
      }
      this.capacity := capacity;
      queues := qs;
      Contents := seq(capacity, k => []);
      Repr := {this} + r;
    }

    method PushBottom(i: nat, task: Task)
      requires Valid() && i < capacity
      modifies Repr
      ensures Valid() && fresh(Repr - old(Repr))
      ensures Contents == old(Contents)[i := old(Contents)[i] + [task]]
    {
      queues[i].PushBottom(task);
      Contents := Contents[i := queues[i].Contents];
      Repr := Repr + queues[i].Repr;
      assert forall j :: 0 <= j < capacity && j != i ==> queues[j].Repr == old(queues[j].Repr);
    }

    method PopBottom(i: nat) returns (task: Option<Task>)
      requires Valid() && i < capacity
      modifies Repr
      ensures Valid() && Repr == old(Repr)
      ensures old(Contents)[i] == [] ==> task == None && Contents == old(Contents)
      ensures old(Contents)[i] != [] ==>
                var n := |old(Contents)[i]| - 1;
                task == Some(old(Contents)[i][n]) && Contents == old(Contents)[i := old(Contents)[i][..n]]
    {
      task := queues[i].PopBottom();
      Contents := Contents[i := queues[i].Contents];
      assert forall j :: 0 <= j < capacity && j != i ==> queues[j].Repr == old(queues[j].Repr);
    }

    method PopTop(i: nat) returns (task: Option<Task>)
      requires Valid() && i < capacity
      modifies Repr
      ensures Valid() && Repr == old(Repr)
      ensures old(Contents)[i] == [] ==> task == None && Contents == old(Contents)
      ensures old(Contents)[i] != [] ==>
                task == Some(old(Contents)[i][0]) && Contents == old(Contents)[i := old(Contents)[i][1..]]
    {
      task := queues[i].PopTop();
      Contents := Contents[i := queues[i].Contents];
      assert forall j :: 0 <= j < capacity && j != i ==> queues[j].Repr == old(queues[j].Repr);
    }

    /** isWorkPoolEmpty: a scan that stops at the first non-empty queue. */
    method IsWorkPoolEmpty() returns (empty: bool)
      requires Valid()
      ensures empty <==> forall i :: 0 <= i < capacity ==> Contents[i] == []
      ensures empty <==> AllTasks(Contents) == multiset{}
    {
      EmptyPoolHasNoTasks(Contents);
      var i := 0;
      while i < capacity
        invariant 0 <= i <= capacity
        invariant forall k :: 0 <= k < i ==> queues[k].Contents == []
      {
        if !queues[i].IsEmpty() {
          return false;
        }
        i := i + 1;
      }
      return true;
    }
  }
}
