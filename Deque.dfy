/**
 * The unbounded double-ended task queue of concurrent/unbounded.go.
 *
 * The queue is a doubly-linked list of nodes: `tail` is the top end, `head`
 * the bottom end, and `size` counts the nodes. Reading the list from top to
 * bottom follows the `next` links; `prev` links go the other way. The ghost
 * sequence `Nodes` lists the nodes from top to bottom and `Contents` their
 * tasks, so `Contents[0]` is the top (oldest) task and the last element of
 * `Contents` the bottom (most recently pushed) one.
 *
 * The mutex that guards every operation is not modelled: each method is one
 * atomic step.
 */
module Deque {

  /** An opaque task handle; the queue only transports it. */
  datatype Task = Task(handle: nat)

  /** A task, or nothing where the source returns nil. */
  datatype Option<T> = None | Some(value: T)

  class Node {
    var task: Task
    var next: Node?
    var prev: Node?

    constructor (task: Task)
      ensures this.task == task && next == null && prev == null
    {
      this.task := task;
      next := null;
      prev := null;
    }
  }

  class UnBoundedDEQueue {
    var head: Node?  // bottom end
    var tail: Node?  // top end
    var size: int

    ghost var Nodes: seq<Node>     // from top (tail) to bottom (head)
    ghost var Contents: seq<Task>  // the tasks of Nodes, in the same order
    ghost var Repr: set<object>

    /** The list is linked both ways, acyclic, counted by size, and framed by Repr. */
    ghost predicate Valid()
      reads this, Repr
      ensures Valid() ==> this in Repr
    {
      && this in Repr
      && (forall i :: 0 <= i < |Nodes| ==> Nodes[i] in Repr)
      && size == |Nodes| == |Contents|
      && (forall i :: 0 <= i < |Nodes| ==> Nodes[i].task == Contents[i])
      && (forall i, j :: 0 <= i < j < |Nodes| ==> Nodes[i] != Nodes[j])
      && (forall i :: 0 <= i < |Nodes| - 1 ==> Nodes[i].next == Nodes[i + 1])
      && (forall i :: 0 < i < |Nodes| ==> Nodes[i].prev == Nodes[i - 1])
      && (|Nodes| == 0 ==> head == null && tail == null)
      && (|Nodes| > 0 ==>
            && tail == Nodes[0] && tail.prev == null
            && head == Nodes[|Nodes| - 1] && head.next == null)
    }

    /** NewUnBoundedDEQueue: no nodes and size 0. */
    constructor ()
      ensures Valid() && fresh(Repr)
      ensures Contents == [] && size == 0 && head == null && tail == null
    {
      head := null;
      tail := null;
      size := 0;
      Nodes := [];
      Contents := [];
      Repr := {this};
    }

    /** Links a new node below the current head; the new task is the bottom element. */
    method PushBottom(task: Task)
      requires Valid()
      modifies Repr
      ensures Valid() && fresh(Repr - old(Repr))
      ensures Contents == old(Contents) + [task]
      ensures size == old(size) + 1
      ensures head != null && head.task == task
    {
      var node := new Node(task);
      size := size + 1;
      if head == null {
        head := node;
        tail := node;
      } else {
        head.next := node;
        node.prev := head;
        head := node;
      }
      Nodes := Nodes + [node];
      Contents := Contents + [task];
      Repr := Repr + {node};
    }

    /**
     * Unlinks the bottom node and returns its task, the most recently pushed;
     * on an empty queue returns nothing and changes nothing.
     */
    method PopBottom() returns (task: Option<Task>)
      requires Valid()
      modifies Repr
      ensures Valid() && Repr == old(Repr)
      ensures old(Contents) == [] ==> task == None && unchanged(this)
      ensures old(Contents) != [] ==>
                && task == Some(old(Contents)[|old(Contents)| - 1])
                && Contents == old(Contents)[..|old(Contents)| - 1]
                && size == old(size) - 1
      ensures Contents == [] ==> head == null && tail == null
    {
      if size == 0 {
        return None;
      }
      size := size - 1;
      if head == tail {
        var t := head.task;
        head := null;
        tail := null;
        Nodes := [];
        Contents := [];
        return Some(t);
      }
      assert |Nodes| > 1 && head.prev == Nodes[|Nodes| - 2];
      var t := head.task;
      head := head.prev;
      head.next := null;
      Nodes := Nodes[..|Nodes| - 1];
      Contents := Contents[..|Contents| - 1];
      return Some(t);
    }

    /**
     * Unlinks the top node and returns its task, the oldest one; on an empty
     * queue returns nothing and changes nothing.
     */
    method PopTop() returns (task: Option<Task>)
      requires Valid()
      modifies Repr
      ensures Valid() && Repr == old(Repr)
      ensures old(Contents) == [] ==> task == None && unchanged(this)
      ensures old(Contents) != [] ==>
                && task == Some(old(Contents)[0])
                && Contents == old(Contents)[1..]
                && size == old(size) - 1
      ensures Contents == [] ==> head == null && tail == null
    {
      if size == 0 {
        return None;
      }
      size := size - 1;
      if head == tail {
        var t := tail.task;
        head := null;
        tail := null;
        Nodes := [];
        Contents := [];
        return Some(t);
      }
      assert |Nodes| > 1 && tail.next == Nodes[1];
      var t := tail.task;
      tail := tail.next;
      tail.prev := null;
      Nodes := Nodes[1..];
      Contents := Contents[1..];
      return Some(t);
    }

    predicate IsEmpty()
      reads this, Repr
      requires Valid()
      ensures IsEmpty() <==> Contents == []
    {
      size == 0
    }

    function Size(): (n: int)
      reads this, Repr
      requires Valid()
      ensures n == |Contents| && n >= 0
    {
      size
    }
  }

  /** The reverse of a sequence of tasks. */
  function Reverse(s: seq<Task>): (r: seq<Task>)
    ensures |r| == |s|
  {
    if s == [] then [] else Reverse(s[1..]) + [s[0]]
  }

  lemma {:induction false} ReverseAppend(s: seq<Task>, t: Task)
    ensures Reverse(s + [t]) == [t] + Reverse(s)
  {
    if s != [] {
      assert (s + [t])[1..] == s[1..] + [t];
      ReverseAppend(s[1..], t);
    } else {
      assert [t][1..] == [];
    }
  }

  /**
   * The driver of test.go: after pushing 1, 2, 3, PopTop yields 1 and
   * PopBottom yields 3; the one task left is 2, after which the queue is empty.
   */
  method Driver() returns (top: Option<Task>, bottom: Option<Task>, left: Option<Task>, empty: bool)
    ensures top == Some(Task(1)) && bottom == Some(Task(3)) && left == Some(Task(2)) && empty
  {
    var q := new UnBoundedDEQueue();
    q.PushBottom(Task(1));
    q.PushBottom(Task(2));
    q.PushBottom(Task(3));
    top := q.PopTop();
    bottom := q.PopBottom();
    left := q.PopTop();
    empty := q.IsEmpty();
  }

  /**
   * Pushing at the bottom and popping at the top until nil is first in,
   * first out: the tasks come back in the order they were pushed.
   */
  method DrainTop(ts: seq<Task>) returns (out: seq<Task>)
    ensures out == ts
  {
    var q := new UnBoundedDEQueue();
    var i := 0;
    while i < |ts|
      invariant 0 <= i <= |ts|
      invariant q.Valid() && fresh(q.Repr)
      invariant q.Contents == ts[..i]
    {
      q.PushBottom(ts[i]);
      i := i + 1;
    }
    assert ts[..i] == ts;
    out := [];
    var t := q.PopTop();
    while t.Some?
      invariant q.Valid() && fresh(q.Repr)
      invariant t.None? ==> q.Contents == [] && out == ts
      invariant t.Some? ==> out + [t.value] + q.Contents == ts
      decreases |q.Contents|, t.Some?
    {
      out := out + [t.value];
      t := q.PopTop();
    }
  }

  /**
   * Pushing at the bottom and popping at the bottom until nil is last in,
   * first out: the tasks come back in reverse order.
   */
  method DrainBottom(ts: seq<Task>) returns (out: seq<Task>)
    ensures out == Reverse(ts)
  {
    var q := new UnBoundedDEQueue();
    var i := 0;
    while i < |ts|
      invariant 0 <= i <= |ts|
      invariant q.Valid() && fresh(q.Repr)
      invariant q.Contents == ts[..i]
    {
      q.PushBottom(ts[i]);
      i := i + 1;
    }
    assert ts[..i] == ts;
    out := [];
    var t := q.PopBottom();
    if t.Some? {
      assert ts == q.Contents + [t.value];
      ReverseAppend(q.Contents, t.value);
    }
    while t.Some?
      invariant q.Valid() && fresh(q.Repr)
      invariant t.None? ==> q.Contents == [] && out == Reverse(ts)
      invariant t.Some? ==> Reverse(ts) == out + [t.value] + Reverse(q.Contents)
      decreases |q.Contents|, t.Some?
    {
      out := out + [t.value];
      ghost var before := q.Contents;
      t := q.PopBottom();
      if t.Some? {
        assert before == q.Contents + [t.value];
        ReverseAppend(q.Contents, t.value);
      }
    }
  }
}
