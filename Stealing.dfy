/**
 * The work-stealing executor of concurrent/stealing.go, as single steps.
 *
 * The shared context (sharedContextST) is a Pool.QueuePool. A worker's
 * `work` loop is modelled by one iteration of its body (WorkIteration) and by
 * its loop test (KeepWorking); the goroutines, the wait group and the locks
 * are not modelled. The random index that getVictim draws is a parameter.
 */
module Stealing {
  import opened Deque
  import opened Pool

  /** The ids in [0, n) other than `id`, in ascending order. */
  function OtherIds(n: nat, id: int): (r: seq<int>)
    ensures forall v :: v in r <==> 0 <= v < n && v != id
    ensures forall k :: 0 <= k < |r| ==> 0 <= r[k] < n && r[k] != id
    ensures forall a, b :: 0 <= a < b < |r| ==> r[a] < r[b]
    ensures |r| == if 0 <= id < n then n - 1 else n
  {
    if n == 0 then []
    else
      var prefix := OtherIds(n - 1, id);
      prefix + (if n - 1 != id then [n - 1] else [])
  }

  /**
   * The loop of NewWorkerST and of steal: appends every id in [0, capacity)
   * other than `id`, in ascending order.
   */
  method AppendOtherIds(victims: seq<int>, capacity: nat, id: int) returns (r: seq<int>)
    ensures r == victims + OtherIds(capacity, id)
  {
    r := victims;
    var i := 0;
    while i < capacity
      invariant 0 <= i <= capacity
      invariant r == victims + OtherIds(i, id)
    {
      if i != id {
        r := r + [i];
      }
      i := i + 1;
    }
  }

  /** The options left once the entry at index k is drawn. */
  function RemoveAt(s: seq<int>, k: nat): (r: seq<int>)
    requires k < |s|
    ensures |r| == |s| - 1
    ensures forall j :: 0 <= j < |r| ==> r[j] == if j < k then s[j] else s[j + 1]
    ensures multiset(r) + multiset{s[k]} == multiset(s)
  {
    assert s == s[..k] + [s[k]] + s[k + 1..];
    s[..k] + s[k + 1..]
  }

  /** No id occurs twice. */
  predicate Distinct(s: seq<int>)
  {
    forall a, b :: 0 <= a < b < |s| ==> s[a] != s[b]
  }

  /**
   * Sampling without replacement: from duplicate-free options, drawing index
   * k leaves duplicate-free options without the drawn id, and every other
   * option is kept.
   */
  lemma RemoveAtSamplesWithoutReplacement(s: seq<int>, k: nat)
    requires k < |s| && Distinct(s)
    ensures Distinct(RemoveAt(s, k))
    ensures s[k] !in RemoveAt(s, k)
    ensures forall v :: v in s && v != s[k] ==> v in RemoveAt(s, k)
  {
    var r := RemoveAt(s, k);
    forall v | v in s && v != s[k] ensures v in r {
      var j :| 0 <= j < |s| && s[j] == v;
      assert r[if j < k then j else j - 1] == v;
    }
  }

  /**
   * After a successful steal the options do not go back to "all peers": the
   * peers are appended to what is left, so the list grows by capacity - 2,
   * still names exactly the peers and never the worker itself, and holds a
   * peer twice as soon as an untried option was left.
   */
  lemma RefillAppends(options: seq<int>, k: nat, capacity: nat, id: int)
    requires k < |options| && 0 <= id < capacity
    requires forall j :: 0 <= j < |options| ==> 0 <= options[j] < capacity && options[j] != id
    ensures var r := RemoveAt(options, k) + OtherIds(capacity, id);
      && |r| == |options| + capacity - 2
      && (forall v :: v in r <==> 0 <= v < capacity && v != id)
      && (|options| > 1 ==> !Distinct(r))
  {
    var rest := RemoveAt(options, k);
    var r := rest + OtherIds(capacity, id);
    assert forall v :: v in rest ==> v in options by {
      forall v | v in rest ensures v in options {
        assert v in multiset(rest);
      }
    }
    if |options| > 1 {
      assert rest[0] in options;
      var i :| 0 <= i < |options| && options[i] == rest[0];
      assert rest[0] in OtherIds(capacity, id);
      var j :| 0 <= j < |OtherIds(capacity, id)| && OtherIds(capacity, id)[j] == rest[0];
      assert r[0] == r[|rest| + j];
    }
  }

  /** Capacity 3, worker 0, options [1, 2]: stealing from 1 leaves [2, 1, 2]. */
  lemma RefillExample()
    ensures RemoveAt([1, 2], 0) + OtherIds(3, 0) == [2, 1, 2]
  {
    assert OtherIds(3, 0) == [1, 2];
  }

  /** stealingPolicy: the worker's queue is empty and the victim's is not. */
  predicate StealingPolicy(smallQueue: UnBoundedDEQueue, largeQueue: UnBoundedDEQueue)
    reads smallQueue, smallQueue.Repr, largeQueue, largeQueue.Repr
    requires smallQueue.Valid() && largeQueue.Valid()
    ensures StealingPolicy(smallQueue, largeQueue) <==> smallQueue.Contents == [] && largeQueue.Contents != []
  {
    smallQueue.IsEmpty() && !largeQueue.IsEmpty()
  }

  /**
   * The pool after one steal from the victim at index `draw` of the options:
   * when the worker's queue is empty and the victim's is not, the victim's
   * bottom task moves to the worker's queue; otherwise nothing changes.
   */
  function StealPool(pool: seq<seq<Task>>, options: seq<int>, id: nat, draw: nat): (r: seq<seq<Task>>)
    requires id < |pool| && draw < |options| && 0 <= options[draw] < |pool| && options[draw] != id
    ensures |r| == |pool|
    ensures r != pool ==> pool[id] == [] && pool[options[draw]] != []
  {
    var victim := options[draw];
    if pool[id] == [] && pool[victim] != [] then MoveBottom(pool, victim, id) else pool
  }

  /** The options after one steal: the drawn one is gone, and a successful steal appends the peers. */
  function StealOptions(pool: seq<seq<Task>>, options: seq<int>, id: nat, draw: nat): (r: seq<int>)
    requires id < |pool| && draw < |options| && 0 <= options[draw] < |pool|
    ensures var victim := options[draw];
      |r| == |options| - 1 + (if pool[id] == [] && pool[victim] != [] then |pool| - 1 else 0)
    ensures forall j :: 0 <= j < |options| - 1 ==> r[j] == if j < draw then options[j] else options[j + 1]
  {
    var victim := options[draw];
    RemoveAt(options, draw) + (if pool[id] == [] && pool[victim] != [] then OtherIds(|pool|, id) else [])
  }

  /**
   * A steal creates and loses no task; when it succeeds the worker's queue
   * holds exactly the victim's former bottom task, the victim loses just
   * that task, and no other queue changes.
   */
  lemma StealConserves(pool: seq<seq<Task>>, options: seq<int>, id: nat, draw: nat)
    requires id < |pool| && draw < |options| && 0 <= options[draw] < |pool| && options[draw] != id
    ensures var r := StealPool(pool, options, id, draw);
      var victim := options[draw];
      && |r| == |pool|
      && AllTasks(r) == AllTasks(pool)
      && (pool[id] == [] && pool[victim] != [] ==>
            && r[id] == [pool[victim][|pool[victim]| - 1]]
            && r[victim] == pool[victim][..|pool[victim]| - 1])
      && (forall k :: 0 <= k < |pool| && k != id && k != victim ==> r[k] == pool[k])
  {
    var victim := options[draw];
    if pool[id] == [] && pool[victim] != [] {
      MoveBottomConserves(pool, victim, id);
    }
  }

  class WorkerST {
    const id: int
    const context: QueuePool
    var workRemaining: bool
    var victimOptions: seq<int>

    /** The worker's id is a queue index and it never lists itself as a victim. */
    ghost predicate Valid()
      reads this, context, context.Repr
    {
      && context.Valid()
      && this !in context.Repr
      && 0 <= id < context.capacity
      && (forall k :: 0 <= k < |victimOptions| ==>
            0 <= victimOptions[k] < context.capacity && victimOptions[k] != id)
    }

    /** NewWorkerST: every id but its own is a victim option, in ascending order. */
    constructor (id: int, context: QueuePool)
      requires context.Valid() && 0 <= id < context.capacity
      ensures Valid()
      ensures this.id == id && this.context == context && workRemaining
      ensures victimOptions == OtherIds(context.capacity, id)
    {
      this.id := id;
      this.context := context;
      workRemaining := true;
      var victims := AppendOtherIds([], context.capacity, id);
      victimOptions := victims;
    }

    /** getVictim: takes the option at the drawn index out of the list. */
    method GetVictim(draw: int) returns (victim: int)
      requires Valid() && 0 <= draw < |victimOptions|
      modifies this
      ensures Valid() && workRemaining == old(workRemaining)
      ensures victim == old(victimOptions)[draw]
      ensures victimOptions == RemoveAt(old(victimOptions), draw)
      ensures 0 <= victim < context.capacity && victim != id
    {
      victim := victimOptions[draw];
      victimOptions := RemoveAt(victimOptions, draw);
    }

    /**
     * steal: when the worker's queue is empty and the victim's is not, the
     * victim's bottom task becomes the worker's bottom task and the peers are
     * appended to the options again; otherwise no queue changes.
     */
    method Steal(draw: int)
      requires Valid() && 0 <= draw < |victimOptions|
      modifies this, context.Repr
      ensures Valid() && fresh(context.Repr - old(context.Repr))
      ensures workRemaining == old(workRemaining)
      ensures context.Contents == StealPool(old(context.Contents), old(victimOptions), id, draw)
      ensures victimOptions == StealOptions(old(context.Contents), old(victimOptions), id, draw)
    {
      var victimIdx := GetVictim(draw);
      StealFrom(victimIdx);
    }

    /**
     * The body of steal once the victim is drawn: the stealing policy, the
     * move of one task from the victim's bottom, and the refill of the options.
     */
    method StealFrom(victim: int)
      requires Valid() && 0 <= victim < context.capacity && victim != id
      modifies this, context.Repr
      ensures Valid() && fresh(context.Repr - old(context.Repr))
      ensures workRemaining == old(workRemaining)
      ensures old(context.Contents[id] == [] && context.Contents[victim] != []) ==>
                && context.Contents == MoveBottom(old(context.Contents), victim, id)
                && victimOptions == old(victimOptions) + OtherIds(context.capacity, id)
      ensures !old(context.Contents[id] == [] && context.Contents[victim] != []) ==>
                context.Contents == old(context.Contents) && victimOptions == old(victimOptions)
    {
      ghost var pool := context.Contents;
      if StealingPolicy(context.queues[id], context.queues[victim]) {
        var job := context.PopBottom(victim);
        if job.Some? {
          // The refill touches only this worker, the push only the pool: the
          // order of the two is immaterial.
          victimOptions := AppendOtherIds(victimOptions, context.capacity, id);
          context.PushBottom(id, job.value);
          assert context.Contents == MoveBottom(pool, victim, id);
        }
      }
    }

    /**
     * The inner loop of work: pop the worker's own queue from the top until
     * it returns nil. Each popped task is run if it is Runnable; the tasks
     * come out in queue order, oldest first.
     */
    method RunOwnTasks() returns (popped: seq<Task>)
      requires Valid()
      modifies context.Repr
      ensures Valid() && context.Repr == old(context.Repr)
      ensures popped == old(context.Contents)[id]
      ensures context.Contents == old(context.Contents)[id := []]
    {
      ghost var start := context.Contents;
      popped := [];
      var workerTask := context.PopTop(id);
      while workerTask.Some?
        invariant Valid() && context.Repr == old(context.Repr)
        invariant |context.Contents| == |start|
        invariant forall k :: 0 <= k < |start| && k != id ==> context.Contents[k] == start[k]
        invariant workerTask.None? ==> context.Contents[id] == [] && popped == start[id]
        invariant workerTask.Some? ==> popped + [workerTask.value] + context.Contents[id] == start[id]
        decreases |context.Contents[id]|, workerTask.Some?
      {
        popped := popped + [workerTask.value];
        workerTask := context.PopTop(id);
      }
      assert context.Contents == start[id := []];
    }

    /**
     * One iteration of work: run the worker's own queue dry, then, when
     * there are peers and untried options, attempt one steal. Every task of
     * the pool is either popped or still queued.
     */
    method WorkIteration(draw: int) returns (popped: seq<Task>)
      requires Valid()
      requires context.capacity > 1 && |victimOptions| > 0 ==> 0 <= draw < |victimOptions|
      modifies this, context.Repr
      ensures Valid() && fresh(context.Repr - old(context.Repr))
      ensures workRemaining == old(workRemaining)
      ensures popped == old(context.Contents)[id]
      ensures var drained := old(context.Contents)[id := []];
        if context.capacity > 1 && |old(victimOptions)| > 0 then
          && context.Contents == StealPool(drained, old(victimOptions), id, draw)
          && victimOptions == StealOptions(drained, old(victimOptions), id, draw)
        else
          && context.Contents == drained
          && victimOptions == old(victimOptions)
    {
      ghost var start := context.Contents;
      popped := RunOwnTasks();
      ghost var drained := context.Contents;
      if context.capacity > 1 && |victimOptions| > 0 {
        ghost var options := victimOptions;
        Steal(draw);
        assert context.Contents == StealPool(drained, options, id, draw);
      }
    }

    /** The test of the work loop: more work may arrive, or some queue is non-empty. */
    method KeepWorking() returns (b: bool)
      requires Valid()
      ensures b <==> workRemaining || exists i :: 0 <= i < context.capacity && context.Contents[i] != []
    {
      if workRemaining {
        return true;
      }
      var empty := context.IsWorkPoolEmpty();
      b := !empty;
    }
  }

  /**
   * A work iteration creates and loses no task: every task the pool held is
   * either one of those popped from the worker's queue or still queued.
   */
  lemma WorkIterationConserves(pool: seq<seq<Task>>, options: seq<int>, id: nat, draw: nat, steal: bool)
    requires id < |pool|
    requires steal ==> draw < |options| && 0 <= options[draw] < |pool| && options[draw] != id
    ensures var drained := pool[id := []];
      var final := if steal then StealPool(drained, options, id, draw) else drained;
      AllTasks(pool) == AllTasks(final) + multiset(pool[id])
  {
    var drained := pool[id := []];
    AllTasksUpdate(pool, id, []);
    if steal {
      StealConserves(drained, options, id, draw);
    }
  }

  /** The service: round-robin submission and shutdown. */
  class Stealer {
    const workers: seq<WorkerST>
    var done: bool
    var prevDistributee: int
    const context: QueuePool

    /** Worker i owns queue i, and the cursor is a queue index once there is a queue. */
    ghost predicate Valid()
      reads this, workers, context, context.Repr
    {
      && context.Valid()
      && this !in context.Repr
      && |workers| == context.capacity
      && (forall i :: 0 <= i < |workers| ==>
            workers[i].id == i && workers[i].context == context && workers[i].Valid())
      && (context.capacity > 0 ==> 0 <= prevDistributee < context.capacity)
    }

    /**
     * NewWorkStealingExecutor: `capacity` empty queues and their workers, the
     * cursor on the last queue. The threshold is accepted and not used.
     */
    constructor (capacity: nat, threshold: int)
      ensures Valid() && fresh(context.Repr) && fresh(workers)
      ensures context.capacity == capacity && !done && prevDistributee == capacity - 1
      ensures forall i :: 0 <= i < capacity ==>
                && context.Contents[i] == []
                && workers[i].workRemaining
                && workers[i].victimOptions == OtherIds(capacity, i)
    {
      var ctx := new QueuePool(capacity);
      var ws: seq<WorkerST> := [];
      var i := 0;
      while i < capacity
        invariant 0 <= i <= capacity && |ws| == i && fresh(ws)
        invariant ctx.Valid() && fresh(ctx.Repr) && ctx.capacity == capacity
        invariant forall k :: 0 <= k < capacity ==> ctx.Contents[k] == []
        invariant forall k :: 0 <= k < i ==>
                    && ws[k].id == k && ws[k].context == ctx && ws[k].Valid()
                    && ws[k].workRemaining && ws[k].victimOptions == OtherIds(capacity, k)
      {
        var w := new WorkerST(i, ctx);
        ws := ws + [w];
        i := i + 1;
      }
      workers := ws;
      context := ctx;
      done := false;
      prevDistributee := capacity - 1;
    }

    /** nextDistributee: advances the cursor to the next queue, cyclically. */
    method NextDistributee() returns (d: int)
      requires Valid() && context.capacity > 0
      modifies this
      ensures Valid() && done == old(done)
      ensures d == Next(old(prevDistributee), context.capacity) && prevDistributee == d
    {
      prevDistributee := (prevDistributee + 1) % context.capacity;
      d := prevDistributee;
    }

    /**
     * Submit: after shutdown, returns nothing and changes nothing; otherwise
     * pushes the task at the bottom of the next queue in round-robin order
     * and returns it as its future.
     */
    method Submit(task: Task) returns (future: Option<Task>)
      requires Valid()
      requires !done ==> context.capacity > 0
      modifies this, context.Repr
      ensures Valid() && fresh(context.Repr - old(context.Repr)) && done == old(done)
      ensures old(done) ==>
                && future == None
                && context.Contents == old(context.Contents)
                && prevDistributee == old(prevDistributee)
      ensures !old(done) ==>
                var d := Next(old(prevDistributee), context.capacity);
                && future == Some(task)
                && prevDistributee == d
                && context.Contents == old(context.Contents)[d := old(context.Contents)[d] + [task]]
    {
      if done {
        return None;
      }
      var distributee := NextDistributee();
      context.PushBottom(distributee, task);
      return Some(task);
    }

    /**
     * Shutdown: clears every worker's workRemaining and marks the service
     * done; the queues and the victim options are untouched. Waiting for
     * the workers to exit is not modelled.
     */
    method Shutdown()
      requires Valid()
      modifies this, workers
      ensures Valid() && done && prevDistributee == old(prevDistributee)
      ensures forall i :: 0 <= i < |workers| ==>
                !workers[i].workRemaining && workers[i].victimOptions == old(workers[i].victimOptions)
      ensures context.Contents == old(context.Contents)
    {
      var i := 0;
      while i < |workers|
        invariant 0 <= i <= |workers|
        invariant Valid()
        invariant prevDistributee == old(prevDistributee)
        invariant forall k :: 0 <= k < i ==> !workers[k].workRemaining
        invariant forall k :: 0 <= k < |workers| ==> workers[k].victimOptions == old(workers[k].victimOptions)
      {
        workers[i].workRemaining := false;
        i := i + 1;
      }
      done := true;
    }
  }

  /**
   * Round robin on the service itself: a new service that is given `tasks`
   * in order deals them to the queues as Deal says, so every queue gets the
   * floor or the ceiling of |tasks| / capacity of them.
   */
  method SubmitAll(capacity: nat, tasks: seq<Task>) returns (s: Stealer)
    requires capacity > 0
    ensures s.Valid() && !s.done && s.prevDistributee == Cursor(capacity, |tasks|)
    ensures fresh(s) && fresh(s.context.Repr) && fresh(s.workers)
    ensures s.context.capacity == capacity
    ensures forall i :: 0 <= i < capacity ==>
              s.workers[i].workRemaining && s.workers[i].victimOptions == OtherIds(capacity, i)
    ensures forall i :: 0 <= i < capacity ==>
              && s.context.Contents[i] == Deal(capacity, tasks, i)
              && |s.context.Contents[i]| == |tasks| / capacity + (if i < |tasks| % capacity then 1 else 0)
  {
    s := new Stealer(capacity, 0);
    var k := 0;
    label Built:
    while k < |tasks|
      invariant 0 <= k <= |tasks|
      invariant s.Valid() && !s.done && s.context.capacity == capacity
      invariant fresh(s) && fresh(s.context.Repr) && fresh(s.workers)
      invariant unchanged@Built(s.workers)
      invariant s.prevDistributee == Cursor(capacity, k)
      invariant forall i :: 0 <= i < capacity ==> s.context.Contents[i] == Deal(capacity, tasks[..k], i)
    {
      var future := s.Submit(tasks[k]);
      assert tasks[..k + 1][..k] == tasks[..k];
      k := k + 1;
    }
    assert tasks[..|tasks|] == tasks;
    forall i | 0 <= i < capacity
      ensures |Deal(capacity, tasks, i)| == |tasks| / capacity + (if i < |tasks| % capacity then 1 else 0)
    {
      DealtEvenly(capacity, tasks, i);
    }
  }
}
