/**
 * The work-balancing executor of concurrent/balancing.go, as single steps.
 *
 * A worker pops one task from the top of its own queue per iteration and,
 * with probability 1/(n+1) for a queue left with n tasks, balances its queue
 * against a random peer: tasks move from the bottom of the larger queue to
 * the bottom of the smaller one while the size gap is at least the balancing
 * threshold. The random numbers are parameters. The goroutines, the wait
 * group and the locks are not modelled.
 *
 * The balancing loop of the source does not stop when the larger queue runs
 * dry; this model's Balance does (see BalanceAsWrittenSpins).
 */
module Balancing {
  import opened Deque
  import opened Pool

  /** The two queues of one balance, the designated smaller one first. */
  datatype Queues = Queues(small: seq<Task>, large: seq<Task>)

  /** The size gap that balancePolicy compares with the threshold. */
  function Gap(q: Queues): int
  {
    |q.large| - |q.small|
  }

  /** One round: the larger queue's bottom task becomes the smaller queue's bottom task. */
  function MoveOne(q: Queues): (r: Queues)
    requires q.large != []
    ensures |r.large| == |q.large| - 1 && |r.small| == |q.small| + 1 && Gap(r) == Gap(q) - 2
  {
    var n := |q.large| - 1;
    Queues(q.small + [q.large[n]], q.large[..n])
  }

  /**
   * The balancing loop, from the contents of the two queues: while the gap is
   * at least threshold and the larger queue is non-empty, one task moves.
   */
  function Balanced(q: Queues, threshold: int): (r: Queues)
    ensures |r.large| <= |q.large|
    ensures Gap(r) < threshold || r.large == []
    ensures Gap(q) < threshold ==> r == q
    decreases |q.large|
  {
    if Gap(q) >= threshold && q.large != [] then Balanced(MoveOne(q), threshold) else q
  }

  /** The larger queue keeps a prefix of its tasks. */
  lemma {:induction false} BalancedKeepsPrefix(q: Queues, threshold: int)
    ensures var r := Balanced(q, threshold);
      |r.large| <= |q.large| && r.large == q.large[..|r.large|]
    decreases |q.large|
  {
    if Gap(q) >= threshold && q.large != [] {
      var q' := MoveOne(q);
      BalancedKeepsPrefix(q', threshold);
      var m := |Balanced(q', threshold).large|;
      assert q'.large[..m] == q.large[..m];
    }
  }

  /** The smaller queue keeps its tasks and receives the larger queue's removed suffix, bottom first. */
  lemma {:induction false} BalancedReceivesSuffix(q: Queues, threshold: int)
    ensures var r := Balanced(q, threshold);
      |r.large| <= |q.large| && r.small == q.small + Reverse(q.large[|r.large|..])
    decreases |q.large|
  {
    BalancedKeepsPrefix(q, threshold);
    if Gap(q) >= threshold && q.large != [] {
      var n := |q.large| - 1;
      var x := q.large[n];
      var q' := MoveOne(q);
      BalancedReceivesSuffix(q', threshold);
      var m := |Balanced(q', threshold).large|;
      assert q.large[m..] == q'.large[m..] + [x];
      ReverseAppend(q'.large[m..], x);
      assert q.small + Reverse(q.large[m..]) == q'.small + Reverse(q'.large[m..]);
    } else {
      assert q.large[|q.large|..] == [];
    }
  }

  lemma {:induction false} ReversePreservesMultiset(s: seq<Task>)
    ensures multiset(Reverse(s)) == multiset(s)
  {
    if s != [] {
      ReversePreservesMultiset(s[1..]);
      assert s == [s[0]] + s[1..];
    }
  }

  /**
   * Balancing only moves tasks between the two bottoms: the larger queue
   * keeps a prefix of its tasks, the smaller queue keeps all of its tasks and
   * receives the removed suffix in reverse order, so no task is created or
   * lost.
   */
  lemma BalancedMovesSuffix(q: Queues, threshold: int)
    ensures var r := Balanced(q, threshold);
      && |r.large| <= |q.large|
      && r.large == q.large[..|r.large|]
      && r.small == q.small + Reverse(q.large[|r.large|..])
      && multiset(r.small) + multiset(r.large) == multiset(q.small) + multiset(q.large)
  {
    var r := Balanced(q, threshold);
    BalancedKeepsPrefix(q, threshold);
    BalancedReceivesSuffix(q, threshold);
    var m := |r.large|;
    var pre, suf := q.large[..m], q.large[m..];
    ReversePreservesMultiset(suf);
    assert multiset(r.small) == multiset(q.small) + multiset(suf);
    assert q.large == pre + suf;
    assert multiset(q.large) == multiset(pre) + multiset(suf);
  }

  /**
   * How many tasks a balance moves: one per round while the gap, which falls
   * by two per round, is at least threshold, and never more than the larger
   * queue holds.
   */
  lemma {:induction false} BalancedMoves(q: Queues, threshold: int)
    ensures var moved := |q.large| - |Balanced(q, threshold).large|;
      var rounds := if Gap(q) >= threshold then (Gap(q) - threshold) / 2 + 1 else 0;
      moved == if rounds <= |q.large| then rounds else |q.large|
    decreases |q.large|
  {
    if Gap(q) >= threshold && q.large != [] {
      var q' := MoveOne(q);
      BalancedMoves(q', threshold);
      if Gap(q) - threshold >= 2 {
        assert (Gap(q) - 2 - threshold) / 2 + 1 == (Gap(q) - threshold) / 2;
      }
    }
  }

  function Abs(x: int): nat
  {
    if x < 0 then -x else x
  }

  /**
   * With a positive threshold a balance leaves the gap below the threshold
   * and, when it moved anything, at least threshold - 2, and the pair never
   * ends more unbalanced than it started.
   */
  lemma BalancedGap(q: Queues, threshold: int)
    requires threshold >= 1
    ensures var g := Gap(Balanced(q, threshold));
      && g < threshold
      && (Gap(q) < threshold ==> Balanced(q, threshold) == q)
      && (Gap(q) >= threshold ==> threshold - 2 <= g)
      && Abs(g) <= Abs(Gap(q))
  {
    BalancedMoves(q, threshold);
    BalancedKeepsPrefix(q, threshold);
    BalancedReceivesSuffix(q, threshold);
    var r := Balanced(q, threshold);
    if Gap(q) >= threshold {
      var rounds := (Gap(q) - threshold) / 2 + 1;
      assert rounds <= |q.large|;
      assert |r.large| == |q.large| - rounds;
      assert |r.small| == |q.small| + rounds;
    }
  }

  /** The pool after balancing queue `small` against queue `large`. */
  function BalancePool(pool: seq<seq<Task>>, small: nat, large: nat, threshold: int): (r: seq<seq<Task>>)
    requires small < |pool| && large < |pool| && small != large
    ensures |r| == |pool| && |r[large]| <= |pool[large]|
    ensures |pool[large]| - |pool[small]| < threshold ==> r == pool
  {
    var r := Balanced(Queues(pool[small], pool[large]), threshold);
    pool[small := r.small][large := r.large]
  }

  /** Balancing two queues keeps every task of the pool and leaves the other queues alone. */
  lemma BalancePoolConserves(pool: seq<seq<Task>>, small: nat, large: nat, threshold: int)
    requires small < |pool| && large < |pool| && small != large
    ensures var r := BalancePool(pool, small, large, threshold);
      && |r| == |pool|
      && AllTasks(r) == AllTasks(pool)
      && (forall k :: 0 <= k < |pool| && k != small && k != large ==> r[k] == pool[k])
  {
    var q := Queues(pool[small], pool[large]);
    var b := Balanced(q, threshold);
    BalancedMovesSuffix(q, threshold);
    var mid := pool[small := b.small];
    var r := mid[large := b.large];
    AllTasksUpdate(pool, small, b.small);
    assert mid[large] == pool[large];
    AllTasksUpdate(mid, large, b.large);
    forall e: Task ensures AllTasks(r)[e] == AllTasks(pool)[e] {
      assert (AllTasks(mid) + multiset(pool[small]))[e] == (AllTasks(pool) + multiset(b.small))[e];
      assert (AllTasks(r) + multiset(pool[large]))[e] == (AllTasks(mid) + multiset(b.large))[e];
      assert (multiset(b.small) + multiset(b.large))[e] == (multiset(pool[small]) + multiset(pool[large]))[e];
    }
  }

  /** The as-written loop body of balance: pop the larger queue's bottom, push it if it is not nil. */
  function StepAsWritten(q: Queues): (r: Queues)
    ensures q.large == [] ==> r == q
    ensures q.large != [] ==> |r.large| == |q.large| - 1 && Gap(r) == Gap(q) - 2
    ensures multiset(r.small) + multiset(r.large) == multiset(q.small) + multiset(q.large)
  {
    if q.large == [] then q
    else
      var n := |q.large| - 1;
      assert q.large == q.large[..n] + [q.large[n]];
      MoveOne(q)
  }

  /** The as-written balance loop after at most `rounds` rounds; it leaves as soon as the policy fails. */
  function LoopAsWritten(q: Queues, threshold: int, rounds: nat): (r: Queues)
    ensures |r.large| <= |q.large|
    ensures Gap(q) < threshold ==> r == q
    ensures multiset(r.small) + multiset(r.large) == multiset(q.small) + multiset(q.large)
    decreases rounds
  {
    if rounds == 0 || Gap(q) < threshold then q else LoopAsWritten(StepAsWritten(q), threshold, rounds - 1)
  }

  /**
   * The source's loop spins: once the larger queue is empty while the gap is
   * still at least the threshold (both queues empty and a threshold of 0,
   * say), every round pops nil and changes nothing, so the policy holds after
   * any number of rounds and the loop never exits.
   */
  lemma {:induction false} BalanceAsWrittenSpins(q: Queues, threshold: int, rounds: nat)
    requires q.large == [] && Gap(q) >= threshold
    ensures LoopAsWritten(q, threshold, rounds) == q
    ensures Gap(LoopAsWritten(q, threshold, rounds)) >= threshold
  {
    if rounds > 0 {
      assert StepAsWritten(q) == q;
      BalanceAsWrittenSpins(q, threshold, rounds - 1);
    }
  }

  /** Worker 0 idle, its peer idle, threshold 0: the as-written loop is still running after any number of rounds. */
  lemma ZeroThresholdSpins(rounds: nat)
    ensures Gap(LoopAsWritten(Queues([], []), 0, rounds)) >= 0
  {
    BalanceAsWrittenSpins(Queues([], []), 0, rounds);
  }

  /**
   * With a positive threshold the nil branch is never taken and the source's
   * loop exits after exactly the rounds that Balanced performs, with the same
   * queues.
   */
  lemma {:induction false} BalancedAgreesWithSource(q: Queues, threshold: int)
    requires threshold >= 1
    ensures var moved := |q.large| - |Balanced(q, threshold).large|;
      && moved >= 0
      && LoopAsWritten(q, threshold, moved) == Balanced(q, threshold)
      && Gap(LoopAsWritten(q, threshold, moved)) < threshold
    decreases |q.large|
  {
    BalancedKeepsPrefix(q, threshold);
    if Gap(q) >= threshold {
      var q' := MoveOne(q);
      BalancedAgreesWithSource(q', threshold);
    }
  }

  /** Which queue is small and which large in one balance. */
  datatype Designation = Designation(small: nat, large: nat)

  /**
   * The ordering of balance: the pair is taken in id order, and the lower id
   * is the small queue only when its queue is strictly shorter.
   */
  function Designate(pool: seq<seq<Task>>, id: nat, victim: nat): (d: Designation)
    requires id < |pool| && victim < |pool| && id != victim
    ensures (d.small == id && d.large == victim) || (d.small == victim && d.large == id)
    ensures |pool[id]| != |pool[victim]| ==> |pool[d.small]| < |pool[d.large]|
    ensures |pool[id]| == |pool[victim]| ==> d.small > d.large
  {
    var min := if victim < id then victim else id;
    var max := if victim < id then id else victim;
    if |pool[min]| < |pool[max]| then Designation(min, max) else Designation(max, min)
  }

  /** Where the redraw loop stops: the index of the first draw that is not the worker's own id. */
  function FirstOtherAt(draws: seq<int>, id: int): (k: nat)
    requires exists k :: 0 <= k < |draws| && draws[k] != id
    ensures k < |draws| && draws[k] != id
    ensures forall j :: 0 <= j < k ==> draws[j] == id
  {
    if draws[0] != id then 0
    else
      assert forall k :: 0 <= k < |draws| - 1 ==> draws[1..][k] == draws[k + 1];
      1 + FirstOtherAt(draws[1..], id)
  }

  /** balancePolicy: the larger queue exceeds the smaller one by at least threshold tasks. */
  predicate BalancePolicy(smallQueue: UnBoundedDEQueue, largeQueue: UnBoundedDEQueue, threshold: int)
    reads smallQueue, smallQueue.Repr, largeQueue, largeQueue.Repr
    requires smallQueue.Valid() && largeQueue.Valid()
    ensures BalancePolicy(smallQueue, largeQueue, threshold) <==>
              Gap(Queues(smallQueue.Contents, largeQueue.Contents)) >= threshold
  {
    largeQueue.Size() - smallQueue.Size() >= threshold
  }

  /** sharedContextWB: the queues and the two thresholds. */
  class SharedContextWB {
    const pool: QueuePool
    const thresholdQueue: int
    const thresholdBalance: int

    constructor (capacity: nat, thresholdQueue: int, thresholdBalance: int)
      ensures pool.Valid() && fresh(pool.Repr) && pool.capacity == capacity
      ensures forall i :: 0 <= i < capacity ==> pool.Contents[i] == []
      ensures this.thresholdQueue == thresholdQueue && this.thresholdBalance == thresholdBalance
    {
      pool := new QueuePool(capacity);
      this.thresholdQueue := thresholdQueue;
      this.thresholdBalance := thresholdBalance;
    }
  }

  class WorkerWB {
    const id: int
    const context: SharedContextWB
    var workRemaining: bool

    /** The worker's id is a queue index. */
    ghost predicate Valid()
      reads this, context.pool, context.pool.Repr
    {
      && context.pool.Valid()
      && this !in context.pool.Repr
      && 0 <= id < context.pool.capacity
    }

    /** NewWorkerWB. */
    constructor (id: int, context: SharedContextWB)
      requires context.pool.Valid() && 0 <= id < context.pool.capacity
      ensures Valid() && this.id == id && this.context == context && workRemaining
    {
      this.id := id;
      this.context := context;
      workRemaining := true;
    }

    /**
     * getVictim: draws queue indices until one is not the worker's own; the
     * draws are given, and one of them must differ from the id.
     */
    method GetVictim(draws: seq<int>) returns (victim: int)
      requires Valid()
      requires forall k :: 0 <= k < |draws| ==> 0 <= draws[k] < context.pool.capacity
      requires exists k :: 0 <= k < |draws| && draws[k] != id
      ensures victim == draws[FirstOtherAt(draws, id)]
      ensures 0 <= victim < context.pool.capacity && victim != id
    {
      var k := 0;
      victim := draws[0];
      while victim == id
        invariant 0 <= k < |draws| && victim == draws[k]
        invariant forall j :: 0 <= j < k ==> draws[j] == id
        invariant k <= FirstOtherAt(draws, id)
        decreases |draws| - k
      {
        k := k + 1;
        victim := draws[k];
      }
    }

    /**
     * balance (with the loop stopping when the larger queue runs dry): the
     * two queues end as Balanced says, and no other queue changes.
     */
    method Balance(draws: seq<int>)
      requires Valid()
      requires forall k :: 0 <= k < |draws| ==> 0 <= draws[k] < context.pool.capacity
      requires exists k :: 0 <= k < |draws| && draws[k] != id
      modifies context.pool.Repr
      ensures Valid() && fresh(context.pool.Repr - old(context.pool.Repr))
      ensures var d := Designate(old(context.pool.Contents), id, draws[FirstOtherAt(draws, id)]);
        context.pool.Contents == BalancePool(old(context.pool.Contents), d.small, d.large, context.thresholdBalance)
    {
      var victim := GetVictim(draws);
      var min, max;
      if victim < id {
        min, max := victim, id;
      } else {
        min, max := id, victim;
      }
      var small, large;
      if context.pool.queues[min].Size() < context.pool.queues[max].Size() {
        small, large := min, max;
      } else {
        small, large := max, min;
      }
      BalancePair(small, large);
    }

    /** The loop of balance on the designated queues, stopping when the larger one runs dry. */
    method BalancePair(small: nat, large: nat)
      requires Valid() && small < context.pool.capacity && large < context.pool.capacity && small != large
      modifies context.pool.Repr
      ensures Valid() && fresh(context.pool.Repr - old(context.pool.Repr))
      ensures context.pool.Contents == BalancePool(old(context.pool.Contents), small, large, context.thresholdBalance)
    {
      ghost var start := context.pool.Contents;
      ghost var goal := Balanced(Queues(start[small], start[large]), context.thresholdBalance);
      while BalancePolicy(context.pool.queues[small], context.pool.queues[large], context.thresholdBalance)
        invariant Valid() && fresh(context.pool.Repr - old(context.pool.Repr))
        invariant |context.pool.Contents| == |start|
        invariant forall k :: 0 <= k < |start| && k != small && k != large ==> context.pool.Contents[k] == start[k]
        invariant Balanced(Queues(context.pool.Contents[small], context.pool.Contents[large]), context.thresholdBalance) == goal
        decreases |context.pool.Contents[large]|
      {
        ghost var before := Queues(context.pool.Contents[small], context.pool.Contents[large]);
        var job := context.pool.PopBottom(large);
        if job.None? {
          break;
        }
        context.pool.PushBottom(small, job.value);
        assert Queues(context.pool.Contents[small], context.pool.Contents[large]) == MoveOne(before);
      }
      assert context.pool.Contents == start[small := goal.small][large := goal.large];
    }

    /**
     * One iteration of work: pop one task from the top of the worker's own
     * queue; then, with more than one worker and when the draw from
     * [0, n] equals the n tasks still queued, balance against the first
     * drawn peer.
     */
    method WorkIteration(draw: int, draws: seq<int>) returns (popped: Option<Task>)
      requires Valid()
      requires 0 <= draw <= if context.pool.Contents[id] == [] then 0 else |context.pool.Contents[id]| - 1
      requires context.pool.capacity > 1 ==>
                 && (forall k :: 0 <= k < |draws| ==> 0 <= draws[k] < context.pool.capacity)
                 && (exists k :: 0 <= k < |draws| && draws[k] != id)
      modifies context.pool.Repr
      ensures Valid() && fresh(context.pool.Repr - old(context.pool.Repr))
      ensures var own := old(context.pool.Contents)[id];
        popped == if own == [] then None else Some(own[0])
      ensures var own := old(context.pool.Contents)[id];
        var after := if own == [] then old(context.pool.Contents) else old(context.pool.Contents)[id := own[1..]];
        if context.pool.capacity > 1 && draw == |after[id]| then
          var d := Designate(after, id, draws[FirstOtherAt(draws, id)]);
          context.pool.Contents == BalancePool(after, d.small, d.large, context.thresholdBalance)
        else
          context.pool.Contents == after
    {
      popped := context.pool.PopTop(id);
      var queueSize := context.pool.queues[id].Size();
      if context.pool.capacity > 1 && queueSize == draw {
        Balance(draws);
      }
    }

    /** The test of the work loop: more work may arrive, or some queue is non-empty. */
    method KeepWorking() returns (b: bool)
      requires Valid()
      ensures b <==> workRemaining || exists i :: 0 <= i < context.pool.capacity && context.pool.Contents[i] != []
    {
      if workRemaining {
        return true;
      }
      var empty := context.pool.IsWorkPoolEmpty();
      b := !empty;
    }
  }

  /**
   * A work iteration creates and loses no task: every task the pool held is
   * either the one popped or still queued.
   */
  lemma WorkIterationConserves(pool: seq<seq<Task>>, id: nat, balance: bool, victim: nat, threshold: int)
    requires id < |pool|
    requires balance ==> victim < |pool| && victim != id
    ensures var own := pool[id];
      var after := if own == [] then pool else pool[id := own[1..]];
      var final := if balance then
          var d := Designate(after, id, victim);
          BalancePool(after, d.small, d.large, threshold)
        else after;
      AllTasks(pool) == AllTasks(final) + (if own == [] then multiset{} else multiset{own[0]})
  {
    var own := pool[id];
    var after := if own == [] then pool else pool[id := own[1..]];
    if own != [] {
      AllTasksUpdate(pool, id, own[1..]);
      assert own == [own[0]] + own[1..];
      MultisetCancel(AllTasks(pool), AllTasks(after) + multiset{own[0]}, multiset(own[1..]));
    }
    if balance {
      var d := Designate(after, id, victim);
      BalancePoolConserves(after, d.small, d.large, threshold);
    }
  }

  /** The service: round-robin submission and shutdown. */
  class Balancer {
    const workers: seq<WorkerWB>
    var done: bool
    var prevDistributee: int
    const context: SharedContextWB

    /** Worker i owns queue i, and the cursor is a queue index once there is a queue. */
    ghost predicate Valid()
      reads this, workers, context.pool, context.pool.Repr
    {
      && context.pool.Valid()
      && this !in context.pool.Repr
      && |workers| == context.pool.capacity
      && (forall i :: 0 <= i < |workers| ==>
            workers[i].id == i && workers[i].context == context && workers[i].Valid())
      && (context.pool.capacity > 0 ==> 0 <= prevDistributee < context.pool.capacity)
    }

    /** NewWorkBalancingExecutor: `capacity` empty queues and their workers, the cursor on the last queue. */
    constructor (capacity: nat, thresholdQueue: int, thresholdBalance: int)
      ensures Valid() && fresh(context.pool.Repr) && fresh(workers)
      ensures context.pool.capacity == capacity && !done && prevDistributee == capacity - 1
      ensures context.thresholdQueue == thresholdQueue && context.thresholdBalance == thresholdBalance
      ensures forall i :: 0 <= i < capacity ==> context.pool.Contents[i] == [] && workers[i].workRemaining
    {
      var ctx := new SharedContextWB(capacity, thresholdQueue, thresholdBalance);
      var ws: seq<WorkerWB> := [];
      var i := 0;
      while i < capacity
        invariant 0 <= i <= capacity && |ws| == i && fresh(ws)
        invariant ctx.pool.Valid() && fresh(ctx.pool.Repr) && ctx.pool.capacity == capacity
        invariant forall k :: 0 <= k < capacity ==> ctx.pool.Contents[k] == []
        invariant forall k :: 0 <= k < i ==>
                    ws[k].id == k && ws[k].context == ctx && ws[k].Valid() && ws[k].workRemaining
      {
        var w := new WorkerWB(i, ctx);
        ws := ws + [w];
        i := i + 1;
      }
      workers := ws;
      context := ctx;
      done := false;
      prevDistributee := capacity - 1;
    }

    /** nextDistributee: advances the cursor to the next queue, cyclically. */
    method NextDistributee() returns (d: int)
      requires Valid() && context.pool.capacity > 0
      modifies this
      ensures Valid() && done == old(done)
      ensures d == Next(old(prevDistributee), context.pool.capacity) && prevDistributee == d
    {
      prevDistributee := (prevDistributee + 1) % context.pool.capacity;
      d := prevDistributee;
    }

    /**
     * Submit: after shutdown, returns nothing and changes nothing; otherwise
     * pushes the task at the bottom of the next queue in round-robin order
     * and returns it as its future.
     */
    method Submit(task: Task) returns (future: Option<Task>)
      requires Valid()
      requires !done ==> context.pool.capacity > 0
      modifies this, context.pool.Repr
      ensures Valid() && fresh(context.pool.Repr - old(context.pool.Repr)) && done == old(done)
      ensures old(done) ==>
                && future == None
                && context.pool.Contents == old(context.pool.Contents)
                && prevDistributee == old(prevDistributee)
      ensures !old(done) ==>
                var d := Next(old(prevDistributee), context.pool.capacity);
                && future == Some(task)
                && prevDistributee == d
                && context.pool.Contents == old(context.pool.Contents)[d := old(context.pool.Contents)[d] + [task]]
    {
      if done {
        return None;
      }
      var distributee := NextDistributee();
      context.pool.PushBottom(distributee, task);
      return Some(task);
    }

    /**
     * Shutdown: clears every worker's workRemaining and marks the service
     * done; the queues are untouched. Waiting for the workers is not modelled.
     */
    method Shutdown()
      requires Valid()
      modifies this, workers
      ensures Valid() && done && prevDistributee == old(prevDistributee)
      ensures forall i :: 0 <= i < |workers| ==> !workers[i].workRemaining
      ensures context.pool.Contents == old(context.pool.Contents)
    {
      var i := 0;
      while i < |workers|
        invariant 0 <= i <= |workers|
        invariant Valid()
        invariant prevDistributee == old(prevDistributee)
        invariant forall k :: 0 <= k < i ==> !workers[k].workRemaining
      {
        workers[i].workRemaining := false;
        i := i + 1;
      }
      done := true;
    }
  }

  /**
   * Round robin on the service itself: a new service that is given `tasks`
   * in order deals them to the queues as Deal says, so every queue gets the
   * floor or the ceiling of |tasks| / capacity of them.
   */
  method SubmitAll(capacity: nat, thresholdQueue: int, thresholdBalance: int, tasks: seq<Task>) returns (s: Balancer)
    requires capacity > 0
    ensures s.Valid() && !s.done && s.prevDistributee == Cursor(capacity, |tasks|)
    ensures fresh(s) && fresh(s.context.pool.Repr) && fresh(s.workers)
    ensures s.context.pool.capacity == capacity
    ensures s.context.thresholdQueue == thresholdQueue && s.context.thresholdBalance == thresholdBalance
    ensures forall i :: 0 <= i < capacity ==> s.workers[i].workRemaining
    ensures forall i :: 0 <= i < capacity ==>
              && s.context.pool.Contents[i] == Deal(capacity, tasks, i)
              && |s.context.pool.Contents[i]| == |tasks| / capacity + (if i < |tasks| % capacity then 1 else 0)
  {
    s := new Balancer(capacity, thresholdQueue, thresholdBalance);
    var k := 0;
    while k < |tasks|
      invariant 0 <= k <= |tasks|
      invariant s.Valid() && !s.done && s.context.pool.capacity == capacity
      invariant fresh(s) && fresh(s.context.pool.Repr) && fresh(s.workers)
      invariant s.context.thresholdQueue == thresholdQueue && s.context.thresholdBalance == thresholdBalance
      invariant forall i :: 0 <= i < capacity ==> s.workers[i].workRemaining
      invariant s.prevDistributee == Cursor(capacity, k)
      invariant forall i :: 0 <= i < capacity ==> s.context.pool.Contents[i] == Deal(capacity, tasks[..k], i)
    {
      var future := s.Submit(tasks[k]);
      assert tasks[..k + 1][..k] == tasks[..k];
      k := k + 1;
    }
    assert tasks[..|tasks|] == tasks;
    forall i | 0 <= i < capacity
      ensures |Deal(capacity, tasks, i)| == |tasks| / capacity + (if i < |tasks| % capacity then 1 else 0)
    {
      DealtEvenly(capacity, tasks, i);
    }
  }
}
