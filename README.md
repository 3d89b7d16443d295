# Work-stealing and work-balancing executors, modelled in Dafny

This project models the scheduling core of the `concurrent` package of an
image-editing job runner. That core is made of three parts:

- an unbounded double-ended task queue (`UnBoundedDEQueue`), a doubly-linked
  list whose top end is `tail` and whose bottom end is `head`;
- a work-stealing executor (`stealer` with its `workerST` workers). A worker
  drains its own queue from the top. Once the queue is dry, it tries to steal
  one task from the bottom of a randomly drawn peer's queue, drawing without
  replacement; the attempt fails when that peer's queue is empty.
- a work-balancing executor (`balancer` with its `workerWB` workers). A worker
  pops one task per iteration. Now and then, at random, it evens out its queue
  against a random peer's: tasks move from the bottom of the larger queue to
  the bottom of the smaller one while the size gap is at least the balancing
  threshold λ.

Both executors place submitted tasks round-robin. The cursor starts on the
last queue and is advanced before each placement, so the first task goes to
queue 0, the next to queue 1, and so on.
Each worker keeps running while more work may arrive or any queue in the pool
still holds a task.

The files are:

- `Deque.dfy` (module `Deque`): the queue as a class over linked `Node`
  objects. The ghost sequences `Nodes` and `Contents` list the nodes and their
  tasks from top to bottom. Each method is one atomic step, as the queue's
  mutex makes it. Also here: the FIFO and LIFO disciplines, and the driver of
  `test.go`.
- `Pool.dfy` (module `Pool`): what both shared contexts have in common. This is
  the class `QueuePool`, the fixed array of queues indexed by worker id, with
  the pool state as the ghost `seq<seq<Task>>` `Contents`. It also holds the
  task-conservation bookkeeping (`AllTasks`, a multiset), the one-task move
  between two queues (`MoveBottom`), and the round-robin cursor.
- `Stealing.dfy` (module `Stealing`): the work-stealing worker and service.
- `Balancing.dfy` (module `Balancing`): the work-balancing worker and service,
  plus the balancing loop as the pure function `Balanced`.

A worker's `work` loop is modelled by one iteration of its body
(`WorkIteration`) and its loop test (`KeepWorking`). Every random number is a
parameter whose range is a precondition:

- the index of `victimOptions` that stealing's `getVictim` draws;
- the sequence of queue indices that balancing's `getVictim` redraws from
  until it hits a peer;
- the draw from [0, n] that triggers a balance.

After a successful steal, the source's comment says "Add all options back to
the stealing options" (`concurrent/stealing.go:95`). The code under it appends
every peer id to the options that are left (`concurrent/stealing.go:96-100`);
it does not reset them to "all peers", so when some option was still
untried the list then names some peers twice. The model follows the code here, and `RefillAppends` states the
duplicates.

The balancing loop is the one place where the model does not follow the code.
The code's loop does not stop when the larger queue's pop returns nil
(`concurrent/balancing.go:103-111`), so it can spin forever. The model keeps
that loop as written (`LoopAsWritten`) and proves the spin, but its worker
runs a corrected loop that stops on the nil pop. The two agree whenever
λ ≥ 1. See "## Findings".

## Model

| member | source | states |
|---|---|---|
| Deque.Node.constructor | concurrent/unbounded.go:29-37 | a new node holds the given task and has no next or previous node |
| Deque.UnBoundedDEQueue.constructor | concurrent/unbounded.go:51-58 | a new queue has size 0 and no nodes, and both ends are nil |
| Deque.UnBoundedDEQueue.PushBottom | concurrent/unbounded.go:61-85 | size grows by one; the contents become the old contents followed by the new task, which is the new head (bottom) node; the list stays doubly linked and counted |
| Deque.UnBoundedDEQueue.PopBottom | concurrent/unbounded.go:88-120 | on an empty queue it returns nothing and changes nothing; otherwise it returns the bottom (most recent) task, drops exactly it and decrements size; when the last node goes, head and tail are both nil |
| Deque.UnBoundedDEQueue.PopTop | concurrent/unbounded.go:123-154 | on an empty queue it returns nothing and changes nothing; otherwise it returns the top (oldest) task, drops exactly it and decrements size; when the last node goes, head and tail are both nil |
| Deque.UnBoundedDEQueue.IsEmpty | concurrent/unbounded.go:157-163 | holds exactly when the queue has no task |
| Deque.UnBoundedDEQueue.Size | concurrent/unbounded.go:166-168 | is the number of tasks in the queue |
| Deque.Driver | test.go:13-25 | after pushing 1, 2 and 3, PopTop yields 1, PopBottom yields 3, the remaining task is 2, and then the queue is empty |
| Deque.DrainTop | concurrent/unbounded.go:123-154 | pushing any tasks at the bottom and popping the top until nil returns them in push order (FIFO) |
| Deque.DrainBottom | concurrent/unbounded.go:88-120 | pushing any tasks at the bottom and popping the bottom until nil returns them in reverse push order (LIFO) |
| Pool.MoveBottom | concurrent/stealing.go:88-95 | moving one task from one queue's bottom to another's leaves the number of queues alone, shrinks the source by one and grows the target by one (concurrent/balancing.go:105-110 makes the same move) |
| Pool.AllTasksUpdate | concurrent/stealing.go:88-95 | replacing one queue's contents changes the pool's multiset of tasks by exactly that queue's difference |
| Pool.EmptyPoolHasNoTasks | concurrent/stealing.go:54-62 | every queue being empty is the same as the pool holding no task |
| Pool.MoveBottomConserves | concurrent/stealing.go:88-95 | moving one task bottom to bottom keeps the pool's tasks; the source shrinks by one and the target grows by one; the target's new bottom is the source's old bottom; both keep their other tasks in order; no other queue changes |
| Pool.Next | concurrent/stealing.go:176-180 | the next distributee is a queue index |
| Pool.Cursor | concurrent/stealing.go:168-180 | the cursor after n submissions to a new service, which starts it at capacity - 1; it is always a queue index |
| Pool.CursorAt | concurrent/stealing.go:176-180 | with the cursor starting at capacity - 1, the k-th submission (from 0) goes to queue k mod capacity |
| Pool.Deal | concurrent/stealing.go:176-191 | what round-robin submission gives queue i: the tasks whose 1-based submission number n has Cursor(capacity, n) == i, in submission order (concurrent/balancing.go:193-210 deals the same way); never more than the tasks submitted, and nothing for an index outside the pool |
| Pool.DealtEvenly | concurrent/stealing.go:188-191 | for any n submitted tasks, what queue i is dealt has n / capacity tasks, plus one for the first n mod capacity queues |
| Pool.QueuePool.constructor | concurrent/stealing.go:138-149 | `capacity` new queues with disjoint footprints, all empty |
| Pool.QueuePool.PushBottom | concurrent/stealing.go:191 | queue i gets the task at its bottom; no other queue changes |
| Pool.QueuePool.PopBottom | concurrent/stealing.go:90 | queue i loses its bottom task, which is returned, or returns nothing if it is empty; no other queue changes |
| Pool.QueuePool.PopTop | concurrent/stealing.go:110 | queue i loses its top task, which is returned, or returns nothing if it is empty; no other queue changes |
| Pool.QueuePool.IsWorkPoolEmpty | concurrent/stealing.go:54-62 | true exactly when every queue is empty, equivalently when the pool holds no task (the identical scan of concurrent/balancing.go:45-53 serves the balancing worker) |
| Stealing.OtherIds | concurrent/stealing.go:36-42 | the ids in [0, n) other than the worker's, each once, in ascending order, n - 1 of them |
| Stealing.AppendOtherIds | concurrent/stealing.go:36-42 | the option-building loop appends exactly OtherIds to what it starts from |
| Stealing.RemoveAt | concurrent/stealing.go:71 | the spliced list is one shorter, keeps the other entries in their order, and holds the same ids minus the drawn one |
| Stealing.RemoveAtSamplesWithoutReplacement | concurrent/stealing.go:65-73 | from duplicate-free options, drawing an index leaves duplicate-free options without the drawn id and with every other option |
| Stealing.RefillAppends | concurrent/stealing.go:96-100 | after a successful steal the options grow to the old length + capacity - 2; they name exactly the peers and never the worker; if an option was left untried, they hold a peer twice |
| Stealing.RefillExample | concurrent/stealing.go:96-100 | capacity 3, worker 0, options [1, 2], stealing from 1 leaves [2, 1, 2] |
| Stealing.StealingPolicy | concurrent/stealing.go:75-78 | holds exactly when the worker's queue is empty and the victim's is not |
| Stealing.StealPool | concurrent/stealing.go:81-95 | the pool after one steal has as many queues as before, and differs from it only when the worker's queue was empty and the victim's was not |
| Stealing.StealOptions | concurrent/stealing.go:84-100 | the options after one steal keep every option except the drawn one, in order, and then grow by capacity - 1 peers exactly when the steal succeeded |
| Stealing.StealConserves | concurrent/stealing.go:81-103 | a steal keeps the pool's tasks; when it succeeds, the worker's queue is exactly the victim's former bottom task and the victim loses only that task; no other queue changes |
| Stealing.WorkIterationConserves | concurrent/stealing.go:108-124 | one iteration keeps every task: each one the pool held is either popped from the worker's queue or still queued |
| Stealing.WorkerST.constructor | concurrent/stealing.go:34-51 | a new worker has workRemaining set, and its options are OtherIds of the capacity and its id |
| Stealing.WorkerST.GetVictim | concurrent/stealing.go:65-73 | returns the option at the drawn index, never the worker's own id; the options become the old ones with exactly that entry removed |
| Stealing.WorkerST.Steal | concurrent/stealing.go:81-103 | the pool becomes StealPool and the options StealOptions of the old state and the draw: if the worker's queue is empty and the drawn victim's is not, the victim's bottom task moves to the worker's bottom and the peers are appended to the remaining options; otherwise no queue changes and only the drawn option is gone |
| Stealing.WorkerST.StealFrom | concurrent/stealing.go:84-101 | with the victim drawn: if the worker's queue is empty and the victim's is not, the pool becomes MoveBottom from the victim to the worker and the peers are appended to the options; otherwise neither the pool nor the options change |
| Stealing.WorkerST.RunOwnTasks | concurrent/stealing.go:110-119 | pops the worker's queue from the top until nil: the popped tasks are exactly its old contents, oldest first; that queue ends empty and no other queue changes |
| Stealing.WorkerST.WorkIteration | concurrent/stealing.go:108-124 | the worker drains its own queue, then steals from the drawn option only when capacity > 1 and options remain; otherwise the options are untouched |
| Stealing.WorkerST.KeepWorking | concurrent/stealing.go:108 | the loop continues exactly while workRemaining holds or some queue is non-empty |
| Stealing.Stealer.constructor | concurrent/stealing.go:137-173 | capacity empty queues, worker i owning queue i with all peers as options, the cursor at capacity - 1, not done |
| Stealing.Stealer.NextDistributee | concurrent/stealing.go:176-180 | the cursor advances to (prev + 1) mod capacity and returns it |
| Stealing.Stealer.Submit | concurrent/stealing.go:183-194 | after shutdown it returns nothing and changes no queue and no cursor; otherwise it advances the cursor and pushes the task at the bottom of that queue only, returning the task |
| Stealing.SubmitAll | concurrent/stealing.go:176-194 | submitting n tasks in order to a new service leaves the cursor at Cursor(capacity, n) and queue i holding exactly what Deal gives it: n / capacity tasks, plus one for the first n mod capacity queues; the service and its workers are new, and every worker still has workRemaining set and all its peers as options |
| Stealing.Stealer.Shutdown | concurrent/stealing.go:197-208 | every worker's workRemaining becomes false and the service is done; no queue, option list or cursor changes |
| Balancing.MoveOne | concurrent/balancing.go:105-110 | one round moves one task: the larger queue shrinks by one, the smaller grows by one, and the gap falls by 2 |
| Balancing.Balanced | concurrent/balancing.go:103-111 | the corrected balance loop on the two queues: it ends with the gap below λ or the larger queue empty, never grows the larger queue, and leaves a pair below the threshold alone |
| Balancing.BalancedKeepsPrefix | concurrent/balancing.go:103-111 | the larger queue keeps a prefix of its tasks |
| Balancing.BalancedReceivesSuffix | concurrent/balancing.go:103-111 | the smaller queue keeps its tasks and receives the larger queue's removed suffix, bottom task first |
| Balancing.BalancedMovesSuffix | concurrent/balancing.go:103-111 | balancing moves tasks only between the two bottoms; the pair's combined tasks are unchanged |
| Balancing.BalancedMoves | concurrent/balancing.go:103-111 | the number of tasks moved is (gap - λ) / 2 + 1 when gap ≥ λ and 0 otherwise, capped at the larger queue's size |
| Balancing.BalancedGap | concurrent/balancing.go:103-111 | with λ ≥ 1 the final gap is below λ and, if anything moved, at least λ - 2; a pair below the threshold is untouched; the absolute gap never grows |
| Balancing.BalancePool | concurrent/balancing.go:103-111 | the pool after balance: the two designated queues are replaced by Balanced's result and every other queue is as it was; the pool keeps its number of queues, the larger queue never grows, and a pair below the threshold leaves the pool as it was |
| Balancing.BalancePoolConserves | concurrent/balancing.go:103-111 | balancing two queues keeps every task of the pool and no other queue changes |
| Balancing.StepAsWritten | concurrent/balancing.go:105-110 | one round as written: a nil pop from an empty larger queue changes nothing; otherwise one task moves and the gap falls by 2; no task is created or lost |
| Balancing.LoopAsWritten | concurrent/balancing.go:103-111 | the loop as written, run for at most a given number of rounds: it keeps the pair's tasks, never grows the larger queue, and leaves a pair below the threshold alone |
| Balancing.BalanceAsWrittenSpins | concurrent/balancing.go:103-111 | as written, once the larger queue is empty while the gap is still ≥ λ, the loop's state and its policy stay fixed for any number of rounds |
| Balancing.ZeroThresholdSpins | concurrent/balancing.go:103-111 | two idle queues with λ = 0 keep the as-written loop running forever |
| Balancing.BalancedAgreesWithSource | concurrent/balancing.go:103-111 | with λ ≥ 1 the as-written loop exits after exactly the rounds Balanced performs, with the same queues |
| Balancing.Designate | concurrent/balancing.go:79-100 | the pair is {worker, victim}; the strictly shorter queue is small; on equal sizes the larger id's queue is small |
| Balancing.FirstOtherAt | concurrent/balancing.go:56-65 | the redraw loop stops at the first draw that is not the worker's id: that draw differs from the id and every earlier one equals it |
| Balancing.BalancePolicy | concurrent/balancing.go:68-71 | holds exactly when large size - small size ≥ λ |
| Balancing.SharedContextWB.constructor | concurrent/balancing.go:152-166 | capacity empty queues and the two thresholds as given |
| Balancing.WorkerWB.constructor | concurrent/balancing.go:35-42 | a new worker with workRemaining set |
| Balancing.WorkerWB.GetVictim | concurrent/balancing.go:56-65 | the redraw loop returns the draw at FirstOtherAt: a queue index other than the worker's own, preceded only by draws of the worker's own id |
| Balancing.WorkerWB.Balance | concurrent/balancing.go:74-112 | the victim is the first draw other than the worker's id; the pair is ordered as Designate says; the pool becomes BalancePool of the old pool for that pair, so tasks move bottom to bottom from the larger to the smaller queue until the gap is below the threshold or the larger queue is empty |
| Balancing.WorkerWB.BalancePair | concurrent/balancing.go:103-111 | the transfer loop ends with the two queues as Balanced says and every other queue unchanged |
| Balancing.WorkerWB.WorkIteration | concurrent/balancing.go:117-134 | pops at most one task from the top of the worker's queue and returns it; balances only when capacity > 1 and the draw equals the remaining size; otherwise nothing else changes |
| Balancing.WorkerWB.KeepWorking | concurrent/balancing.go:117 | the loop continues exactly while workRemaining holds or some queue is non-empty |
| Balancing.WorkIterationConserves | concurrent/balancing.go:119-134 | one iteration keeps every task, for any capacity (a one-queue pool never balances): each one the pool held is either the popped task or still queued |
| Balancing.Balancer.constructor | concurrent/balancing.go:152-190 | capacity empty queues, worker i for queue i, the thresholds as given, the cursor at capacity - 1, not done |
| Balancing.Balancer.NextDistributee | concurrent/balancing.go:193-197 | the cursor advances to (prev + 1) mod capacity and returns it |
| Balancing.Balancer.Submit | concurrent/balancing.go:200-214 | after shutdown it returns nothing and changes no queue and no cursor; otherwise it advances the cursor and pushes the task at the bottom of that queue only |
| Balancing.SubmitAll | concurrent/balancing.go:193-214 | submitting n tasks in order to a new service leaves the cursor at Cursor(capacity, n) and queue i holding exactly what Deal gives it: n / capacity tasks, plus one for the first n mod capacity queues; the service and its workers are new, the thresholds are as given, and every worker still has workRemaining set |
| Balancing.Balancer.Shutdown | concurrent/balancing.go:217-228 | every worker's workRemaining becomes false and the service is done; no queue or cursor changes |

## Left out

- Goroutines, `sync.Mutex`, `sync.WaitGroup` and `atomic.LoadInt64`: each
  queue operation is one atomic step, and a worker's loop is one iteration
  at a time. Interleavings between workers are not modelled. Also out of the
  model: the data race on `workRemaining`, the stale sizes read in `balance`
  and in the trigger, and the wait at the end of `Shutdown`.
- `math/rand` and its time-based seeding: the random numbers are parameters.
- WorkerWB.GetVictim: draws that never name a peer are excluded by the
  precondition, whereas the source would keep drawing forever (with capacity
  1 it always does; `work` calls `balance` only when capacity > 1).
- `unsafe.Pointer`: the links are plain `Node?` references.
- Nil tasks: a task is an opaque handle, and `None` stands for the nil that an
  empty queue's pop returns. Pushing a nil task is not modelled.
- The `task.(Future)` assertion in `Submit`, which panics for a task that is
  not a Future: the model returns the submitted task.
- The `Runnable` assertion and `Run()`: running a task is left out, and an
  iteration returns the tasks it popped.
- The `int64` size: sizes are unbounded integers.
- The `threshold` argument of the work-stealing constructor, which the code
  ignores: `Stealer`'s constructor accepts it and drops it, as the source's
  `stealer` keeps no field for it. `thresholdQueue`, which the work-balancing
  code stores but never reads, is kept in `SharedContextWB` and affects
  nothing.
- The `isWorkPoolEmpty` of the two workers is one method, `QueuePool.IsWorkPoolEmpty`,
  because the two source functions are identical.
- Stealer.Submit, Balancer.Submit: a running service needs capacity > 0.
  With capacity 0 the source's `% capacity` in `nextDistributee` panics
  (division by zero, `concurrent/stealing.go:178`, `concurrent/balancing.go:195`);
  the model does not model the panic. Capacities are `nat`, so a negative
  capacity is not modelled either. In the source it builds no queues and
  does not fail; the cursor starts at capacity - 1, so the first `Submit`
  computes `(capacity - 1 + 1) % capacity`, which is 0, and indexing the empty
  queue list at 0 panics (`concurrent/stealing.go:191`,
  `concurrent/balancing.go:210`).
- The `Show()` that `test.go` calls is not defined by the queue and is not
  part of this model.

## Findings

| source | as written | input that shows it | evidently intended | confidence | as-written member | corrected member |
|---|---|---|---|---|---|---|
| concurrent/balancing.go:103-111 | `balance` loops while large.Size() - small.Size() ≥ λ and skips the push when the pop returns nil, so the loop never exits once the larger queue is empty while the gap is still ≥ λ | λ = 0 (or any λ ≤ 0) with both queues empty; or λ = -5 with queue sizes 0 and 2 | stop the transfer when the pop returns nil | not executed | Balancing.LoopAsWritten, Balancing.BalanceAsWrittenSpins | Balancing.WorkerWB.BalancePair |

The corrected loop breaks when the pop returns nothing. For every λ ≥ 1 it
behaves exactly like the code (`Balancing.BalancedAgreesWithSource`), and the
rest of the model uses it.
