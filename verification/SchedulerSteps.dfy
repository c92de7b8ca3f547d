/**
 pkg/scheduler/in_memory_build_queue.go for single-node tasks: what the steps of the scheduler do to its tables
 of tasks, operations and workers, without regard to the invocations that it keeps for them.
 */
module SchedulerSteps {
  import opened Common
  import opened InvocationTree
  import opened InvocationPresence
  import opened InvocationCounts
  import opened InvocationForest
  import opened SchedulerTables

  /** What the size class learner asks for when a task completes: nothing, to run it once more in the background, or to
      run it again in another size class queue. */
  datatype Verdict =
    | Done
    | Background(task: TaskId, operation: Operation, queue: nat, keys: seq<Key>, maximum: nat)
    | Retry(queue: nat)

  /** What a worker reports to Synchronize(). */
  datatype Report = Idle | Executing(digest: Digest) | Finished(digest: Digest, verdict: Verdict)

  /** What Synchronize() does next: reply, or wait, either parked or for a drain to be lifted. */
  datatype Reply = GoIdle | Execute(task: TaskId) | Continue | Park | AwaitUndrain | Refuse

  /** Why a waiting call to Synchronize() goes on. */
  datatype Wake = Signaled | TimedOut | Canceled

  ghost predicate IsQuiet(workers: map<Worker, WorkerState>, w: Worker) {
    w in workers ==> workers[w].task.None? && !workers[w].synchronizing
  }

  /** Tasks that are completed stay so. */
  ghost predicate CompletedStay(before: map<TaskId, Task>, after: map<TaskId, Task>) {
    forall t :: t in before && before[t].completed ==> t in after && after[t].completed
  }

  /** Only worker `w` may have been given a task, or have started a call to Synchronize(), where there was none. */
  ghost predicate QuietKept(before: map<Worker, WorkerState>, after: map<Worker, WorkerState>, w: Option<Worker>) {
    forall u :: Some(u) != w && IsQuiet(before, u) ==> IsQuiet(after, u)
  }

  /** Workers that have a task they did not have before are neither drained nor terminating. */
  ghost predicate NewlyEligible(before: map<Worker, WorkerState>, after: map<Worker, WorkerState>, drains: set<Drain>) {
    forall w :: w in after && after[w].task.Some? && !(w in before && before[w].task == after[w].task) ==>
      !after[w].terminating && !Drained(drains, w)
  }

  ghost predicate TerminatingKept(before: map<Worker, WorkerState>, after: map<Worker, WorkerState>) {
    forall w :: w in before && w in after ==> after[w].terminating == before[w].terminating
  }

  ghost predicate OnlyEligible(before: map<Worker, WorkerState>, after: map<Worker, WorkerState>, drains: set<Drain>) {
    NewlyEligible(before, after, drains) && TerminatingKept(before, after)
  }

  lemma {:induction false} EligibleTwice(
    a: map<Worker, WorkerState>, b: map<Worker, WorkerState>, c: map<Worker, WorkerState>, drains: set<Drain>)
    requires NewlyEligible(a, b, drains) && OnlyEligible(b, c, drains)
    ensures NewlyEligible(a, c, drains)
    ensures TerminatingKept(a, b) && a.Keys * c.Keys <= b.Keys ==> OnlyEligible(a, c, drains)
  {
  }

  ghost predicate AllQueued(queuedAt: map<Operation, Invocation>, task: Task) {
    forall n :: n in task.operations ==> task.operations[n] in queuedAt && queuedAt[task.operations[n]] == n
  }

  /** Worker `w` was last active as close as possible to one of the given invocations: there is no parked worker that
      was last active below what any of them is nested in by fewer levels. (The layers are there for the verifier, which
      is to look at the definition only where it is opened.) */
  ghost predicate Nearest(workers: map<Worker, WorkerState>, w: Worker, s: set<Invocation>, layers: nat := 3)
    decreases workers, layers
  {
    if layers == 0 then exists n, k: nat :: NearestBy(workers, w, s, n, k) else Nearest(workers, w, s, layers - 1)
  }

  lemma {:induction false} OpenNearest(workers: map<Worker, WorkerState>, w: Worker, s: set<Invocation>)
    ensures Nearest(workers, w, s) <==> exists n, k: nat :: NearestBy(workers, w, s, n, k)
  {
    assert Nearest(workers, w, s) == Nearest(workers, w, s, 2);
    assert Nearest(workers, w, s, 2) == Nearest(workers, w, s, 1);
    assert Nearest(workers, w, s, 1) == Nearest(workers, w, s, 0);
  }

  ghost predicate NearestBy(
    workers: map<Worker, WorkerState>, w: Worker, s: set<Invocation>, n: Invocation, k: nat)
  {
    && n in s && w in workers && workers[w].last.Some? && Under(workers[w].last.value, Ancestor(n, k))
    && forall m, j: nat :: m in s && j < k ==> NobodyParkedBelow(workers, Ancestor(m, j))
  }

  ghost predicate NobodyParkedBelow(workers: map<Worker, WorkerState>, n: Invocation) {
    forall u :: u in workers && workers[u].parked && workers[u].last.Some? ==> !Under(workers[u].last.value, n)
  }

  /** Which parked worker is nearest depends on nothing but parked workers. */
  lemma {:induction false} NearestSame(
    a: map<Worker, WorkerState>, b: map<Worker, WorkerState>, w: Worker, s: set<Invocation>)
    requires forall u :: (u in a && a[u].parked) == (u in b && b[u].parked)
    requires forall u :: u in a && a[u].parked ==> b[u].last == a[u].last
    requires w in a && a[w].parked && Nearest(a, w, s)
    ensures Nearest(b, w, s)
  {
    OpenNearest(a, w, s);
    OpenNearest(b, w, s);
    var n, k: nat :| NearestBy(a, w, s, n, k);
    forall m, j: nat | m in s && j < k ensures NobodyParkedBelow(b, Ancestor(m, j)) {
      assert NobodyParkedBelow(a, Ancestor(m, j));
    }
    assert NearestBy(b, w, s, n, k);
  }

  /** Worker `w` is parked in the size class queue of the task, nearest to it, and may be given tasks. */
  ghost predicate ParkedFor(workers: map<Worker, WorkerState>, w: Worker, task: Task, drains: set<Drain>) {
    && w.Worker? && w in workers && workers[w].parked && !workers[w].terminating && !Drained(drains, w)
    && (forall n :: n in task.operations ==> QueueOf(n) == w.queue) && Nearest(workers, w, task.operations.Keys)
  }

  /** Nobody is parked in the size class queue of the task. */
  ghost predicate NobodyParkedFor(workers: map<Worker, WorkerState>, task: Task) {
    forall w, n :: w in workers && w.Worker? && workers[w].parked && n in task.operations ==> QueueOf(n) != w.queue
  }

  /** What schedule() does with task `t`: a worker that was parked runs it, or if there is none, it is queued. */
  ghost predicate Scheduled(
    t: TaskId, task: Task, before: map<Worker, WorkerState>, after: map<Worker, WorkerState>,
    queuedAt: map<Operation, Invocation>, drains: set<Drain>)
  {
    match task.worker
    case Some(w) =>
      && ParkedFor(before, w, task, drains)
      && after == before[w := before[w].(task := Some(t), last := None, parked := false)]
    case None => after == before && NobodyParkedFor(before, task) && AllQueued(queuedAt, task)
  }

  lemma {:induction false} ScheduledEligible(
    t: TaskId, task: Task, before: map<Worker, WorkerState>, after: map<Worker, WorkerState>,
    queuedAt: map<Operation, Invocation>, drains: set<Drain>)
    requires Scheduled(t, task, before, after, queuedAt, drains)
    ensures OnlyEligible(before, after, drains)
  {
  }

  lemma {:induction false} OnlyOneParked(
    t: TaskId, task: Task, w: Worker, n: Invocation, before: map<Worker, WorkerState>, after: map<Worker, WorkerState>,
    queuedAt: map<Operation, Invocation>, drains: set<Drain>)
    requires Scheduled(t, task, before, after, queuedAt, drains) && before.Keys == {w} && before[w].parked
    requires w.Worker? && n in task.operations && QueueOf(n) == w.queue
    ensures after == map[w := before[w].(task := Some(t), last := None, parked := false)]
  {
  }

  /** What re-execution does with a task: its operations move to queue `q`, where a parked worker runs it or it is
      queued. */
  ghost predicate Retried(
    before: Task, after: Task, q: nat, workers: map<Worker, WorkerState>, queuedAt: map<Operation, Invocation>,
    drains: set<Drain>)
  {
    && after == before.(operations := after.operations, worker := after.worker)
    && MovedTo(before.operations, after.operations, q)
    && match after.worker {
         case Some(w) => ParkedFor(workers, w, after, drains)
         case None => NobodyParkedFor(workers, after) && AllQueued(queuedAt, after)
       }
  }

  // ----- Completing a task -----

  /** Something is queued in size class queue `q`. */
  ghost predicate HasQueued(tasks: map<TaskId, Task>, q: nat) {
    exists t, n :: t in tasks && tasks[t].Queued() && n in tasks[t].operations && QueueOf(n) == q
  }

  /** The operations that are queued in an invocation itself. */
  ghost function QueuedIn(tasks: map<TaskId, Task>, ops: map<Operation, OperationState>, n: Invocation): set<Operation>
  {
    set o | o in ops && ops[o].invocation == n && ops[o].task in tasks && tasks[ops[o].task].Queued()
  }

  /** A worker no longer executes a task. If it has said so itself, it remembers what the invocations of the task have
      in common; if not, it is as if it had never executed any. */
  ghost predicate Freed(u: Worker, before: WorkerState, after: WorkerState, byWorker: bool, keys: set<Invocation>) {
    && after.last.Some? && after == before.(task := None, last := after.last)
    && if byWorker then IsLowestCommonAncestor(after.last.value, keys)
       else u.Worker? && after.last.value == Root(u.queue)
  }

  /** The worker executing task `t`, if any, is freed, and `given`, if any, goes from being parked to executing `x`.
      Nothing happens to the others. */
  ghost predicate WorkersAfter(
    before: map<Worker, WorkerState>, after: map<Worker, WorkerState>, t: TaskId, byWorker: bool,
    keys: set<Invocation>, x: TaskId, given: Option<Worker>)
  {
    && after.Keys == before.Keys
    && forall u :: u in before ==>
         if before[u].task == Some(t) then Freed(u, before[u], after[u], byWorker, keys)
         else if given == Some(u) then after[u] == before[u].(task := Some(x), last := None, parked := false)
         else after[u] == before[u]
  }

  /** The task is executed by a worker that was parked, or if there was none, by nobody. */
  ghost predicate Placed(workers: map<Worker, WorkerState>, task: Task, drains: set<Drain>) {
    match task.worker
    case Some(w) => ParkedFor(workers, w, task, drains)
    case None => NobodyParkedFor(workers, task)
  }

  /** Whether there is still room for a background task, once task `t` is completed. */
  ghost predicate HasRoom(s: State, t: TaskId, n: Invocation, maximum: nat)
    requires t in s.tasks
  {
    maximum > 0 && |QueuedIn(s.tasks[t := s.tasks[t].(worker := None, completed := true)], s.ops, n)| < maximum
  }

  /** What task.complete() does to an unfinished task that is not to be executed again. */
  ghost predicate Ends(a: State, b: State, t: TaskId, byWorker: bool, verdict: Verdict)
    requires t in a.tasks && !verdict.Retry?
  {
    var task := a.tasks[t];
    var done := a.tasks[t := task.(worker := None, completed := true)];
    && b.dedup == a.dedup - {task.digest} && b.drains == a.drains
    && if verdict.Background? && HasRoom(a, t, InvocationFor(verdict.queue, verdict.keys), verdict.maximum) then
         var x, n := verdict.task, InvocationFor(verdict.queue, verdict.keys);
         && x in b.tasks
         && b.tasks == done[x := Task(map[n := verdict.operation], task.digest, b.tasks[x].worker, false)]
         && b.ops == a.ops[verdict.operation := OperationState(x, n)] && Placed(a.workers, b.tasks[x], a.drains)
         && WorkersAfter(a.workers, b.workers, t, byWorker, task.operations.Keys, x, b.tasks[x].worker)
       else
         && b.tasks == done && b.ops == a.ops
         && WorkersAfter(a.workers, b.workers, t, byWorker, task.operations.Keys, t, None)
  }

  /** What task.complete() does to an unfinished task that is to be executed again. */
  ghost predicate Reruns(a: State, b: State, t: TaskId, byWorker: bool, q: nat)
    requires t in a.tasks
  {
    var task := a.tasks[t];
    && t in b.tasks && b.dedup == a.dedup && b.drains == a.drains && b.ops == Relocated(a.ops, t, q)
    && b.tasks == a.tasks[t := task.(operations := b.tasks[t].operations, worker := b.tasks[t].worker)]
    && MovedTo(task.operations, b.tasks[t].operations, q) && Placed(a.workers, b.tasks[t], a.drains)
    && WorkersAfter(a.workers, b.workers, t, byWorker, task.operations.Keys, t, b.tasks[t].worker)
  }

  ghost predicate Completes(a: State, b: State, t: TaskId, byWorker: bool, verdict: Verdict)
    requires t in a.tasks
  {
    if a.tasks[t].completed then b == a
    else if verdict.Retry? then Reruns(a, b, t, byWorker, verdict.queue)
    else Ends(a, b, t, byWorker, verdict)
  }

  // ----- Synchronizing -----

  /** A worker that may be given tasks: it is neither drained nor terminating. */
  ghost predicate MayWork(workers: map<Worker, WorkerState>, drains: set<Drain>, w: Worker) {
    w in workers && !workers[w].terminating && !Drained(drains, w)
  }

  /** Which reply getNextTask() gives, depending on whether the worker may be given tasks, and whether there are any. */
  predicate NextReply(r: Reply, preferBeingIdle: bool, mayBlock: bool, eligible: bool, queued: bool) {
    if preferBeingIdle then r.GoIdle?
    else if eligible && queued then r.Execute?
    else if !mayBlock then r.GoIdle?
    else if eligible then r.Park?
    else r.AwaitUndrain?
  }

  /** What getNextTask() does. */
  ghost predicate Hands(a: State, b: State, w: Worker, preferBeingIdle: bool, mayBlock: bool, r: Reply) {
    && w.Worker? && w in a.workers && b.ops == a.ops && b.dedup == a.dedup && b.drains == a.drains
    && NextReply(r, preferBeingIdle, mayBlock, MayWork(a.workers, a.drains, w), HasQueued(a.tasks, w.queue))
    && match r {
         case Execute(t) =>
           && t in a.tasks && a.tasks[t].Queued() && (forall n :: n in a.tasks[t].operations ==> QueueOf(n) == w.queue)
           && b.tasks == a.tasks[t := a.tasks[t].(worker := Some(w))]
           && b.workers == a.workers[w := a.workers[w].(task := Some(t), last := None, synchronizing := false)]
         case GoIdle => b.tasks == a.tasks && b.workers == a.workers[w := a.workers[w].(synchronizing := false)]
         case Park => b.tasks == a.tasks && b.workers == a.workers[w := a.workers[w].(parked := true)]
         case _ => b.tasks == a.tasks && b.workers == a.workers
       }
  }

  /** A task is completed, after which its worker may get another one. */
  ghost predicate CompletesAndHands(
    a: State, b: State, t: TaskId, byWorker: bool, verdict: Verdict, w: Worker, preferBeingIdle: bool, mayBlock: bool,
    r: Reply)
    requires t in a.tasks
  {
    exists m: State :: Completes(a, m, t, byWorker, verdict) && Hands(m, b, w, preferBeingIdle, mayBlock, r)
  }

  /** Nothing but the workers changes. */
  ghost predicate OnlyWorkers(a: State, b: State, workers: map<Worker, WorkerState>) {
    b.tasks == a.tasks && b.ops == a.ops && b.dedup == a.dedup && b.drains == a.drains && b.workers == workers
  }

  /** What getCurrentOrNextTask() does: hands out the same task again, unless it has been handed out too often. */
  ghost predicate HandsCurrent(
    a: State, b: State, w: Worker, preferBeingIdle: bool, mayBlock: bool, giveUp: bool, r: Reply)
    requires w in a.workers
  {
    match a.workers[w].task
    case None => Hands(a, b, w, preferBeingIdle, mayBlock, r)
    case Some(t) =>
      if giveUp then t in a.tasks && CompletesAndHands(a, b, t, false, Done, w, preferBeingIdle, mayBlock, r)
      else r == Reply.Execute(t) && OnlyWorkers(a, b, a.workers[w := a.workers[w].(synchronizing := false)])
  }

  /** isRunningCorrectTask() */
  ghost predicate RunsDigest(s: State, w: Worker, digest: Digest) {
    && w in s.workers && s.workers[w].task.Some? && s.workers[w].task.value in s.tasks
    && s.tasks[s.workers[w].task.value].digest == digest
  }

  /** What Synchronize() does for a worker that has no other call in progress, up to where it replies or waits. (The
      layers are there for the verifier, which is to look at the definition only where it is opened.) */
  ghost predicate Responds(
    a: State, b: State, w: Worker, report: Report, preferBeingIdle: bool, giveUp: bool, r: Reply, layers: nat := 3)
    requires w in a.workers
    decreases a, layers
  {
    if layers == 0 then RespondsOpened(a, b, w, report, preferBeingIdle, giveUp, r)
    else Responds(a, b, w, report, preferBeingIdle, giveUp, r, layers - 1)
  }

  lemma {:induction false} OpenResponds(
    a: State, b: State, w: Worker, report: Report, preferBeingIdle: bool, giveUp: bool, r: Reply)
    requires w in a.workers
    ensures
      Responds(a, b, w, report, preferBeingIdle, giveUp, r) <==>
      RespondsOpened(a, b, w, report, preferBeingIdle, giveUp, r)
  {
    assert Responds(a, b, w, report, preferBeingIdle, giveUp, r) ==
      Responds(a, b, w, report, preferBeingIdle, giveUp, r, 2);
    assert Responds(a, b, w, report, preferBeingIdle, giveUp, r, 2) ==
      Responds(a, b, w, report, preferBeingIdle, giveUp, r, 1);
    assert Responds(a, b, w, report, preferBeingIdle, giveUp, r, 1) ==
      Responds(a, b, w, report, preferBeingIdle, giveUp, r, 0);
  }

  ghost predicate RespondsOpened(
    a: State, b: State, w: Worker, report: Report, preferBeingIdle: bool, giveUp: bool, r: Reply)
    requires w in a.workers
  {
    match report
    case Idle => HandsCurrent(a, b, w, preferBeingIdle, true, giveUp, r)
    case Executing(d) =>
      if RunsDigest(a, w, d)
      then r.Continue? && OnlyWorkers(a, b, a.workers[w := a.workers[w].(synchronizing := false)])
      else HandsCurrent(a, b, w, preferBeingIdle, false, giveUp, r)
    case Finished(d, verdict) =>
      if RunsDigest(a, w, d)
      then CompletesAndHands(a, b, a.workers[w].task.value, true, verdict, w, preferBeingIdle, true, r)
      else HandsCurrent(a, b, w, preferBeingIdle, true, giveUp, r)
  }

  /** A worker that calls Synchronize(); if it is not known yet, it was last active in the root. */
  ghost function Joined(s: State, w: Worker): State
    requires w.Worker?
  {
    if w in s.workers then s.(workers := s.workers[w := s.workers[w].(synchronizing := true)])
    else
      s.(workers := s.workers[w := WorkerState(None, Some(Root(w.queue)), false, false, true)],
         last := s.last[w := Root(w.queue)])
  }

  /** What a call to Synchronize() does, up to where it replies or waits. */
  ghost predicate Received(
    a: State, b: State, w: Worker, report: Report, preferBeingIdle: bool, giveUp: bool, r: Reply)
    requires w.Worker?
  {
    if w in a.workers && a.workers[w].synchronizing then r.Refuse? && b == a
    else !r.Refuse? && Responds(Joined(a, w), b, w, report, preferBeingIdle, giveUp, r)
  }

  /** What Synchronize() does when it goes on after it had waited. */
  ghost predicate Resumed(a: State, b: State, w: Worker, why: Wake, r: Reply)
    requires w in a.workers
  {
    if a.workers[w].task.None? && why.Signaled? then Hands(a, b, w, false, true, r)
    else
      && OnlyWorkers(a, b, a.workers[w := a.workers[w].(parked := false, synchronizing := false)])
      && r == if why.Canceled? then Refuse
              else if a.workers[w].task.Some? then Reply.Execute(a.workers[w].task.value) else GoIdle
  }

  /** What the learner asks for is possible. */
  ghost predicate VerdictFits(s: State, verdict: Verdict) {
    match verdict
    case Done => true
    case Background(x, o, q, _, _) => x !in s.tasks && o !in s.ops && Root(q) in s.nodes
    case Retry(q) => Root(q) in s.nodes
  }

  // ----- What follows from this -----

  /** The task is executed again: it is not completed, its operations have moved to the same keys of queue `q`, and it
      is executed or queued there. */
  ghost predicate RunsAgain(
    before: Task, tasks: map<TaskId, Task>, t: TaskId, q: nat, queuedAt: map<Operation, Invocation>)
  {
    && t in tasks && !tasks[t].completed && tasks[t].digest == before.digest
    && MovedTo(before.operations, tasks[t].operations, q)
    && (tasks[t].worker.Some? || AllQueued(queuedAt, tasks[t]))
  }

  /** The background task is there, and executed or queued, if there is room for it; if not, no task is added. */
  ghost predicate RunsInBackground(
    a: State, b: State, t: TaskId, x: TaskId, o: Operation, n: Invocation, maximum: nat)
    requires t in a.tasks
  {
    if HasRoom(a, t, n, maximum) then
      && b.tasks.Keys == a.tasks.Keys + {x} && o in b.ops && b.ops[o] == OperationState(x, n)
      && b.tasks[x] == Task(map[n := o], a.tasks[t].digest, b.tasks[x].worker, false)
      && (b.tasks[x].worker.Some? || AllQueued(b.queuedAt, b.tasks[x]))
    else b.tasks.Keys == a.tasks.Keys && b.ops == a.ops
  }

  ghost predicate NobodyParkedIn(workers: map<Worker, WorkerState>, q: nat) {
    forall w :: w in workers && w.Worker? && workers[w].parked ==> w.queue != q
  }

  /** Whether completing task `t` adds something to size class queue `q`. */
  ghost predicate Adds(s: State, t: TaskId, verdict: Verdict, q: nat)
    requires t in s.tasks
  {
    match verdict
    case Done => false
    case Retry(p) => p == q && NobodyParkedIn(s.workers, q)
    case Background(_, _, p, keys, maximum) =>
      p == q && HasRoom(s, t, InvocationFor(p, keys), maximum) && NobodyParkedIn(s.workers, q)
  }

  /** What has become of task `t` of worker `w`, and of the background task, once the worker has got its reply. */
  ghost predicate Outcome(a: State, b: State, t: TaskId, verdict: Verdict)
    requires t in a.tasks
  {
    match verdict
    case Done => t in b.tasks && b.tasks[t] == a.tasks[t].(worker := None, completed := true)
    case Background(x, o, q, keys, maximum) =>
      && t in b.tasks && b.tasks[t] == a.tasks[t].(worker := None, completed := true)
      && RunsInBackground(a, b, t, x, o, InvocationFor(q, keys), maximum)
    case Retry(q) => RunsAgain(a.tasks[t], b.tasks, t, q, b.queuedAt) && b.dedup == a.dedup
  }

  lemma {:induction false} QueuedTasks(s: State, t: TaskId)
    requires Consistent(s, {}) && t in s.tasks && s.tasks[t].Queued()
    ensures AllQueued(s.queuedAt, s.tasks[t])
  {
    LiveTask(s, {}, t);
  }

  /** Whatever task the worker is given next, be it the same one again. */
  lemma {:induction false} FinishedBy(
    a: State, b: State, t: TaskId, verdict: Verdict, w: Worker, preferBeingIdle: bool, r: Reply)
    requires t in a.tasks && !a.tasks[t].completed && Consistent(b, {})
    requires verdict.Background? ==> verdict.task !in a.tasks
    requires CompletesAndHands(a, b, t, true, verdict, w, preferBeingIdle, true, r)
    ensures Outcome(a, b, t, verdict)
  {
    var m: State :| Completes(a, m, t, true, verdict) && Hands(m, b, w, preferBeingIdle, true, r);
    if verdict.Retry? {
      RerunAndHanded(a, m, b, t, verdict.queue, w, preferBeingIdle, r);
    } else {
      EndedAndHanded(a, m, b, t, verdict, w, preferBeingIdle, r);
    }
  }

  lemma {:induction false} RerunAndHanded(
    a: State, m: State, b: State, t: TaskId, q: nat, w: Worker, preferBeingIdle: bool, r: Reply)
    requires t in a.tasks && !a.tasks[t].completed && Consistent(b, {}) && Reruns(a, m, t, true, q)
    requires Hands(m, b, w, preferBeingIdle, true, r)
    ensures Outcome(a, b, t, Retry(q))
  {
    if b.tasks[t].worker.None? { QueuedTasks(b, t); }
  }

  lemma {:induction false} EndedAndHanded(
    a: State, m: State, b: State, t: TaskId, verdict: Verdict, w: Worker, preferBeingIdle: bool, r: Reply)
    requires t in a.tasks && !verdict.Retry? && Consistent(b, {}) && Ends(a, m, t, true, verdict)
    requires verdict.Background? ==> verdict.task !in a.tasks
    requires Hands(m, b, w, preferBeingIdle, true, r)
    ensures Outcome(a, b, t, verdict)
  {
    if verdict.Background? && HasRoom(a, t, InvocationFor(verdict.queue, verdict.keys), verdict.maximum) {
      assert b.tasks[verdict.task] == m.tasks[verdict.task].(worker := b.tasks[verdict.task].worker);
      if b.tasks[verdict.task].worker.None? { QueuedTasks(b, verdict.task); }
    }
  }

  /** Another task in the table, or another state of one that was not queued. */
  lemma {:induction false} QueuedWith(a: map<TaskId, Task>, x: TaskId, task: Task, q: nat, p: nat)
    requires x in a ==> !a[x].Queued()
    requires task.operations != map[] && forall n :: n in task.operations ==> QueueOf(n) == p
    ensures HasQueued(a[x := task], q) <==> HasQueued(a, q) || (task.Queued() && p == q)
  {
    var b := a[x := task];
    if HasQueued(a, q) {
      var t, n :| t in a && a[t].Queued() && n in a[t].operations && QueueOf(n) == q;
      assert b[t] == a[t] && n in b[t].operations;
    }
    assert task.operations.Keys != {};
    var n :| n in task.operations.Keys;
    assert n in b[x].operations;
    if HasQueued(b, q) {
      var t, k :| t in b && b[t].Queued() && k in b[t].operations && QueueOf(k) == q;
      assert t != x ==> b[t] == a[t] && k in a[t].operations;
    }
  }

  lemma {:induction false} QueuedWithout(a: map<TaskId, Task>, x: TaskId, task: Task, q: nat)
    requires x in a && !a[x].Queued() && !task.Queued()
    ensures HasQueued(a[x := task], q) <==> HasQueued(a, q)
  {
    var b := a[x := task];
    if HasQueued(a, q) {
      var t, n :| t in a && a[t].Queued() && n in a[t].operations && QueueOf(n) == q;
      assert b[t] == a[t] && n in b[t].operations;
    }
    if HasQueued(b, q) {
      var t, k :| t in b && b[t].Queued() && k in b[t].operations && QueueOf(k) == q;
      assert b[t] == a[t] && k in a[t].operations;
    }
  }

  lemma {:induction false} PlacedOrQueued(workers: map<Worker, WorkerState>, task: Task, drains: set<Drain>, p: nat)
    requires Placed(workers, task, drains) && !task.completed && task.operations != map[]
    requires forall n :: n in task.operations ==> QueueOf(n) == p
    ensures task.Queued() <==> NobodyParkedIn(workers, p)
  {
    assert task.operations.Keys != {};
    var n :| n in task.operations.Keys;
  }

  lemma {:induction false} MovedQueue(operations: map<Invocation, Operation>, moved: map<Invocation, Operation>, q: nat)
    requires MovedTo(operations, moved, q) && operations != map[]
    ensures moved != map[] && forall n :: n in moved ==> QueueOf(n) == q
  {
    assert operations.Keys != {};
    var k :| k in operations.Keys;
    assert Move(q, k) in moved;
    forall n | n in moved ensures QueueOf(n) == q {
      var m :| m in operations && Move(q, m) == n;
      MoveShape(q, m);
    }
  }

  /** What is queued once the task of a worker is completed. */
  lemma {:induction false} QueuedAfter(
    a: State, m: State, t: TaskId, byWorker: bool, verdict: Verdict, q: nat)
    requires t in a.tasks && a.tasks[t].worker.Some? && !a.tasks[t].completed && a.tasks[t].operations != map[]
    requires verdict.Background? ==> verdict.task !in a.tasks
    requires Completes(a, m, t, byWorker, verdict)
    ensures HasQueued(m.tasks, q) <==> HasQueued(a.tasks, q) || Adds(a, t, verdict, q)
  {
    var task := a.tasks[t].(worker := None, completed := true);
    match verdict {
      case Retry(p) =>
        MovedQueue(a.tasks[t].operations, m.tasks[t].operations, p);
        PlacedOrQueued(a.workers, m.tasks[t], a.drains, p);
        QueuedWith(a.tasks, t, m.tasks[t], q, p);
      case Done =>
        QueuedWithout(a.tasks, t, task, q);
      case Background(x, o, p, keys, maximum) =>
        QueuedWithout(a.tasks, t, task, q);
        var n := InvocationFor(p, keys);
        InvocationForQueue(p, keys);
        if HasRoom(a, t, n, maximum) {
          assert n in m.tasks[x].operations;
          PlacedOrQueued(a.workers, m.tasks[x], a.drains, p);
          QueuedWith(a.tasks[t := task], x, m.tasks[x], q, p);
        }
    }
  }

  /** What a worker is told once its task has been completed, as known before that. */
  lemma {:induction false} CompletedReply(
    a: State, b: State, t: TaskId, byWorker: bool, verdict: Verdict, w: Worker, preferBeingIdle: bool, mayBlock: bool,
    r: Reply)
    requires t in a.tasks && a.tasks[t].worker.Some? && !a.tasks[t].completed && a.tasks[t].operations != map[]
    requires verdict.Background? ==> verdict.task !in a.tasks
    requires CompletesAndHands(a, b, t, byWorker, verdict, w, preferBeingIdle, mayBlock, r)
    ensures w.Worker? && MayWork(a.workers, a.drains, w) == MayWork(b.workers, b.drains, w)
    ensures NextReply(r, preferBeingIdle, mayBlock, MayWork(a.workers, a.drains, w),
      HasQueued(a.tasks, w.queue) || Adds(a, t, verdict, w.queue))
  {
    var m: State :| Completes(a, m, t, byWorker, verdict) && Hands(m, b, w, preferBeingIdle, mayBlock, r);
    QueuedAfter(a, m, t, byWorker, verdict, w.queue);
    TerminatingSame(a, m, t, byWorker, verdict);
    HandsKeeps(m, b, w, preferBeingIdle, mayBlock, r);
  }

  /** What Synchronize() replies, if the worker has no other call in progress. */
  ghost predicate Told(s: State, w: Worker, report: Report, preferBeingIdle: bool, giveUp: bool, r: Reply)
    requires w.Worker?
  {
    ToldBy(Reports(s, w, report), CurrentTask(s, w), CouldWork(s, w), HasQueued(s.tasks, w.queue),
      AddsReported(s, w, report), report.Executing?, preferBeingIdle, giveUp, r)
  }

  /** What the reply depends on: whether the worker reports on its current task, and if not, what that is; whether it
      may be given tasks; and whether there are any, or will be once its task is completed. */
  predicate ToldBy(
    reports: bool, task: Option<TaskId>, eligible: bool, queued: bool, adds: bool, executing: bool,
    preferBeingIdle: bool, giveUp: bool, r: Reply)
  {
    if reports then
      if executing then r.Continue? else NextReply(r, preferBeingIdle, true, eligible, queued || adds)
    else if task.Some? && !giveUp then r == Reply.Execute(task.value)
    else NextReply(r, preferBeingIdle, !executing, eligible, queued)
  }

  ghost function CurrentTask(s: State, w: Worker): Option<TaskId> { if w in s.workers then s.workers[w].task else None }

  ghost predicate AddsReported(s: State, w: Worker, report: Report)
    requires w.Worker?
  {
    && report.Finished? && RunsDigest(s, w, report.digest)
    && Adds(s, s.workers[w].task.value, report.verdict, w.queue)
  }

  /** The worker reports on the task that it was given. */
  ghost predicate Reports(s: State, w: Worker, report: Report) {
    !report.Idle? && RunsDigest(s, w, report.digest)
  }

  /** The worker may be given tasks, or could be if it were known. */
  ghost predicate CouldWork(s: State, w: Worker) {
    !(w in s.workers && s.workers[w].terminating) && !Drained(s.drains, w)
  }

  lemma {:induction false} AddsJoined(s: State, w: Worker, t: TaskId, verdict: Verdict, q: nat)
    requires w.Worker? && w in s.workers && t in s.tasks
    ensures Adds(Joined(s, w), t, verdict, q) == Adds(s, t, verdict, q)
  {
    var j := Joined(s, w);
    assert j.tasks == s.tasks && j.ops == s.ops;
    assert NobodyParkedIn(j.workers, q) == NobodyParkedIn(s.workers, q) by {
      assert forall u :: u in j.workers ==> u in s.workers && j.workers[u].parked == s.workers[u].parked;
    }
  }

  /** A worker that just called is told the same. */
  lemma {:induction false} ToldJoined(
    s: State, w: Worker, report: Report, preferBeingIdle: bool, giveUp: bool, r: Reply)
    requires w.Worker? && Told(Joined(s, w), w, report, preferBeingIdle, giveUp, r)
    ensures Told(s, w, report, preferBeingIdle, giveUp, r)
  {
    JoinedSame(s, w, report);
  }

  lemma {:induction false} JoinedSame(s: State, w: Worker, report: Report)
    requires w.Worker?
    ensures var j := Joined(s, w);
      && j.tasks == s.tasks && CouldWork(j, w) == CouldWork(s, w) && Reports(j, w, report) == Reports(s, w, report)
      && CurrentTask(j, w) == CurrentTask(s, w) && AddsReported(j, w, report) == AddsReported(s, w, report)
  {
    if w in s.workers && s.workers[w].task.Some? && s.workers[w].task.value in s.tasks && report.Finished? {
      AddsJoined(s, w, s.workers[w].task.value, report.verdict, w.queue);
    }
  }

  /** A worker that does not report on its current task. */
  lemma {:induction false} ToldCurrent(
    s: State, w: Worker, report: Report, preferBeingIdle: bool, giveUp: bool, r: Reply)
    requires w.Worker? && w in s.workers && !Reports(s, w, report)
    requires
      if s.workers[w].task.Some? && !giveUp then r == Reply.Execute(s.workers[w].task.value)
      else NextReply(r, preferBeingIdle, !report.Executing?, MayWork(s.workers, s.drains, w),
        HasQueued(s.tasks, w.queue))
    ensures Told(s, w, report, preferBeingIdle, giveUp, r)
  {
  }

  lemma {:induction false} JoinedKeeps(
    s: map<Worker, WorkerState>, w: Worker, joined: WorkerState, after: map<Worker, WorkerState>, drains: set<Drain>)
    requires w in s ==> joined == s[w].(synchronizing := true)
    requires w !in s ==> joined.task.None?
    requires QuietKept(s[w := joined], after, Some(w)) && OnlyEligible(s[w := joined], after, drains)
    requires after.Keys == s[w := joined].Keys
    ensures QuietKept(s, after, Some(w)) && OnlyEligible(s, after, drains) && after.Keys == s.Keys + {w}
  {
    var j := s[w := joined];
    forall u | Some(u) != Some(w) && IsQuiet(s, u) ensures IsQuiet(after, u) { assert IsQuiet(j, u); }
    forall u | u in after && after[u].task.Some? && !(u in s && s[u].task == after[u].task)
      ensures !after[u].terminating && !Drained(drains, u)
    {
      assert u in j && j[u].task != after[u].task;
    }
    forall u | u in s && u in after ensures after[u].terminating == s[u].terminating { assert u in j; }
  }

  lemma {:induction false} FinishedJoined(a: State, b: State, w: Worker, t: TaskId, verdict: Verdict)
    requires w.Worker? && w in a.workers && t in a.tasks && Outcome(Joined(a, w), b, t, verdict)
    ensures Outcome(a, b, t, verdict)
  {
  }

  lemma {:induction false} TerminatingSame(a: State, m: State, t: TaskId, byWorker: bool, verdict: Verdict)
    requires t in a.tasks && Completes(a, m, t, byWorker, verdict)
    ensures m.drains == a.drains && m.workers.Keys == a.workers.Keys && TerminatingKept(a.workers, m.workers)
  {
  }

  lemma {:induction false} HandsKeeps(
    a: State, b: State, w: Worker, preferBeingIdle: bool, mayBlock: bool, r: Reply)
    requires Hands(a, b, w, preferBeingIdle, mayBlock, r)
    ensures b.workers.Keys == a.workers.Keys && QuietKept(a.workers, b.workers, Some(w))
    ensures OnlyEligible(a.workers, b.workers, b.drains) && CompletedStay(a.tasks, b.tasks)
    ensures MayWork(b.workers, b.drains, w) == MayWork(a.workers, a.drains, w)
  {
  }

  /** Nothing happens to workers other than the one executing the task. */
  lemma {:induction false} OthersSame(
    a: map<Worker, WorkerState>, b: map<Worker, WorkerState>, t: TaskId, w: Worker, byWorker: bool,
    keys: set<Invocation>)
    requires WorkersAfter(a, b, t, byWorker, keys, t, None) && forall u :: u in a && a[u].task == Some(t) ==> u == w
    ensures b - {w} == a - {w}
  {
  }

  lemma {:induction false} LessOne(a: map<Worker, WorkerState>, w: Worker, drains: set<Drain>)
    ensures QuietKept(a, a - {w}, None) && OnlyEligible(a, a - {w}, drains)
  {
  }

  // ----- Composing the steps -----

  /** A task that nobody executes is scheduled. */
  lemma {:induction false} ScheduledAfter(
    t: TaskId, byWorker: bool, keys: set<Invocation>, x: TaskId, task: Task, before: map<Worker, WorkerState>,
    after: map<Worker, WorkerState>, queuedAt: map<Operation, Invocation>, drains: set<Drain>)
    requires Scheduled(x, task, before, after, queuedAt, drains)
    requires forall u :: u in before ==> before[u].task != Some(t)
    ensures Placed(before, task, drains) && WorkersAfter(before, after, t, byWorker, keys, x, task.worker)
  {
  }

  /** A task that nobody executes is transplanted and scheduled. */
  lemma {:induction false} MovedAndScheduled(a: State, b: State, t: TaskId, byWorker: bool, q: nat)
    requires t in a.tasks && t in b.tasks && b.dedup == a.dedup && b.drains == a.drains
    requires b.ops == Relocated(a.ops, t, q) && a.tasks[t].worker.None?
    requires b.tasks == a.tasks[t := a.tasks[t].(operations := b.tasks[t].operations, worker := b.tasks[t].worker)]
    requires MovedTo(a.tasks[t].operations, b.tasks[t].operations, q)
    requires Scheduled(t, b.tasks[t], a.workers, b.workers, b.queuedAt, b.drains)
    requires forall u :: u in a.workers ==> a.workers[u].task != Some(t)
    ensures Reruns(a, b, t, byWorker, q) && Retried(a.tasks[t], b.tasks[t], q, a.workers, b.queuedAt, b.drains)
    ensures OnlyEligible(a.workers, b.workers, b.drains)
  {
    ScheduledAfter(
      t, byWorker, a.tasks[t].operations.Keys, t, b.tasks[t], a.workers, b.workers, b.queuedAt, b.drains);
    ScheduledEligible(t, b.tasks[t], a.workers, b.workers, b.queuedAt, b.drains);
  }

  /** State `s` is state `a`, but with task `t` taken from the queue or its worker. */
  ghost predicate Stops(a: State, s: State, t: TaskId, byWorker: bool)
    requires t in a.tasks
  {
    && s.tasks == a.tasks[t := a.tasks[t].(worker := None)] && s.ops == a.ops && s.dedup == a.dedup
    && s.drains == a.drains
    && WorkersAfter(a.workers, s.workers, t, byWorker, a.tasks[t].operations.Keys, t, None)
    && (forall u :: u in a.workers && a.workers[u].task == Some(t) ==> !a.workers[u].parked)
  }

  lemma {:induction false} WorkersComposed(
    a: map<Worker, WorkerState>, s: map<Worker, WorkerState>, b: map<Worker, WorkerState>, t: TaskId, byWorker: bool,
    keys: set<Invocation>, x: TaskId, given: Option<Worker>)
    requires WorkersAfter(a, s, t, byWorker, keys, t, None) && WorkersAfter(s, b, t, byWorker, keys, x, given)
    requires forall u :: u in a && a[u].task == Some(t) ==> given != Some(u)
    ensures WorkersAfter(a, b, t, byWorker, keys, x, given)
  {
  }

  lemma {:induction false} PlacedBefore(
    a: map<Worker, WorkerState>, s: map<Worker, WorkerState>, t: TaskId, byWorker: bool, keys: set<Invocation>,
    task: Task, drains: set<Drain>)
    requires WorkersAfter(a, s, t, byWorker, keys, t, None) && Placed(s, task, drains)
    requires forall u :: u in a && a[u].task == Some(t) ==> !a[u].parked
    ensures Placed(a, task, drains) && forall u :: u in a && a[u].task == Some(t) ==> task.worker != Some(u)
  {
    if task.worker.Some? { NearestSame(s, a, task.worker.value, task.operations.Keys); }
  }

  lemma {:induction false} StopsAndEnds(a: State, s: State, b: State, t: TaskId, byWorker: bool, verdict: Verdict)
    requires t in a.tasks && !verdict.Retry? && Stops(a, s, t, byWorker) && Ends(s, b, t, byWorker, verdict)
    ensures Ends(a, b, t, byWorker, verdict)
  {
    var task := a.tasks[t];
    var keys := task.operations.Keys;
    assert s.tasks[t := s.tasks[t].(worker := None, completed := true)] ==
      a.tasks[t := task.(worker := None, completed := true)];
    if verdict.Background? && HasRoom(a, t, InvocationFor(verdict.queue, verdict.keys), verdict.maximum) {
      PlacedBefore(a.workers, s.workers, t, byWorker, keys, b.tasks[verdict.task], a.drains);
      WorkersComposed(a.workers, s.workers, b.workers, t, byWorker, keys, verdict.task, b.tasks[verdict.task].worker);
    } else {
      WorkersComposed(a.workers, s.workers, b.workers, t, byWorker, keys, t, None);
    }
  }

  lemma {:induction false} StopsAndReruns(a: State, s: State, b: State, t: TaskId, byWorker: bool, q: nat)
    requires t in a.tasks && Stops(a, s, t, byWorker) && Reruns(s, b, t, byWorker, q)
    ensures Reruns(a, b, t, byWorker, q)
  {
    var keys := a.tasks[t].operations.Keys;
    PlacedBefore(a.workers, s.workers, t, byWorker, keys, b.tasks[t], a.drains);
    WorkersComposed(a.workers, s.workers, b.workers, t, byWorker, keys, t, b.tasks[t].worker);
  }

  lemma {:induction false} StopsAndCompletes(a: State, s: State, b: State, t: TaskId, byWorker: bool, verdict: Verdict)
    requires t in a.tasks && !a.tasks[t].completed && Stops(a, s, t, byWorker)
    requires Completes(s, b, t, byWorker, verdict)
    ensures Completes(a, b, t, byWorker, verdict)
  {
    if verdict.Retry? {
      StopsAndReruns(a, s, b, t, byWorker, verdict.queue);
    } else {
      StopsAndEnds(a, s, b, t, byWorker, verdict);
    }
  }

  /** What is queued according to the invocations, is according to the tables. */
  lemma {:induction false} QueuedInQueue(s: State, q: nat)
    requires Consistent(s, {})
    ensures HasQueued(s.tasks, q) <==> exists o :: o in s.queuedAt && QueueOf(s.queuedAt[o]) == q
  {
    OpenState(s, {});
    if HasQueued(s.tasks, q) {
      var t, n :| t in s.tasks && s.tasks[t].Queued() && n in s.tasks[t].operations && QueueOf(n) == q;
      LiveTask(s, {}, t);
      var o := s.tasks[t].operations[n];
      assert o in s.queuedAt && QueueOf(s.queuedAt[o]) == q;
    }
    if o :| o in s.queuedAt && QueueOf(s.queuedAt[o]) == q {
      QueuedOperation(s, o);
      OperationTask(s, o);
      assert s.ops[o].invocation in s.tasks[s.ops[o].task].operations;
    }
  }

  /** The operations queued in an invocation, while task `t` is about to be completed. */
  lemma {:induction false} QueuedInExact(s: State, t: TaskId, n: Invocation)
    requires Consistent(s, {t}) && t in s.tasks
    requires forall n :: n in s.tasks[t].operations ==> s.tasks[t].operations[n] !in s.queuedAt
    ensures QueuedIn(s.tasks[t := s.tasks[t].(worker := None, completed := true)], s.ops, n) ==
      PlacedAt(s.queuedAt, n)
  {
    OpenState(s, {t});
  }
}
