/**
 pkg/scheduler/in_memory_build_queue.go for single-node tasks: what tasks, operations, workers and
 drains look like between any two lock-held sections, and how the steps of the scheduler keep it so.
 */
module SchedulerTables {
  import opened Common
  import opened InvocationTree
  import opened InvocationPresence
  import opened InvocationCounts
  import opened InvocationForest

  type TaskId = nat
  type Digest = string
  type Pattern = map<string, string>

  datatype Task = Task(
    operations: map<Invocation, Operation>, digest: Digest, worker: Option<Worker>, completed: bool)
  {
    /** getStage() */
    predicate Queued() { !completed && worker.None? }
  }

  /** An operation: which task it is for, and the invocation it is part of. */
  datatype OperationState = OperationState(task: TaskId, invocation: Invocation)

  /** `parked` stands for `wakeup` being set; `synchronizing` for a call to Synchronize() being in progress. */
  datatype WorkerState = WorkerState(
    task: Option<TaskId>, last: Option<Invocation>, parked: bool, terminating: bool, synchronizing: bool)

  datatype Drain = Drain(queue: nat, pattern: Pattern)

  /** workerMatchesPattern() */
  predicate Matches(w: Worker, pattern: Pattern) {
    w.Worker? && forall k :: k in pattern ==> (if k in w.id then w.id[k] else "") == pattern[k]
  }

  // ----- Invariants -----

  /** An idle worker has a last invocation, and only an idle worker may be parked. */
  ghost predicate WorkerOk(w: Worker, ws: WorkerState) {
    && w.Worker? && (ws.task.Some? <==> ws.last.None?)
    && (ws.last.Some? ==> QueueOf(ws.last.value) == w.queue)
    && (ws.parked ==> ws.task.None? && ws.synchronizing && !ws.terminating)
  }

  ghost predicate WorkersOk(workers: map<Worker, WorkerState>) { forall w :: w in workers ==> WorkerOk(w, workers[w]) }

  /** worker.currentTask and task.currentWorker are each other's inverse. */
  ghost predicate Inverse(workers: map<Worker, WorkerState>, tasks: map<TaskId, Task>) {
    && (forall w :: w in workers && workers[w].task.Some? ==>
          workers[w].task.value in tasks && tasks[workers[w].task.value].worker == Some(w))
    && (forall t :: t in tasks && tasks[t].worker.Some? ==>
          tasks[t].worker.value in workers && workers[tasks[t].worker.value].task == Some(t))
  }

  ghost predicate TaskOk(task: Task) {
    && (task.worker.Some? ==>
          !task.completed && task.worker.value.Worker? && forall n :: n in task.operations ==>
            QueueOf(n) == task.worker.value.queue)
    && (!task.completed ==> task.operations != map[])
    && (forall m, n :: m in task.operations && n in task.operations ==> QueueOf(m) == QueueOf(n))
  }

  ghost predicate TasksOk(tasks: map<TaskId, Task>) { forall t :: t in tasks ==> TaskOk(tasks[t]) }

  /** Operations and tasks refer to each other. */
  ghost predicate OperationsOk(ops: map<Operation, OperationState>, tasks: map<TaskId, Task>) {
    && (forall o :: o in ops ==>
          && ops[o].task in tasks && ops[o].invocation in tasks[ops[o].task].operations
          && tasks[ops[o].task].operations[ops[o].invocation] == o)
    && (forall t, n :: t in tasks && n in tasks[t].operations ==>
          tasks[t].operations[n] in ops && ops[tasks[t].operations[n]] == OperationState(t, n))
  }

  /** Workers and unfinished tasks belong to size class queues that exist. */
  ghost predicate QueuesOk(nodes: set<Invocation>, tasks: map<TaskId, Task>, workers: map<Worker, WorkerState>) {
    && (forall w :: w in workers && w.Worker? ==> Root(w.queue) in nodes)
    && (forall t, n :: t in tasks && !tasks[t].completed && n in tasks[t].operations ==> Root(QueueOf(n)) in nodes)
  }

  ghost function Running(workers: map<Worker, WorkerState>, tasks: map<TaskId, Task>, w: Worker): set<Invocation> {
    if w in workers && workers[w].task.Some? && workers[w].task.value in tasks
    then tasks[workers[w].task.value].operations.Keys else {}
  }

  ghost predicate RunsOk(
    runs: map<Worker, set<Invocation>>, workers: map<Worker, WorkerState>, tasks: map<TaskId, Task>)
  {
    forall w :: Runs(runs, w) == Running(workers, tasks, w)
  }

  ghost predicate LastOk(last: map<Worker, Invocation>, workers: map<Worker, WorkerState>) {
    && (forall w :: w in last <==> w in workers && workers[w].last.Some?)
    && (forall w :: w in last ==> workers[w].last == Some(last[w]))
  }

  ghost predicate ParkedOk(parkedAt: map<Worker, Invocation>, workers: map<Worker, WorkerState>) {
    && (forall w :: w in parkedAt <==> w in workers && workers[w].parked)
    && (forall w :: w in parkedAt ==> workers[w].last == Some(parkedAt[w]))
  }

  /** Queued are the operations of tasks in the QUEUED stage, leaving aside those of some tasks. */
  ghost predicate QueuedOk(
    queuedAt: map<Operation, Invocation>, ops: map<Operation, OperationState>, tasks: map<TaskId, Task>,
    but: set<TaskId>)
  {
    && (forall o :: o in queuedAt ==> o in ops && queuedAt[o] == ops[o].invocation)
    && (forall o :: o in ops && ops[o].task in tasks && ops[o].task !in but ==>
          (o in queuedAt <==> tasks[ops[o].task].Queued()))
  }

  /** Deduplication is against unfinished tasks for the same action. */
  ghost predicate DedupOk(dedup: map<Digest, TaskId>, tasks: map<TaskId, Task>) {
    forall d :: d in dedup ==> dedup[d] in tasks && tasks[dedup[d]].digest == d && !tasks[dedup[d]].completed
  }

  /** isDrained(), leaving aside termination. */
  predicate Drained(drains: set<Drain>, w: Worker) {
    w.Worker? && exists d :: d in drains && d.queue == w.queue && Matches(w, d.pattern)
  }

  ghost predicate DrainsOk(drains: set<Drain>, workers: map<Worker, WorkerState>) {
    forall w :: w in workers && workers[w].parked ==> !Drained(drains, w)
  }

  /** No operation is queued while a worker of the same size class queue is parked. */
  ghost predicate Conserving(queuedAt: map<Operation, Invocation>, parkedAt: map<Worker, Invocation>) {
    forall o, w :: o in queuedAt && w in parkedAt ==> QueueOf(queuedAt[o]) != QueueOf(parkedAt[w])
  }

  /** All that the scheduler keeps track of, along with what the invocations reflect of it. */
  datatype State = State(
    tasks: map<TaskId, Task>, workers: map<Worker, WorkerState>, ops: map<Operation, OperationState>,
    dedup: map<Digest, TaskId>, drains: set<Drain>,
    nodes: set<Invocation>, runs: map<Worker, set<Invocation>>, last: map<Worker, Invocation>,
    queuedAt: map<Operation, Invocation>, parkedAt: map<Worker, Invocation>)

  /** Everything holds, but for what is queued of tasks that are on their way from one stage to another. (The layers are
      there for the verifier, which is to look at the definition only where it is opened.) */
  ghost predicate Consistent(s: State, but: set<TaskId>, layers: nat := 3)
    decreases s, layers
  {
    if layers == 0 then Opened(s, but) else Consistent(s, but, layers - 1)
  }

  lemma {:induction false} OpenState(s: State, but: set<TaskId>)
    ensures Consistent(s, but) <==> Opened(s, but)
  {
    assert Consistent(s, but) == Consistent(s, but, 2);
    assert Consistent(s, but, 2) == Consistent(s, but, 1);
    assert Consistent(s, but, 1) == Consistent(s, but, 0);
  }

  ghost predicate Opened(s: State, but: set<TaskId>) {
    && WorkersOk(s.workers) && TasksOk(s.tasks) && Inverse(s.workers, s.tasks) && OperationsOk(s.ops, s.tasks)
    && QueuesOk(s.nodes, s.tasks, s.workers)
    && RunsOk(s.runs, s.workers, s.tasks) && LastOk(s.last, s.workers) && ParkedOk(s.parkedAt, s.workers)
    && QueuedOk(s.queuedAt, s.ops, s.tasks, but)
    && DedupOk(s.dedup, s.tasks) && DrainsOk(s.drains, s.workers) && Conserving(s.queuedAt, s.parkedAt)
  }

  // ----- Changes of one worker -----

  lemma {:induction false} WorkersPut(workers: map<Worker, WorkerState>, w: Worker, ws: WorkerState)
    requires WorkersOk(workers) && WorkerOk(w, ws)
    ensures WorkersOk(workers[w := ws])
  {
  }

  lemma {:induction false} LastSame(
    last: map<Worker, Invocation>, workers: map<Worker, WorkerState>, w: Worker, ws: WorkerState)
    requires LastOk(last, workers) && w in workers && ws.last == workers[w].last
    ensures LastOk(last, workers[w := ws])
  {
  }

  lemma {:induction false} LastPut(
    last: map<Worker, Invocation>, workers: map<Worker, WorkerState>, w: Worker, ws: WorkerState)
    requires LastOk(last, workers)
    ensures LastOk(if ws.last.Some? then last[w := ws.last.value] else last - {w}, workers[w := ws])
  {
  }

  lemma {:induction false} ParkedSame(
    at: map<Worker, Invocation>, workers: map<Worker, WorkerState>, w: Worker, ws: WorkerState)
    requires ParkedOk(at, workers)
    requires if w in workers then ws.parked == workers[w].parked && (ws.parked ==> ws.last == workers[w].last)
      else !ws.parked
    ensures ParkedOk(at, workers[w := ws])
  {
  }

  lemma {:induction false} ParkedPut(
    at: map<Worker, Invocation>, workers: map<Worker, WorkerState>, w: Worker, ws: WorkerState)
    requires ParkedOk(at, workers) && (ws.parked ==> ws.last.Some?)
    ensures ParkedOk(if ws.parked then at[w := ws.last.value] else at - {w}, workers[w := ws])
  {
  }

  lemma {:induction false} DrainsPut(drains: set<Drain>, workers: map<Worker, WorkerState>, w: Worker, ws: WorkerState)
    requires DrainsOk(drains, workers) && (ws.parked ==> !Drained(drains, w))
    ensures DrainsOk(drains, workers[w := ws])
  {
  }

  lemma {:induction false} InverseSame(
    workers: map<Worker, WorkerState>, tasks: map<TaskId, Task>, w: Worker, ws: WorkerState)
    requires Inverse(workers, tasks) && if w in workers then ws.task == workers[w].task else ws.task.None?
    ensures Inverse(workers[w := ws], tasks)
  {
  }

  lemma {:induction false} RunsSame(
    runs: map<Worker, set<Invocation>>, workers: map<Worker, WorkerState>, tasks: map<TaskId, Task>, w: Worker,
    ws: WorkerState)
    requires RunsOk(runs, workers, tasks) && if w in workers then ws.task == workers[w].task else ws.task.None?
    ensures RunsOk(runs, workers[w := ws], tasks)
  {
    forall u ensures Running(workers[w := ws], tasks, u) == Running(workers, tasks, u) {}
  }

  lemma {:induction false} QueuesPut(
    nodes: set<Invocation>, tasks: map<TaskId, Task>, workers: map<Worker, WorkerState>, w: Worker, ws: WorkerState)
    requires QueuesOk(nodes, tasks, workers) && w.Worker? && Root(w.queue) in nodes
    ensures QueuesOk(nodes, tasks, workers[w := ws])
  {
  }

  // ----- Changes of one task, but not of its operations -----

  lemma {:induction false} TasksPut(tasks: map<TaskId, Task>, t: TaskId, task: Task)
    requires TasksOk(tasks) && TaskOk(task)
    ensures TasksOk(tasks[t := task])
  {
  }

  lemma {:induction false} OperationsSame(
    ops: map<Operation, OperationState>, tasks: map<TaskId, Task>, t: TaskId, task: Task)
    requires OperationsOk(ops, tasks) && t in tasks && task.operations == tasks[t].operations
    ensures OperationsOk(ops, tasks[t := task])
  {
  }

  lemma {:induction false} QueuesSame(
    nodes: set<Invocation>, tasks: map<TaskId, Task>, workers: map<Worker, WorkerState>, t: TaskId, task: Task)
    requires QueuesOk(nodes, tasks, workers) && t in tasks && task.operations == tasks[t].operations
    requires tasks[t].completed ==> task.completed
    ensures QueuesOk(nodes, tasks[t := task], workers)
  {
  }

  lemma {:induction false} QueuesKept(
    nodes: set<Invocation>, nodes': set<Invocation>, tasks: map<TaskId, Task>, workers: map<Worker, WorkerState>)
    requires QueuesOk(nodes, tasks, workers) && forall n :: n in nodes && n.Root? ==> n in nodes'
    ensures QueuesOk(nodes', tasks, workers)
  {
  }

  lemma {:induction false} QueuedSame(
    queuedAt: map<Operation, Invocation>, ops: map<Operation, OperationState>, tasks: map<TaskId, Task>,
    but: set<TaskId>, t: TaskId, task: Task)
    requires QueuedOk(queuedAt, ops, tasks, but) && t in tasks && (t in but || task.Queued() == tasks[t].Queued())
    ensures QueuedOk(queuedAt, ops, tasks[t := task], but)
  {
  }

  lemma {:induction false} DedupSame(dedup: map<Digest, TaskId>, tasks: map<TaskId, Task>, t: TaskId, task: Task)
    requires DedupOk(dedup, tasks) && t in tasks && task.digest == tasks[t].digest
    requires task.completed == tasks[t].completed
    ensures DedupOk(dedup, tasks[t := task])
  {
  }

  lemma {:induction false} InverseSameTask(
    workers: map<Worker, WorkerState>, tasks: map<TaskId, Task>, t: TaskId, task: Task)
    requires Inverse(workers, tasks) && if t in tasks then task.worker == tasks[t].worker else task.worker.None?
    ensures Inverse(workers, tasks[t := task])
  {
  }

  lemma {:induction false} RunsTask(
    runs: map<Worker, set<Invocation>>, workers: map<Worker, WorkerState>, tasks: map<TaskId, Task>, t: TaskId,
    task: Task)
    requires RunsOk(runs, workers, tasks) && t in tasks && task.operations == tasks[t].operations
    ensures RunsOk(runs, workers, tasks[t := task])
  {
    forall u ensures Running(workers, tasks[t := task], u) == Running(workers, tasks, u) {}
  }

  // ----- Waking up, and assigning tasks -----

  lemma {:induction false} WokenUp(s: State, but: set<TaskId>, w: Worker)
    requires Consistent(s, but) && w in s.workers && s.workers[w].parked
    ensures Consistent(s.(workers := s.workers[w := s.workers[w].(parked := false)], parkedAt := s.parkedAt - {w}), but)
  {
    OpenState(s, but);
    var ws := s.workers[w].(parked := false);
    WorkersPut(s.workers, w, ws);
    InverseSame(s.workers, s.tasks, w, ws);
    QueuesPut(s.nodes, s.tasks, s.workers, w, ws);
    RunsSame(s.runs, s.workers, s.tasks, w, ws);
    LastSame(s.last, s.workers, w, ws);
    ParkedPut(s.parkedAt, s.workers, w, ws);
    DrainsPut(s.drains, s.workers, w, ws);
    OpenState(s.(workers := s.workers[w := ws], parkedAt := s.parkedAt - {w}), but);
  }

  lemma {:induction false} InverseAssigned(
    workers: map<Worker, WorkerState>, tasks: map<TaskId, Task>, w: Worker, t: TaskId)
    requires Inverse(workers, tasks) && w in workers && workers[w].task.None? && t in tasks && tasks[t].worker.None?
    ensures Inverse(workers[w := workers[w].(task := Some(t), last := None)], tasks[t := tasks[t].(worker := Some(w))])
  {
  }

  lemma {:induction false} RunsAssigned(
    runs: map<Worker, set<Invocation>>, runs': map<Worker, set<Invocation>>,
    workers: map<Worker, WorkerState>, tasks: map<TaskId, Task>, w: Worker, t: TaskId)
    requires RunsOk(runs, workers, tasks) && w in workers && t in tasks
    requires Runs(runs', w) == tasks[t].operations.Keys && forall u :: u != w ==> Runs(runs', u) == Runs(runs, u)
    ensures RunsOk(runs', workers[w := workers[w].(task := Some(t), last := None)], tasks)
  {
    var workers' := workers[w := workers[w].(task := Some(t), last := None)];
    forall u ensures Runs(runs', u) == Running(workers', tasks, u) {
      if u != w { assert Running(workers', tasks, u) == Running(workers, tasks, u); }
    }
  }

  /** Worker `w` starts executing task `t`, whose operations may or may not still be queued. */
  lemma {:induction false} Assigned(
    s: State, but: set<TaskId>, w: Worker, t: TaskId, nodes: set<Invocation>, runs: map<Worker, set<Invocation>>)
    requires Consistent(s, but) && t in but && w in s.workers && t in s.tasks && s.tasks[t].Queued()
    requires s.workers[w].task.None? && !s.workers[w].parked
    requires w.Worker? && forall n :: n in s.tasks[t].operations ==> QueueOf(n) == w.queue
    requires forall n :: n in s.nodes && n.Root? ==> n in nodes
    requires Runs(runs, w) == s.tasks[t].operations.Keys && forall u :: u != w ==> Runs(runs, u) == Runs(s.runs, u)
    ensures Consistent(s.(
      tasks := s.tasks[t := s.tasks[t].(worker := Some(w))],
      workers := s.workers[w := s.workers[w].(task := Some(t), last := None)],
      nodes := nodes, runs := runs, last := s.last - {w}), but)
  {
    OpenState(s, but);
    var task, ws := s.tasks[t].(worker := Some(w)), s.workers[w].(task := Some(t), last := None);
    WorkersPut(s.workers, w, ws);
    TasksPut(s.tasks, t, task);
    InverseAssigned(s.workers, s.tasks, w, t);
    OperationsSame(s.ops, s.tasks, t, task);
    QueuesKept(s.nodes, nodes, s.tasks, s.workers);
    QueuesPut(nodes, s.tasks, s.workers, w, ws);
    QueuesSame(nodes, s.tasks, s.workers[w := ws], t, task);
    RunsAssigned(s.runs, runs, s.workers, s.tasks, w, t);
    RunsTask(runs, s.workers[w := ws], s.tasks, t, task);
    LastPut(s.last, s.workers, w, ws);
    ParkedSame(s.parkedAt, s.workers, w, ws);
    DrainsPut(s.drains, s.workers, w, ws);
    QueuedSame(s.queuedAt, s.ops, s.tasks, but, t, task);
    DedupSame(s.dedup, s.tasks, t, task);
    OpenState(s.(tasks := s.tasks[t := task], workers := s.workers[w := ws], nodes := nodes, runs := runs,
      last := s.last - {w}), but);
  }

  /** Once the operations of task `t` are not queued, and it is not in the QUEUED stage, nothing is left to be done for
      it. */
  lemma {:induction false} Settled(s: State, but: set<TaskId>, t: TaskId)
    requires Consistent(s, but) && t in s.tasks && !s.tasks[t].Queued()
    requires forall n :: n in s.tasks[t].operations ==> s.tasks[t].operations[n] !in s.queuedAt
    ensures Consistent(s, but - {t})
  {
    OpenState(s, but);
    forall o | o in s.ops && s.ops[o].task in s.tasks && s.ops[o].task !in but - {t}
      ensures o in s.queuedAt <==> s.tasks[s.ops[o].task].Queued()
    {
    }
    OpenState(s, but - {t});
  }

  /** The operations of task `t` are the only ones that are no longer queued. */
  ghost predicate Without(
    queuedAt: map<Operation, Invocation>, queuedAt': map<Operation, Invocation>, ops: map<Invocation, Operation>)
  {
    && (forall o :: o in queuedAt' <==> o in queuedAt && forall n :: n in ops ==> ops[n] != o)
    && (forall o :: o in queuedAt' ==> queuedAt'[o] == queuedAt[o])
  }

  lemma {:induction false} QueuedLess(s: State, but: set<TaskId>, t: TaskId, queuedAt: map<Operation, Invocation>)
    requires OperationsOk(s.ops, s.tasks) && QueuedOk(s.queuedAt, s.ops, s.tasks, but) && t in s.tasks
    requires Without(s.queuedAt, queuedAt, s.tasks[t].operations)
    ensures QueuedOk(queuedAt, s.ops, s.tasks, but + {t})
    ensures forall n :: n in s.tasks[t].operations ==> s.tasks[t].operations[n] !in queuedAt
  {
    forall o | o in s.ops && s.ops[o].task in s.tasks && s.ops[o].task !in but + {t}
      ensures o in queuedAt <==> o in s.queuedAt
    {
    }
  }

  /** The operations of task `t` are no longer queued. */
  lemma {:induction false} Withdrawn(
    s: State, but: set<TaskId>, t: TaskId, nodes: set<Invocation>, queuedAt: map<Operation, Invocation>,
    runs: map<Worker, set<Invocation>>)
    requires Consistent(s, but) && t in s.tasks && Without(s.queuedAt, queuedAt, s.tasks[t].operations)
    requires forall n :: n in s.nodes && n.Root? ==> n in nodes
    requires forall u :: Runs(runs, u) == Runs(s.runs, u)
    ensures Consistent(s.(nodes := nodes, queuedAt := queuedAt, runs := runs), but + {t})
    ensures forall n :: n in s.tasks[t].operations ==> s.tasks[t].operations[n] !in queuedAt
  {
    OpenState(s, but);
    QueuesKept(s.nodes, nodes, s.tasks, s.workers);
    QueuedLess(s, but, t, queuedAt);
    ConservingLess(s.queuedAt, queuedAt, s.parkedAt);
    assert RunsOk(runs, s.workers, s.tasks);
    OpenState(s.(nodes := nodes, queuedAt := queuedAt, runs := runs), but + {t});
  }

  lemma {:induction false} ConservingLess(
    queuedAt: map<Operation, Invocation>, queuedAt': map<Operation, Invocation>, parkedAt: map<Worker, Invocation>)
    requires Conserving(queuedAt, parkedAt)
    requires forall o :: o in queuedAt' ==> o in queuedAt && queuedAt'[o] == queuedAt[o]
    ensures Conserving(queuedAt', parkedAt)
  {
  }

  /** The operations of task `t` are queued as well. */
  ghost predicate With(
    queuedAt: map<Operation, Invocation>, queuedAt': map<Operation, Invocation>, ops: map<Invocation, Operation>)
  {
    && (forall o :: o in queuedAt' <==> o in queuedAt || exists n :: n in ops && ops[n] == o)
    && (forall o :: o in queuedAt ==> queuedAt'[o] == queuedAt[o])
    && (forall n :: n in ops ==> queuedAt'[ops[n]] == n)
  }

  lemma {:induction false} QueuedMore(s: State, but: set<TaskId>, t: TaskId, queuedAt: map<Operation, Invocation>)
    requires OperationsOk(s.ops, s.tasks) && QueuedOk(s.queuedAt, s.ops, s.tasks, but) && t in s.tasks
    requires s.tasks[t].Queued()
    requires With(s.queuedAt, queuedAt, s.tasks[t].operations)
    ensures QueuedOk(queuedAt, s.ops, s.tasks, but - {t})
  {
    forall o | o in s.ops && s.ops[o].task in s.tasks && s.ops[o].task !in but - {t}
      ensures o in queuedAt <==> s.tasks[s.ops[o].task].Queued()
    {
      if s.ops[o].task == t {
        assert s.tasks[t].operations[s.ops[o].invocation] == o;
      }
    }
  }

  /** Task `t` is queued, as no worker of its size class queue is parked. */
  lemma {:induction false} Enqueued(s: State, but: set<TaskId>, t: TaskId, q: nat, queuedAt: map<Operation, Invocation>)
    requires Consistent(s, but) && t in s.tasks && s.tasks[t].Queued()
    requires With(s.queuedAt, queuedAt, s.tasks[t].operations)
    requires forall n :: n in s.tasks[t].operations ==> QueueOf(n) == q
    requires forall w :: w in s.parkedAt ==> QueueOf(s.parkedAt[w]) != q
    ensures Consistent(s.(queuedAt := queuedAt), but - {t})
  {
    OpenState(s, but);
    QueuedMore(s, but, t, queuedAt);
    ConservingMore(s.queuedAt, queuedAt, s.parkedAt, s.tasks[t].operations, q);
    OpenState(s.(queuedAt := queuedAt), but - {t});
  }

  lemma {:induction false} ConservingMore(
    queuedAt: map<Operation, Invocation>, queuedAt': map<Operation, Invocation>, parkedAt: map<Worker, Invocation>,
    ops: map<Invocation, Operation>, q: nat)
    requires Conserving(queuedAt, parkedAt) && With(queuedAt, queuedAt', ops)
    requires forall n :: n in ops ==> QueueOf(n) == q
    requires forall w :: w in parkedAt ==> QueueOf(parkedAt[w]) != q
    ensures Conserving(queuedAt', parkedAt)
  {
  }

  // ----- What can be read off -----

  lemma {:induction false} IdleWorker(s: State, but: set<TaskId>, w: Worker)
    requires Consistent(s, but) && w in s.workers && s.workers[w].task.None?
    ensures w.Worker? && Root(w.queue) in s.nodes && s.workers[w].last.Some?
    ensures QueueOf(s.workers[w].last.value) == w.queue
    ensures w in s.last && s.last[w] == s.workers[w].last.value && Runs(s.runs, w) == {}
    ensures s.workers[w].parked <==> w in s.parkedAt
    ensures s.workers[w].parked ==> s.parkedAt[w] == s.workers[w].last.value
  {
    OpenState(s, but);
    assert WorkerOk(w, s.workers[w]);
    assert Runs(s.runs, w) == Running(s.workers, s.tasks, w);
  }

  lemma {:induction false} BusyWorker(s: State, but: set<TaskId>, w: Worker)
    requires Consistent(s, but) && w in s.workers && s.workers[w].task.Some?
    ensures var t := s.workers[w].task.value;
      && w.Worker? && Root(w.queue) in s.nodes && t in s.tasks && s.tasks[t].worker == Some(w) && !s.tasks[t].completed
      && !s.workers[w].parked && s.workers[w].last.None? && w !in s.last && w !in s.parkedAt
      && Runs(s.runs, w) == s.tasks[t].operations.Keys && s.tasks[t].operations != map[]
      && forall n :: n in s.tasks[t].operations ==> QueueOf(n) == w.queue
  {
    OpenState(s, but);
    assert WorkerOk(w, s.workers[w]);
    assert Runs(s.runs, w) == Running(s.workers, s.tasks, w);
    assert TaskOk(s.tasks[s.workers[w].task.value]);
  }

  /** "Task is not associated with any operations" cannot happen before a task is completed. */
  lemma {:induction false} LiveTask(s: State, but: set<TaskId>, t: TaskId)
    requires Consistent(s, but) && t in s.tasks && !s.tasks[t].completed
    ensures s.tasks[t].operations != map[] && Injective(s.tasks[t].operations)
    ensures forall m, n :: m in s.tasks[t].operations && n in s.tasks[t].operations ==> QueueOf(m) == QueueOf(n)
    ensures forall n :: n in s.tasks[t].operations ==> Root(QueueOf(n)) in s.nodes
    ensures s.tasks[t].worker.Some? ==>
      s.tasks[t].worker.value in s.workers && s.workers[s.tasks[t].worker.value].task == Some(t)
    ensures forall n :: n in s.tasks[t].operations && t !in but ==>
      (s.tasks[t].operations[n] in s.queuedAt <==> s.tasks[t].worker.None?)
    ensures forall n :: n in s.tasks[t].operations && s.tasks[t].operations[n] in s.queuedAt ==>
      s.queuedAt[s.tasks[t].operations[n]] == n
  {
    OpenState(s, but);
    assert TaskOk(s.tasks[t]);
  }

  // ----- Ending an execution -----

  lemma {:induction false} InverseStopped(
    workers: map<Worker, WorkerState>, tasks: map<TaskId, Task>, w: Worker, t: TaskId, n: Invocation)
    requires Inverse(workers, tasks) && w in workers && workers[w].task == Some(t) && t in tasks
    ensures Inverse(workers[w := workers[w].(task := None, last := Some(n))], tasks[t := tasks[t].(worker := None)])
  {
  }

  lemma {:induction false} RunsStopped(
    runs: map<Worker, set<Invocation>>, runs': map<Worker, set<Invocation>>,
    workers: map<Worker, WorkerState>, tasks: map<TaskId, Task>, w: Worker, n: Invocation)
    requires RunsOk(runs, workers, tasks) && w in workers
    requires Runs(runs', w) == {} && forall u :: u != w ==> Runs(runs', u) == Runs(runs, u)
    ensures RunsOk(runs', workers[w := workers[w].(task := None, last := Some(n))], tasks)
  {
    var workers' := workers[w := workers[w].(task := None, last := Some(n))];
    forall u ensures Runs(runs', u) == Running(workers', tasks, u) {
      if u != w { assert Running(workers', tasks, u) == Running(workers, tasks, u); }
    }
  }

  /** Worker `w` no longer executes task `t`, and remembers invocation `n`. */
  lemma {:induction false} Stopped(
    s: State, but: set<TaskId>, w: Worker, t: TaskId, n: Invocation, nodes: set<Invocation>,
    runs: map<Worker, set<Invocation>>)
    requires Consistent(s, but) && w in s.workers && s.workers[w].task == Some(t) && w.Worker? && QueueOf(n) == w.queue
    requires forall n :: n in s.nodes && n.Root? ==> n in nodes
    requires Runs(runs, w) == {} && forall u :: u != w ==> Runs(runs, u) == Runs(s.runs, u)
    requires t in s.tasks
    ensures Consistent(s.(
      tasks := s.tasks[t := s.tasks[t].(worker := None)],
      workers := s.workers[w := s.workers[w].(task := None, last := Some(n))],
      nodes := nodes, runs := runs, last := s.last[w := n]), but + {t})
    ensures forall n :: n in s.tasks[t].operations && t !in but ==> s.tasks[t].operations[n] !in s.queuedAt
  {
    LiveTaskOfWorker(s, but, w);
    OpenState(s, but);
    var task, ws := s.tasks[t].(worker := None), s.workers[w].(task := None, last := Some(n));
    WorkersPut(s.workers, w, ws);
    TasksPut(s.tasks, t, task);
    InverseStopped(s.workers, s.tasks, w, t, n);
    OperationsSame(s.ops, s.tasks, t, task);
    QueuesKept(s.nodes, nodes, s.tasks, s.workers);
    QueuesPut(nodes, s.tasks, s.workers, w, ws);
    QueuesSame(nodes, s.tasks, s.workers[w := ws], t, task);
    RunsStopped(s.runs, runs, s.workers, s.tasks, w, n);
    RunsTask(runs, s.workers[w := ws], s.tasks, t, task);
    LastPut(s.last, s.workers, w, ws);
    ParkedSame(s.parkedAt, s.workers, w, ws);
    DrainsPut(s.drains, s.workers, w, ws);
    QueuedButMore(s.queuedAt, s.ops, s.tasks, but, t);
    QueuedSame(s.queuedAt, s.ops, s.tasks, but + {t}, t, task);
    DedupSame(s.dedup, s.tasks, t, task);
    OpenState(s.(tasks := s.tasks[t := task], workers := s.workers[w := ws], nodes := nodes, runs := runs,
      last := s.last[w := n]), but + {t});
  }

  lemma {:induction false} LiveTaskOfWorker(s: State, but: set<TaskId>, w: Worker)
    requires Consistent(s, but) && w in s.workers && s.workers[w].task.Some?
    ensures var t := s.workers[w].task.value;
      t in s.tasks && TaskOk(s.tasks[t].(worker := None)) && !s.workers[w].parked
      && forall n :: n in s.tasks[t].operations && t !in but ==> s.tasks[t].operations[n] !in s.queuedAt
  {
    BusyWorker(s, but, w);
    LiveTask(s, but, s.workers[w].task.value);
  }

  lemma {:induction false} QueuedButMore(
    queuedAt: map<Operation, Invocation>, ops: map<Operation, OperationState>, tasks: map<TaskId, Task>,
    but: set<TaskId>, t: TaskId)
    requires QueuedOk(queuedAt, ops, tasks, but)
    ensures QueuedOk(queuedAt, ops, tasks, but + {t})
  {
  }

  /** Task `t` is completed, and no longer there to deduplicate against. */
  lemma {:induction false} Completed(s: State, but: set<TaskId>, t: TaskId)
    requires Consistent(s, but) && t in s.tasks && s.tasks[t].Queued()
    requires forall n :: n in s.tasks[t].operations ==> s.tasks[t].operations[n] !in s.queuedAt
    ensures Consistent(s.(tasks := s.tasks[t := s.tasks[t].(completed := true)],
      dedup := s.dedup - {s.tasks[t].digest}), but - {t})
  {
    OpenState(s, but);
    var task, dedup := s.tasks[t].(completed := true), s.dedup - {s.tasks[t].digest};
    TasksPut(s.tasks, t, task);
    InverseSameTask(s.workers, s.tasks, t, task);
    OperationsSame(s.ops, s.tasks, t, task);
    QueuesSame(s.nodes, s.tasks, s.workers, t, task);
    RunsTask(s.runs, s.workers, s.tasks, t, task);
    QueuedButMore(s.queuedAt, s.ops, s.tasks, but, t);
    QueuedSame(s.queuedAt, s.ops, s.tasks, but + {t}, t, task);
    DedupCompleted(s.dedup, s.tasks, t);
    var s' := s.(tasks := s.tasks[t := task], dedup := dedup);
    OpenState(s', but + {t});
    Settled(s', but + {t}, t);
    QueuedButSame(s', but, t);
  }

  lemma {:induction false} QueuedButSame(s: State, but: set<TaskId>, t: TaskId)
    requires Consistent(s, but + {t} - {t})
    ensures Consistent(s, but - {t})
  {
    assert but + {t} - {t} == but - {t};
  }

  lemma {:induction false} DedupCompleted(dedup: map<Digest, TaskId>, tasks: map<TaskId, Task>, t: TaskId)
    requires DedupOk(dedup, tasks) && t in tasks
    ensures DedupOk(dedup - {tasks[t].digest}, tasks[t := tasks[t].(completed := true)])
  {
  }

  lemma {:induction false} ParkedWorker(s: State, but: set<TaskId>, w: Worker)
    requires Consistent(s, but) && (w in s.parkedAt || (w in s.workers && s.workers[w].parked))
    ensures w in s.workers && w.Worker? && s.workers[w].parked && s.workers[w].task.None? && s.workers[w].synchronizing
    ensures w in s.parkedAt && s.workers[w].last == Some(s.parkedAt[w]) && QueueOf(s.parkedAt[w]) == w.queue
    ensures !s.workers[w].terminating && !Drained(s.drains, w)
  {
    OpenState(s, but);
    assert WorkerOk(w, s.workers[w]);
  }

  lemma {:induction false} ButMore(s: State, but: set<TaskId>, t: TaskId)
    requires Consistent(s, but)
    ensures Consistent(s, but + {t})
    ensures but == {} ==> Consistent(s, {t})
  {
    OpenState(s, but);
    QueuedButMore(s.queuedAt, s.ops, s.tasks, but, t);
    OpenState(s, but + {t});
    if but == {} { assert but + {t} == {t}; }
  }

  lemma {:induction false} UnderQueue(m: Invocation, n: Invocation)
    requires Under(m, n)
    ensures QueueOf(m) == QueueOf(n)
  {
    UnderDepth(m, n);
  }

  lemma {:induction false} TaskWorker(s: State, but: set<TaskId>, t: TaskId)
    requires Consistent(s, but) && t in s.tasks && s.tasks[t].worker.Some?
    ensures s.tasks[t].worker.value in s.workers && s.workers[s.tasks[t].worker.value].task == Some(t)
    ensures !s.tasks[t].completed
  {
    OpenState(s, but);
    assert TaskOk(s.tasks[t]);
  }

  lemma {:induction false} NoTemporary(s: State, but: set<TaskId>)
    requires Consistent(s, but)
    ensures Temporary !in s.workers && Runs(s.runs, Temporary) == {}
  {
    OpenState(s, but);
    assert Runs(s.runs, Temporary) == Running(s.workers, s.tasks, Temporary);
    assert Temporary in s.workers ==> WorkerOk(Temporary, s.workers[Temporary]);
  }

  // ----- New tasks -----

  /** A task `t` with one operation `o` in invocation `n` comes into existence. */
  lemma {:induction false} Created(
    s: State, but: set<TaskId>, t: TaskId, o: Operation, n: Invocation, digest: Digest, cacheable: bool,
    nodes: set<Invocation>)
    requires Consistent(s, but) && t !in s.tasks && o !in s.ops && s.nodes <= nodes && Root(QueueOf(n)) in nodes
    ensures Consistent(s.(
      tasks := s.tasks[t := Task(map[n := o], digest, None, false)], ops := s.ops[o := OperationState(t, n)],
      dedup := if cacheable then s.dedup[digest := t] else s.dedup, nodes := nodes), but + {t})
    ensures o !in s.queuedAt
  {
    OpenState(s, but);
    var task := Task(map[n := o], digest, None, false);
    assert n in task.operations;
    var tasks, ops := s.tasks[t := task], s.ops[o := OperationState(t, n)];
    TasksPut(s.tasks, t, task);
    InverseSameTask(s.workers, s.tasks, t, task);
    OperationsCreated(s.ops, s.tasks, t, o, n, task);
    QueuesKept(s.nodes, nodes, s.tasks, s.workers);
    QueuesCreated(nodes, s.tasks, s.workers, t, task);
    RunsCreated(s.runs, s.workers, s.tasks, t, task);
    QueuedCreated(s.queuedAt, s.ops, s.tasks, but, t, o, n, task);
    DedupCreated(s.dedup, s.tasks, t, task, digest, cacheable);
    var dedup := if cacheable then s.dedup[digest := t] else s.dedup;
    OpenState(s.(tasks := tasks, ops := ops, dedup := dedup, nodes := nodes), but + {t});
  }

  lemma {:induction false} OperationsCreated(
    ops: map<Operation, OperationState>, tasks: map<TaskId, Task>, t: TaskId, o: Operation, n: Invocation, task: Task)
    requires OperationsOk(ops, tasks) && t !in tasks && o !in ops && task.operations == map[n := o]
    ensures OperationsOk(ops[o := OperationState(t, n)], tasks[t := task])
  {
  }

  lemma {:induction false} QueuesCreated(
    nodes: set<Invocation>, tasks: map<TaskId, Task>, workers: map<Worker, WorkerState>, t: TaskId, task: Task)
    requires QueuesOk(nodes, tasks, workers) && forall n :: n in task.operations ==> Root(QueueOf(n)) in nodes
    ensures QueuesOk(nodes, tasks[t := task], workers)
  {
  }

  lemma {:induction false} RunsCreated(
    runs: map<Worker, set<Invocation>>, workers: map<Worker, WorkerState>, tasks: map<TaskId, Task>, t: TaskId,
    task: Task)
    requires RunsOk(runs, workers, tasks) && Inverse(workers, tasks) && t !in tasks
    ensures RunsOk(runs, workers, tasks[t := task])
  {
    forall u ensures Running(workers, tasks[t := task], u) == Running(workers, tasks, u) {}
  }

  lemma {:induction false} QueuedCreated(
    queuedAt: map<Operation, Invocation>, ops: map<Operation, OperationState>, tasks: map<TaskId, Task>,
    but: set<TaskId>,
    t: TaskId, o: Operation, n: Invocation, task: Task)
    requires QueuedOk(queuedAt, ops, tasks, but) && t !in tasks && o !in ops
    requires forall x :: x in ops ==> ops[x].task in tasks
    ensures QueuedOk(queuedAt, ops[o := OperationState(t, n)], tasks[t := task], but + {t}) && o !in queuedAt
  {
  }

  lemma {:induction false} DedupCreated(
    dedup: map<Digest, TaskId>, tasks: map<TaskId, Task>, t: TaskId, task: Task, digest: Digest, cacheable: bool)
    requires DedupOk(dedup, tasks) && t !in tasks && task.digest == digest && !task.completed
    ensures DedupOk(if cacheable then dedup[digest := t] else dedup, tasks[t := task])
  {
  }

  lemma {:induction false} NodesGrew(s: State, but: set<TaskId>, nodes: set<Invocation>)
    requires Consistent(s, but) && s.nodes <= nodes
    ensures Consistent(s.(nodes := nodes), but)
  {
    OpenState(s, but);
    QueuesKept(s.nodes, nodes, s.tasks, s.workers);
    OpenState(s.(nodes := nodes), but);
  }

  // ----- Moving a task to another size class queue -----

  function KeysOf(n: Invocation): seq<Key> { if n.Root? then [] else KeysOf(n.parent) + [n.key] }

  /** The invocation with the same keys in another size class queue. */
  function Move(q: nat, n: Invocation): Invocation { InvocationFor(q, KeysOf(n)) }

  lemma {:induction false} KeysOfInvocation(q: nat, keys: seq<Key>)
    ensures KeysOf(InvocationFor(q, keys)) == keys
  {
    if keys != [] { KeysOfInvocation(q, keys[..|keys| - 1]); }
  }

  lemma {:induction false} MoveShape(q: nat, n: Invocation)
    ensures Move(q, n) == if n.Root? then Root(q) else Child(Move(q, n.parent), n.key)
    ensures QueueOf(Move(q, n)) == q
  {
    if n.Child? {
      assert KeysOf(n)[..|KeysOf(n)| - 1] == KeysOf(n.parent);
    }
    InvocationForQueue(q, KeysOf(n));
  }

  lemma {:induction false} MoveInjective(q: nat, m: Invocation, n: Invocation)
    requires QueueOf(m) == QueueOf(n) && m != n
    ensures Move(q, m) != Move(q, n)
  {
    MoveShape(q, m);
    MoveShape(q, n);
    if m.Child? && n.Child? && m.key == n.key {
      MoveInjective(q, m.parent, n.parent);
    }
  }

  ghost predicate MovedTo(operations: map<Invocation, Operation>, moved: map<Invocation, Operation>, q: nat) {
    && (forall n :: n in operations ==> Move(q, n) in moved && moved[Move(q, n)] == operations[n])
    && (forall m :: m in moved ==> exists n :: n in operations && Move(q, n) == m)
  }

  function Relocated(ops: map<Operation, OperationState>, t: TaskId, q: nat): map<Operation, OperationState> {
    map o | o in ops :: if ops[o].task == t then OperationState(t, Move(q, ops[o].invocation)) else ops[o]
  }

  lemma {:induction false} OperationsMoved(
    ops: map<Operation, OperationState>, tasks: map<TaskId, Task>, t: TaskId, q: nat, moved: map<Invocation, Operation>)
    requires OperationsOk(ops, tasks) && t in tasks && MovedTo(tasks[t].operations, moved, q)
    ensures OperationsOk(Relocated(ops, t, q), tasks[t := tasks[t].(operations := moved)])
  {
    var ops', tasks' := Relocated(ops, t, q), tasks[t := tasks[t].(operations := moved)];
    forall u, m | u in tasks' && m in tasks'[u].operations
      ensures tasks'[u].operations[m] in ops' && ops'[tasks'[u].operations[m]] == OperationState(u, m)
    {
      if u == t {
        var n :| n in tasks[t].operations && Move(q, n) == m;
      }
    }
  }

  /** All operations of task `t`, none of which is queued, now belong to queue `q`. */
  lemma {:induction false} Moved(
    s: State, but: set<TaskId>, t: TaskId, q: nat, moved: map<Invocation, Operation>, nodes: set<Invocation>)
    requires Consistent(s, but) && t in s.tasks && s.tasks[t].Queued() && s.nodes <= nodes && Root(q) in nodes
    requires MovedTo(s.tasks[t].operations, moved, q)
    requires forall n :: n in s.tasks[t].operations ==> s.tasks[t].operations[n] !in s.queuedAt
    ensures Consistent(s.(
      tasks := s.tasks[t := s.tasks[t].(operations := moved)], ops := Relocated(s.ops, t, q), nodes := nodes), but)
    ensures forall m :: m in moved ==> moved[m] !in s.queuedAt
  {
    OpenState(s, but);
    var task := s.tasks[t].(operations := moved);
    MovedTaskOk(s.tasks[t], moved, q);
    TasksPut(s.tasks, t, task);
    InverseSameTask(s.workers, s.tasks, t, task);
    OperationsMoved(s.ops, s.tasks, t, q, moved);
    QueuesKept(s.nodes, nodes, s.tasks, s.workers);
    QueuesCreated(nodes, s.tasks, s.workers, t, task);
    RunsMoved(s.runs, s.workers, s.tasks, t, task);
    QueuedMoved(s.queuedAt, s.ops, s.tasks, but, t, q, moved);
    DedupSame(s.dedup, s.tasks, t, task);
    OpenState(s.(tasks := s.tasks[t := task], ops := Relocated(s.ops, t, q), nodes := nodes), but);
  }

  lemma {:induction false} MovedTaskOk(task: Task, moved: map<Invocation, Operation>, q: nat)
    requires TaskOk(task) && task.Queued() && MovedTo(task.operations, moved, q)
    ensures TaskOk(task.(operations := moved)) && forall m :: m in moved ==> QueueOf(m) == q
  {
    forall m | m in moved ensures QueueOf(m) == q {
      var n :| n in task.operations && Move(q, n) == m;
      MoveShape(q, n);
    }
    var n :| n in task.operations;
    assert Move(q, n) in moved;
  }

  lemma {:induction false} RunsMoved(
    runs: map<Worker, set<Invocation>>, workers: map<Worker, WorkerState>, tasks: map<TaskId, Task>, t: TaskId,
    task: Task)
    requires RunsOk(runs, workers, tasks) && Inverse(workers, tasks) && t in tasks && tasks[t].worker.None?
    ensures RunsOk(runs, workers, tasks[t := task])
  {
    forall u ensures Running(workers, tasks[t := task], u) == Running(workers, tasks, u) {}
  }

  lemma {:induction false} QueuedMoved(
    queuedAt: map<Operation, Invocation>, ops: map<Operation, OperationState>, tasks: map<TaskId, Task>,
    but: set<TaskId>,
    t: TaskId, q: nat, moved: map<Invocation, Operation>)
    requires QueuedOk(queuedAt, ops, tasks, but) && OperationsOk(ops, tasks) && t in tasks
    requires MovedTo(tasks[t].operations, moved, q)
    requires forall n :: n in tasks[t].operations ==> tasks[t].operations[n] !in queuedAt
    ensures QueuedOk(queuedAt, Relocated(ops, t, q), tasks[t := tasks[t].(operations := moved)], but)
    ensures forall m :: m in moved ==> moved[m] !in queuedAt
  {
    forall m | m in moved ensures moved[m] !in queuedAt {
      var n :| n in tasks[t].operations && Move(q, n) == m;
    }
  }

  lemma {:induction false} KnownWorker(s: State, w: Worker)
    requires Consistent(s, {}) && w in s.workers
    ensures w.Worker? && Root(w.queue) in s.nodes
  {
    OpenState(s, {});
    assert WorkerOk(w, s.workers[w]);
  }

  lemma {:induction false} NobodyRuns(s: State, but: set<TaskId>, t: TaskId)
    requires Consistent(s, but) && t in s.tasks && s.tasks[t].worker.None?
    ensures forall w :: w in s.workers ==> s.workers[w].task != Some(t)
  {
    OpenState(s, but);
  }

  lemma {:induction false} OnlyOneRuns(s: State, t: TaskId)
    requires Consistent(s, {}) && t in s.tasks && s.tasks[t].worker.Some?
    ensures forall w :: w in s.workers && s.workers[w].task == Some(t) ==> w == s.tasks[t].worker.value
  {
    OpenState(s, {});
  }

  lemma {:induction false} OperationsExist(s: State, but: set<TaskId>, t: TaskId)
    requires Consistent(s, but) && t in s.tasks
    ensures forall n :: n in s.tasks[t].operations ==>
      s.tasks[t].operations[n] in s.ops && s.ops[s.tasks[t].operations[n]] == OperationState(t, n)
  {
    OpenState(s, but);
  }

  lemma {:induction false} InFlight(s: State, but: set<TaskId>, d: Digest)
    requires Consistent(s, but) && d in s.dedup
    ensures s.dedup[d] in s.tasks && s.tasks[s.dedup[d]].digest == d && !s.tasks[s.dedup[d]].completed
  {
    OpenState(s, but);
  }

  // ----- Another operation for an existing task -----

  lemma {:induction false} OperationsAttached(
    ops: map<Operation, OperationState>, tasks: map<TaskId, Task>, t: TaskId, o: Operation, n: Invocation)
    requires OperationsOk(ops, tasks) && t in tasks && o !in ops && n !in tasks[t].operations
    ensures OperationsOk(ops[o := OperationState(t, n)],
      tasks[t := tasks[t].(operations := tasks[t].operations[n := o])])
  {
  }

  lemma {:induction false} TaskAttached(task: Task, n: Invocation, o: Operation)
    requires TaskOk(task) && !task.completed && forall m :: m in task.operations ==> QueueOf(m) == QueueOf(n)
    ensures TaskOk(task.(operations := task.operations[n := o]))
  {
    var ops := task.operations[n := o];
    assert n in ops;
    var m :| m in task.operations;
    forall k | k in ops ensures QueueOf(k) == QueueOf(n) {}
  }

  lemma {:induction false} AttachedQueued(s: State, t: TaskId, o: Operation, n: Invocation)
    requires Consistent(s, {}) && t in s.tasks && s.tasks[t].Queued() && o !in s.ops && n !in s.tasks[t].operations
    requires forall m :: m in s.tasks[t].operations ==> QueueOf(m) == QueueOf(n)
    ensures Consistent(s.(
      tasks := s.tasks[t := s.tasks[t].(operations := s.tasks[t].operations[n := o])],
      ops := s.ops[o := OperationState(t, n)],
      queuedAt := s.queuedAt[o := n]), {})
    ensures o !in s.queuedAt
  {
    OpenState(s, {});
    var task, ops := s.tasks[t].(operations := s.tasks[t].operations[n := o]), s.ops[o := OperationState(t, n)];
    TaskAttached(s.tasks[t], n, o);
    TasksPut(s.tasks, t, task);
    InverseSameTask(s.workers, s.tasks, t, task);
    OperationsAttached(s.ops, s.tasks, t, o, n);
    QueuesAttached(s.nodes, s.tasks, s.workers, t, n, o);
    RunsMoved(s.runs, s.workers, s.tasks, t, task);
    QueuedAttached(s.queuedAt, s.ops, s.tasks, t, n, o);
    DedupSame(s.dedup, s.tasks, t, task);
    ConservingAttached(s.queuedAt, s.parkedAt, s.ops, s.tasks, t, n, o);
    OpenState(s.(tasks := s.tasks[t := task], ops := ops, queuedAt := s.queuedAt[o := n]), {});
  }

  lemma {:induction false} QueuesAttached(
    nodes: set<Invocation>, tasks: map<TaskId, Task>, workers: map<Worker, WorkerState>, t: TaskId, n: Invocation,
    o: Operation)
    requires QueuesOk(nodes, tasks, workers) && t in tasks && !tasks[t].completed && TaskOk(tasks[t])
    requires forall m :: m in tasks[t].operations ==> QueueOf(m) == QueueOf(n)
    ensures QueuesOk(nodes, tasks[t := tasks[t].(operations := tasks[t].operations[n := o])], workers)
  {
    var m :| m in tasks[t].operations;
    assert Root(QueueOf(m)) in nodes;
  }

  lemma {:induction false} QueuedAttached(
    queuedAt: map<Operation, Invocation>, ops: map<Operation, OperationState>, tasks: map<TaskId, Task>, t: TaskId,
    n: Invocation, o: Operation)
    requires QueuedOk(queuedAt, ops, tasks, {}) && t in tasks && tasks[t].Queued() && o !in ops
    ensures QueuedOk(queuedAt[o := n], ops[o := OperationState(t, n)],
      tasks[t := tasks[t].(operations := tasks[t].operations[n := o])], {})
    ensures o !in queuedAt
  {
  }

  lemma {:induction false} ConservingAttached(
    queuedAt: map<Operation, Invocation>, parkedAt: map<Worker, Invocation>, ops: map<Operation, OperationState>,
    tasks: map<TaskId, Task>,
    t: TaskId, n: Invocation, o: Operation)
    requires Conserving(queuedAt, parkedAt) && QueuedOk(queuedAt, ops, tasks, {}) && OperationsOk(ops, tasks)
    requires t in tasks && tasks[t].Queued() && TaskOk(tasks[t])
    requires forall m :: m in tasks[t].operations ==> QueueOf(m) == QueueOf(n)
    ensures Conserving(queuedAt[o := n], parkedAt)
  {
    var m :| m in tasks[t].operations;
    assert tasks[t].operations[m] in queuedAt;
  }

  lemma {:induction false} RunsAttached(
    runs: map<Worker, set<Invocation>>, workers: map<Worker, WorkerState>, tasks: map<TaskId, Task>, t: TaskId,
    n: Invocation, o: Operation)
    requires RunsOk(runs, workers, tasks) && Inverse(workers, tasks) && t in tasks && tasks[t].worker.Some?
    ensures var w := tasks[t].worker.value;
      RunsOk(runs[w := Runs(runs, w) + {n}], workers, tasks[t := tasks[t].(operations := tasks[t].operations[n := o])])
  {
    var w, tasks' := tasks[t].worker.value, tasks[t := tasks[t].(operations := tasks[t].operations[n := o])];
    forall u ensures Runs(runs[w := Runs(runs, w) + {n}], u) == Running(workers, tasks', u) {
      assert Runs(runs, u) == Running(workers, tasks, u);
    }
  }

  lemma {:induction false} AttachedExecuting(s: State, t: TaskId, o: Operation, n: Invocation)
    requires Consistent(s, {}) && t in s.tasks && s.tasks[t].worker.Some? && o !in s.ops && n !in s.tasks[t].operations
    requires forall m :: m in s.tasks[t].operations ==> QueueOf(m) == QueueOf(n)
    ensures var w := s.tasks[t].worker.value;
      Consistent(s.(
        tasks := s.tasks[t := s.tasks[t].(operations := s.tasks[t].operations[n := o])],
        ops := s.ops[o := OperationState(t, n)],
        runs := s.runs[w := Runs(s.runs, w) + {n}]), {})
  {
    OpenState(s, {});
    var w := s.tasks[t].worker.value;
    var task, ops := s.tasks[t].(operations := s.tasks[t].operations[n := o]), s.ops[o := OperationState(t, n)];
    assert TaskOk(s.tasks[t]);
    TaskAttached(s.tasks[t], n, o);
    TasksPut(s.tasks, t, task);
    InverseSameTask(s.workers, s.tasks, t, task);
    OperationsAttached(s.ops, s.tasks, t, o, n);
    QueuesAttached(s.nodes, s.tasks, s.workers, t, n, o);
    RunsAttached(s.runs, s.workers, s.tasks, t, n, o);
    QueuedAttachedElsewhere(s.queuedAt, s.ops, s.tasks, t, n, o);
    DedupSame(s.dedup, s.tasks, t, task);
    OpenState(s.(tasks := s.tasks[t := task], ops := ops, runs := s.runs[w := Runs(s.runs, w) + {n}]), {});
  }

  lemma {:induction false} QueuedAttachedElsewhere(
    queuedAt: map<Operation, Invocation>, ops: map<Operation, OperationState>, tasks: map<TaskId, Task>, t: TaskId,
    n: Invocation, o: Operation)
    requires QueuedOk(queuedAt, ops, tasks, {}) && t in tasks && !tasks[t].Queued() && o !in ops
    ensures QueuedOk(queuedAt, ops[o := OperationState(t, n)],
      tasks[t := tasks[t].(operations := tasks[t].operations[n := o])], {})
  {
  }

  // ----- Removing an operation -----

  lemma {:induction false} OperationTask(s: State, o: Operation)
    requires Consistent(s, {}) && o in s.ops
    ensures s.ops[o].task in s.tasks && s.ops[o].invocation in s.tasks[s.ops[o].task].operations
    ensures s.tasks[s.ops[o].task].operations[s.ops[o].invocation] == o
  {
    OpenState(s, {});
  }

  lemma {:induction false} CompletedTask(s: State, t: TaskId)
    requires Consistent(s, {}) && t in s.tasks && s.tasks[t].completed
    ensures s.tasks[t].worker.None?
    ensures forall n :: n in s.tasks[t].operations ==> s.tasks[t].operations[n] !in s.queuedAt
  {
    OpenState(s, {});
    assert TaskOk(s.tasks[t]);
  }

  lemma {:induction false} OperationsDetached(
    ops: map<Operation, OperationState>, tasks: map<TaskId, Task>, o: Operation)
    requires OperationsOk(ops, tasks) && o in ops
    ensures var OperationState(t, n) := ops[o];
      OperationsOk(ops - {o}, tasks[t := tasks[t].(operations := tasks[t].operations - {n})])
  {
    var OperationState(t, n) := ops[o];
    var ops', tasks' := ops - {o}, tasks[t := tasks[t].(operations := tasks[t].operations - {n})];
    forall x | x in ops'
      ensures ops'[x].task in tasks' && ops'[x].invocation in tasks'[ops'[x].task].operations
      ensures tasks'[ops'[x].task].operations[ops'[x].invocation] == x
    {
    }
  }

  /** The worker that executes task `t`, if any, runs one operation less. */
  lemma {:induction false} RunsDetached(
    runs: map<Worker, set<Invocation>>, runs': map<Worker, set<Invocation>>,
    workers: map<Worker, WorkerState>, tasks: map<TaskId, Task>, t: TaskId, n: Invocation)
    requires RunsOk(runs, workers, tasks) && Inverse(workers, tasks) && t in tasks
    requires forall u :: Runs(runs', u) == if tasks[t].worker == Some(u) then Runs(runs, u) - {n} else Runs(runs, u)
    ensures RunsOk(runs', workers, tasks[t := tasks[t].(operations := tasks[t].operations - {n})])
  {
    var tasks' := tasks[t := tasks[t].(operations := tasks[t].operations - {n})];
    forall u ensures Runs(runs', u) == Running(workers, tasks', u) {
      assert Runs(runs, u) == Running(workers, tasks, u);
    }
  }

  lemma {:induction false} QueuedDetached(
    queuedAt: map<Operation, Invocation>, ops: map<Operation, OperationState>, tasks: map<TaskId, Task>, o: Operation,
    t: TaskId, n: Invocation)
    requires QueuedOk(queuedAt, ops, tasks, {}) && OperationsOk(ops, tasks) && o in ops
    requires ops[o] == OperationState(t, n)
    ensures QueuedOk(queuedAt - {o}, ops - {o}, tasks[t := tasks[t].(operations := tasks[t].operations - {n})], {})
  {
  }

  /** Operation `o` is removed from task `t`, which either is completed or has other operations. */
  lemma {:induction false} Detached(
    s: State, t: TaskId, o: Operation, n: Invocation, nodes: set<Invocation>, runs: map<Worker, set<Invocation>>,
    queuedAt: map<Operation, Invocation>)
    requires Consistent(s, {}) && t in s.tasks && o in s.ops && s.ops[o] == OperationState(t, n)
    requires s.tasks[t].completed || s.tasks[t].operations.Keys != {n}
    requires forall n :: n in s.nodes && n.Root? ==> n in nodes
    requires forall u :: Runs(runs, u) == if s.tasks[t].worker == Some(u) then Runs(s.runs, u) - {n}
      else Runs(s.runs, u)
    requires queuedAt == s.queuedAt - {o}
    ensures Consistent(s.(
      tasks := s.tasks[t := s.tasks[t].(operations := s.tasks[t].operations - {n})], ops := s.ops - {o},
      nodes := nodes, runs := runs, queuedAt := queuedAt), {})
  {
    OpenState(s, {});
    var task := s.tasks[t].(operations := s.tasks[t].operations - {n});
    DetachedTaskOk(s.tasks[t], n);
    TasksPut(s.tasks, t, task);
    InverseSameTask(s.workers, s.tasks, t, task);
    OperationsDetached(s.ops, s.tasks, o);
    QueuesKept(s.nodes, nodes, s.tasks, s.workers);
    QueuesDetached(nodes, s.tasks, s.workers, t, n);
    RunsDetached(s.runs, runs, s.workers, s.tasks, t, n);
    QueuedDetached(s.queuedAt, s.ops, s.tasks, o, t, n);
    DedupSame(s.dedup, s.tasks, t, task);
    ConservingLess(s.queuedAt, queuedAt, s.parkedAt);
    OpenState(s.(tasks := s.tasks[t := task], ops := s.ops - {o}, nodes := nodes, runs := runs, queuedAt := queuedAt),
      {});
  }

  lemma {:induction false} DetachedTaskOk(task: Task, n: Invocation)
    requires TaskOk(task) && n in task.operations && (task.completed || task.operations.Keys != {n})
    ensures TaskOk(task.(operations := task.operations - {n}))
  {
    if !task.completed {
      var m :| m in task.operations.Keys && m != n;
      assert m in (task.operations - {n});
    }
  }

  lemma {:induction false} QueuesDetached(
    nodes: set<Invocation>, tasks: map<TaskId, Task>, workers: map<Worker, WorkerState>, t: TaskId, n: Invocation)
    requires QueuesOk(nodes, tasks, workers) && t in tasks
    ensures QueuesOk(nodes, tasks[t := tasks[t].(operations := tasks[t].operations - {n})], workers)
  {
  }

  // ----- Workers that synchronize -----

  /** A worker changes whether it is terminating or synchronizing. */
  lemma {:induction false} FlagsChanged(s: State, w: Worker, ws: WorkerState)
    requires Consistent(s, {}) && w in s.workers && ws.task == s.workers[w].task && ws.last == s.workers[w].last
    requires ws.parked == s.workers[w].parked
    requires ws.parked ==> ws.synchronizing && ws.terminating == s.workers[w].terminating
    ensures Consistent(s.(workers := s.workers[w := ws]), {})
  {
    OpenState(s, {});
    assert WorkerOk(w, s.workers[w]);
    WorkersPut(s.workers, w, ws);
    InverseSame(s.workers, s.tasks, w, ws);
    QueuesPut(s.nodes, s.tasks, s.workers, w, ws);
    RunsSame(s.runs, s.workers, s.tasks, w, ws);
    LastSame(s.last, s.workers, w, ws);
    ParkedSame(s.parkedAt, s.workers, w, ws);
    DrainsPut(s.drains, s.workers, w, ws);
    OpenState(s.(workers := s.workers[w := ws]), {});
  }

  lemma {:induction false} Unknown(s: State, w: Worker)
    requires Consistent(s, {}) && w !in s.workers
    ensures w !in s.last && w !in s.parkedAt && Runs(s.runs, w) == {}
  {
    OpenState(s, {});
    assert Runs(s.runs, w) == Running(s.workers, s.tasks, w);
  }

  /** A worker that was not known is associated with the root invocation. */
  lemma {:induction false} Registered(s: State, w: Worker)
    requires Consistent(s, {}) && w !in s.workers && w.Worker? && Root(w.queue) in s.nodes
    ensures Consistent(s.(
      workers := s.workers[w := WorkerState(None, Some(Root(w.queue)), false, false, true)],
      last := s.last[w := Root(w.queue)]), {})
  {
    OpenState(s, {});
    var ws := WorkerState(None, Some(Root(w.queue)), false, false, true);
    WorkersPut(s.workers, w, ws);
    InverseSame(s.workers, s.tasks, w, ws);
    QueuesPut(s.nodes, s.tasks, s.workers, w, ws);
    RunsSame(s.runs, s.workers, s.tasks, w, ws);
    LastPut(s.last, s.workers, w, ws);
    ParkedSame(s.parkedAt, s.workers, w, ws);
    DrainsPut(s.drains, s.workers, w, ws);
    OpenState(s.(workers := s.workers[w := ws], last := s.last[w := Root(w.queue)]), {});
  }

  lemma {:induction false} QueuedOperation(s: State, o: Operation)
    requires Consistent(s, {}) && o in s.queuedAt
    ensures o in s.ops && s.ops[o].task in s.tasks && s.tasks[s.ops[o].task].Queued()
    ensures forall n :: n in s.tasks[s.ops[o].task].operations ==> QueueOf(n) == QueueOf(s.queuedAt[o])
  {
    OpenState(s, {});
    assert TaskOk(s.tasks[s.ops[o].task]);
  }

  /** An idle worker is parked, as no operation of its size class queue is queued. */
  lemma {:induction false} WasParked(s: State, w: Worker)
    requires Consistent(s, {}) && w in s.workers && s.workers[w].task.None? && s.workers[w].synchronizing
    requires !s.workers[w].terminating && !Drained(s.drains, w) && s.workers[w].last.Some?
    requires w.Worker? && forall o :: o in s.queuedAt ==> QueueOf(s.queuedAt[o]) != w.queue
    ensures Consistent(s.(
      workers := s.workers[w := s.workers[w].(parked := true)],
      parkedAt := s.parkedAt[w := s.workers[w].last.value]), {})
  {
    OpenState(s, {});
    var ws := s.workers[w].(parked := true);
    assert WorkerOk(w, s.workers[w]);
    WorkersPut(s.workers, w, ws);
    InverseSame(s.workers, s.tasks, w, ws);
    QueuesPut(s.nodes, s.tasks, s.workers, w, ws);
    RunsSame(s.runs, s.workers, s.tasks, w, ws);
    LastSame(s.last, s.workers, w, ws);
    ParkedPut(s.parkedAt, s.workers, w, ws);
    DrainsPut(s.drains, s.workers, w, ws);
    ConservingParked(s.queuedAt, s.parkedAt, w, ws.last.value);
    OpenState(s.(workers := s.workers[w := ws], parkedAt := s.parkedAt[w := ws.last.value]), {});
  }

  lemma {:induction false} ConservingParked(
    queuedAt: map<Operation, Invocation>, parkedAt: map<Worker, Invocation>, w: Worker, n: Invocation)
    requires Conserving(queuedAt, parkedAt) && forall o :: o in queuedAt ==> QueueOf(queuedAt[o]) != QueueOf(n)
    ensures Conserving(queuedAt, parkedAt[w := n])
  {
  }

  // ----- Workers and size class queues that go away -----

  /** An idle worker is removed. */
  lemma {:induction false} Gone(s: State, w: Worker, nodes: set<Invocation>)
    requires Consistent(s, {}) && w in s.workers && s.workers[w].task.None? && !s.workers[w].parked
    requires forall n :: n in s.nodes && n.Root? ==> n in nodes
    ensures Consistent(s.(workers := s.workers - {w}, nodes := nodes, last := s.last - {w}), {})
  {
    OpenState(s, {});
    QueuesKept(s.nodes, nodes, s.tasks, s.workers);
    InverseGone(s.workers, s.tasks, w);
    RunsGone(s.runs, s.workers, s.tasks, w);
    TablesGone(s.last, s.parkedAt, s.drains, s.workers, w);
    QueuesGone(nodes, s.tasks, s.workers, w);
    OpenState(s.(workers := s.workers - {w}, nodes := nodes, last := s.last - {w}), {});
  }

  lemma {:induction false} InverseGone(workers: map<Worker, WorkerState>, tasks: map<TaskId, Task>, w: Worker)
    requires Inverse(workers, tasks) && w in workers && workers[w].task.None?
    ensures Inverse(workers - {w}, tasks)
  {
  }

  lemma {:induction false} RunsGone(
    runs: map<Worker, set<Invocation>>, workers: map<Worker, WorkerState>, tasks: map<TaskId, Task>, w: Worker)
    requires RunsOk(runs, workers, tasks) && w in workers && workers[w].task.None?
    ensures RunsOk(runs, workers - {w}, tasks)
  {
    forall u ensures Running(workers - {w}, tasks, u) == Running(workers, tasks, u) {}
  }

  lemma {:induction false} TablesGone(
    last: map<Worker, Invocation>, parkedAt: map<Worker, Invocation>, drains: set<Drain>,
    workers: map<Worker, WorkerState>, w: Worker)
    requires LastOk(last, workers) && ParkedOk(parkedAt, workers) && DrainsOk(drains, workers) && WorkersOk(workers)
    requires w in workers && !workers[w].parked
    ensures LastOk(last - {w}, workers - {w}) && ParkedOk(parkedAt, workers - {w}) && DrainsOk(drains, workers - {w})
    ensures WorkersOk(workers - {w})
  {
  }

  lemma {:induction false} QueuesGone(
    nodes: set<Invocation>, tasks: map<TaskId, Task>, workers: map<Worker, WorkerState>, w: Worker)
    requires QueuesOk(nodes, tasks, workers)
    ensures QueuesOk(nodes, tasks, workers - {w})
  {
  }

  /** A size class queue without workers and without queued operations is removed. */
  /** Without workers and queued operations, a size class queue has no unfinished tasks. */
  lemma {:induction false} QueueUnused(s: State, q: nat)
    requires Consistent(s, {}) && (forall w :: w in s.workers && w.Worker? ==> w.queue != q)
    requires forall o :: o in s.queuedAt ==> QueueOf(s.queuedAt[o]) != q
    ensures forall t, n :: t in s.tasks && !s.tasks[t].completed && n in s.tasks[t].operations ==> QueueOf(n) != q
    ensures forall u, n :: n in Runs(s.runs, u) ==> QueueOf(n) != q
    ensures forall w :: w in s.last ==> QueueOf(s.last[w]) != q
  {
    OpenState(s, {});
    forall t, n | t in s.tasks && !s.tasks[t].completed && n in s.tasks[t].operations ensures QueueOf(n) != q {
      assert TaskOk(s.tasks[t]);
      if s.tasks[t].worker.None? {
        assert s.tasks[t].operations[n] in s.queuedAt;
      }
    }
    forall u, n | n in Runs(s.runs, u) ensures QueueOf(n) != q {
      assert Runs(s.runs, u) == Running(s.workers, s.tasks, u);
    }
    forall w | w in s.last ensures QueueOf(s.last[w]) != q {
      assert WorkerOk(w, s.workers[w]);
    }
  }

  lemma {:induction false} QueuesLess(
    nodes: set<Invocation>, tasks: map<TaskId, Task>, workers: map<Worker, WorkerState>, q: nat)
    requires QueuesOk(nodes, tasks, workers) && forall w :: w in workers && w.Worker? ==> w.queue != q
    requires forall t, n :: t in tasks && !tasks[t].completed && n in tasks[t].operations ==> QueueOf(n) != q
    ensures QueuesOk(nodes - {Root(q)}, tasks, workers)
  {
  }

  lemma {:induction false} QueueGone(s: State, q: nat)
    requires Consistent(s, {}) && (forall w :: w in s.workers && w.Worker? ==> w.queue != q)
    requires forall o :: o in s.queuedAt ==> QueueOf(s.queuedAt[o]) != q
    ensures Consistent(s.(nodes := s.nodes - {Root(q)}), {})
    ensures forall u, n :: n in Runs(s.runs, u) ==> QueueOf(n) != q
    ensures forall w :: w in s.last ==> QueueOf(s.last[w]) != q
  {
    QueueUnused(s, q);
    OpenState(s, {});
    QueuesLess(s.nodes, s.tasks, s.workers, q);
    OpenState(s.(nodes := s.nodes - {Root(q)}), {});
  }

  // ----- Drains -----

  lemma {:induction false} DrainAdded(s: State, d: Drain)
    requires Consistent(s, {}) && forall w :: w in s.workers && s.workers[w].parked ==> !Drained({d}, w)
    ensures Consistent(s.(drains := s.drains + {d}), {})
  {
    OpenState(s, {});
    forall w | w in s.workers && s.workers[w].parked ensures !Drained(s.drains + {d}, w) {
      assert !Drained({d}, w) && !Drained(s.drains, w);
      assert d in {d};
    }
    OpenState(s.(drains := s.drains + {d}), {});
  }

  lemma {:induction false} DrainRemoved(s: State, d: Drain)
    requires Consistent(s, {})
    ensures Consistent(s.(drains := s.drains - {d}), {})
  {
    OpenState(s, {});
    OpenState(s.(drains := s.drains - {d}), {});
  }

  /** An operation of an unfinished task is queued, or its worker runs it. */
  lemma {:induction false} RunsOrQueued(s: State, o: Operation)
    requires Consistent(s, {}) && o in s.ops && s.ops[o].task in s.tasks && !s.tasks[s.ops[o].task].completed
    ensures
      || (o in s.queuedAt && s.queuedAt[o] == s.ops[o].invocation)
      || exists u :: s.ops[o].invocation in Runs(s.runs, u)
  {
    OpenState(s, {});
    var t := s.ops[o].task;
    if s.tasks[t].worker.Some? {
      var u := s.tasks[t].worker.value;
      assert Runs(s.runs, u) == Running(s.workers, s.tasks, u);
    }
  }

  // ----- Reading the tables as a whole -----

  lemma {:induction false} NotBoth(s: State, q: nat)
    requires Consistent(s, {})
    ensures
      || (forall o :: o in s.queuedAt ==> QueueOf(s.queuedAt[o]) != q)
      || (forall w :: w in s.parkedAt ==> QueueOf(s.parkedAt[w]) != q)
  {
    OpenState(s, {});
  }

  /** The operation is there, and its task is in the queued stage. */
  ghost predicate IsQueued(s: State, o: Operation) {
    o in s.ops && s.ops[o].task in s.tasks && s.tasks[s.ops[o].task].Queued()
  }

  lemma {:induction false} QueuedOrParked(s: State)
    requires Consistent(s, {})
    ensures forall o, w :: IsQueued(s, o) && w in s.workers && s.workers[w].parked ==>
      w.Worker? && QueueOf(s.ops[o].invocation) != w.queue
  {
    forall o, w | IsQueued(s, o) && w in s.workers && s.workers[w].parked
      ensures w.Worker? && QueueOf(s.ops[o].invocation) != w.queue
    {
      ParkedWorker(s, {}, w);
      OpenState(s, {});
      assert o in s.queuedAt;
    }
  }

  /** The idle workers that were last active in the subtree of `n`. */
  ghost function IdleBelow(workers: map<Worker, WorkerState>, n: Invocation): set<Worker> {
    set w | w in workers && workers[w].last.Some? && Under(workers[w].last.value, n)
  }

  lemma {:induction false} RunsAndLast(s: State, n: Invocation, w: Worker)
    requires Consistent(s, {})
    ensures Runs(s.runs, w) == Running(s.workers, s.tasks, w) && LastBelow(s.last, n) == IdleBelow(s.workers, n)
  {
    OpenState(s, {});
  }

  lemma {:induction false} QueuedIsLive(s: State, o: Operation)
    requires Consistent(s, {}) && o in s.queuedAt
    ensures o in s.ops && s.ops[o].task in s.tasks && !s.tasks[s.ops[o].task].completed
    ensures s.ops[o].invocation == s.queuedAt[o]
  {
    OpenState(s, {});
  }

  lemma {:induction false} RunningIsLive(s: State, u: Worker, k: Invocation) returns (o: Operation)
    requires Consistent(s, {}) && k in Runs(s.runs, u)
    ensures o in s.ops && s.ops[o].task in s.tasks && !s.tasks[s.ops[o].task].completed && s.ops[o].invocation == k
  {
    OpenState(s, {});
    assert Runs(s.runs, u) == Running(s.workers, s.tasks, u);
    var t := s.workers[u].task.value;
    assert TaskOk(s.tasks[t]);
    o := s.tasks[t].operations[k];
  }

  lemma {:induction false} LastOfWorker(s: State, w: Worker)
    requires Consistent(s, {})
    ensures w in s.last <==> w in s.workers && s.workers[w].last.Some?
    ensures w in s.last ==> s.last[w] == s.workers[w].last.value
  {
    OpenState(s, {});
  }
}
