/**
 pkg/scheduler/in_memory_build_queue.go for single-node tasks. Every public step is what happens
 while the lock is held once; `Valid()` is what holds whenever the lock is not held.
 */
module InMemoryBuildQueue {
  import opened Common
  import opened InvocationTree
  import opened IndexedHeap
  import opened InvocationPresence
  import opened InvocationCounts
  import opened InvocationForest
  import opened SchedulerTables
  import opened SchedulerSteps

  class BuildQueue {
    const forest: Forest
    var tasks: map<TaskId, Task>
    var workers: map<Worker, WorkerState>
    var ops: map<Operation, OperationState>
    var dedup: map<Digest, TaskId>
    var drains: set<Drain>

    ghost function Now(): State
      reads this, forest
    {
      State(tasks, workers, ops, dedup, drains, forest.nodes, forest.runs, forest.last, forest.queuedAt,
        forest.parkedAt)
    }

    /** Everything holds, but for tasks that are on their way from one stage to another, and invocations just
        created. */
    ghost predicate Inv(but: set<TaskId>, loose: set<Invocation>)
      reads this, forest
    {
      forest.Ok(loose) && Consistent(Now(), but)
    }

    ghost predicate Valid()
      reads this, forest
    {
      Inv({}, {})
    }

    constructor ()
      ensures Valid() && fresh(forest) && forest.queuedAt == map[]
      ensures tasks == map[] && workers == map[] && ops == map[] && dedup == map[] && drains == {}
    {
      forest := new Forest();
      tasks, workers, ops, dedup, drains := map[], map[], map[], map[], {};
      new;
      OpenState(Now(), {});
    }

    /** worker.wakeUp() */
    method WakeUp(w: Worker, ghost but: set<TaskId>, ghost loose: set<Invocation>)
      requires Inv(but, loose) && w in workers && workers[w].parked
      modifies `workers, forest`parked, forest`parkedAt
      ensures Inv(but, loose) && workers == old(workers)[w := old(workers)[w].(parked := false)]
      ensures forest.parkedAt == old(forest.parkedAt) - {w}
    {
      WokenUp(Now(), but, w);
      ParkedWorker(Now(), but, w);
      forest.Unpark(w, workers[w].last.value, loose);
      workers := workers[w := workers[w].(parked := false)];
    }

    /** worker.assignUnqueuedTask() */
    method AssignUnqueued(w: Worker, t: TaskId, ghost but: set<TaskId>, ghost loose: set<Invocation>)
      requires Inv(but, loose) && t in but && w in workers && w.Worker? && t in tasks && tasks[t].Queued()
      requires workers[w].task.None? && !workers[w].parked
      requires forall n :: n in tasks[t].operations ==> n in forest.nodes && QueueOf(n) == w.queue
      requires loose <= AboveAll(tasks[t].operations.Keys)
      modifies `workers, `tasks, forest`nodes, forest`exec, forest`idle, forest`queued, forest`parked, forest`runs,
        forest`last
      ensures Inv(but, {})
      ensures tasks == old(tasks)[t := old(tasks)[t].(worker := Some(w))]
      ensures workers == old(workers)[w := old(workers)[w].(task := Some(t), last := None)]
      ensures Runs(forest.runs, w) == tasks[t].operations.Keys
      ensures forall n :: n in old(forest.nodes) && n.Root? ==> n in forest.nodes
    {
      ghost var s := Now();
      // The "Worker is already associated with a task" and "Task is already associated with a worker" panics.
      assert workers[w].task.None? && tasks[t].worker.None?;
      IdleWorker(s, but, w);
      forest.IncrementAll(tasks[t].operations.Keys, w, loose);
      assert loose - AboveAll(tasks[t].operations.Keys) == {};
      forest.ClearLast(w, workers[w].last.value);
      Assigned(s, but, w, t, forest.nodes, forest.runs);
      tasks := tasks[t := tasks[t].(worker := Some(w))];
      workers := workers[w := workers[w].(task := Some(t), last := None)];
    }

    /** worker.assignQueuedTask() */
    method AssignQueued(w: Worker, t: TaskId)
      requires Valid() && w in workers && t in tasks && tasks[t].Queued() && workers[w].task.None? && !workers[w].parked
      requires w.Worker? && forall n :: n in tasks[t].operations ==> QueueOf(n) == w.queue
      modifies `workers, `tasks, forest
      ensures Valid()
      ensures tasks == old(tasks)[t := old(tasks)[t].(worker := Some(w))]
      ensures workers == old(workers)[w := old(workers)[w].(task := Some(t), last := None)]
    {
      LiveTask(Now(), {}, t);
      ButMore(Now(), {}, t);
      forest.QueuedInNodes();
      AssignUnqueued(w, t, {t}, {});
      ghost var s := Now();
      forest.UnqueueAll(tasks[t].operations, w);
      Withdrawn(s, {t}, t, forest.nodes, forest.queuedAt, forest.runs);
      assert {t} + {t} == {t};
      Settled(Now(), {t}, t);
      assert {t} - {t} == {};
    }

    /** An invocation with parked workers that one of `s` is nested in, by the least number of levels. */
    ghost predicate Closest(s: set<Invocation>, i: Invocation)
      reads forest
    {
      exists n, k: nat ::
        && n in s && i == Ancestor(n, k) && forest.parked.Present(i)
        && forall m, j: nat :: m in s && j < k ==> !forest.parked.Present(Ancestor(m, j))
    }

    /** The scan of task.schedule() for an invocation with parked workers, bottom up and breadth first. */
    method FindParked(s: set<Invocation>, q: nat) returns (i: Option<Invocation>)
      requires s != {} && forall n :: n in s ==> QueueOf(n) == q
      ensures i.Some? ==> Closest(s, i.value) && QueueOf(i.value) == q
      ensures i.None? ==> !forest.parked.Present(Root(q))
    {
      var list := ToSeq(s);
      var invocations := list;
      ghost var k: nat := 0;
      while true
        invariant list != [] && |invocations| == |list|
        invariant forall x :: 0 <= x < |list| ==> list[x] in s && invocations[x] == Ancestor(list[x], k)
        invariant forall m :: m in s ==> m in list
        invariant forall m, j: nat :: m in list && j < k ==> !forest.parked.Present(Ancestor(m, j))
        decreases invocations[0]
      {
        ghost var first := invocations[0];
        var idx := 0;
        while idx < |invocations|
          invariant idx <= |invocations| == |list|
          invariant forall x :: 0 <= x < idx ==>
            invocations[x] == Ancestor(list[x], k + 1) && !forest.parked.Present(Ancestor(list[x], k))
          invariant forall x :: idx <= x < |list| ==> invocations[x] == Ancestor(list[x], k)
          invariant if idx == 0 then invocations[0] == first else first.Child? && invocations[0] == first.parent
        {
          var n := invocations[idx];
          NextAncestor(list[idx], k);
          if forest.parked.Present(n) { return Some(n); }
          if n.Root? { return None; }
          invocations, idx := invocations[idx := n.parent], idx + 1;
        }
        k := k + 1;
      }
    }

    method ToSeq(s: set<Invocation>) returns (list: seq<Invocation>)
      ensures (forall n :: n in s <==> n in list) && (s != {} ==> list != [])
    {
      list := [];
      var todo := s;
      while todo != {}
        invariant todo <= s && (forall n :: n in s <==> n in list || n in todo)
        decreases todo
      {
        var n :| n in todo;
        list, todo := list + [n], todo - {n};
      }
    }

    /** The first worker parked below the closest invocation is the nearest one. */
    lemma {:induction false} ClosestNearest(
      s: set<Invocation>, i: Invocation, w: Worker, but: set<TaskId>, loose: set<Invocation>)
      requires Inv(but, loose) && Closest(s, i) && w in forest.parkedAt && Under(forest.parkedAt[w], i)
      ensures Nearest(workers, w, s)
    {
      OpenState(Now(), but);
      var n, k: nat :|
        && n in s && i == Ancestor(n, k) && forest.parked.Present(i)
        && forall m, j: nat :: m in s && j < k ==> !forest.parked.Present(Ancestor(m, j));
      forall m, j: nat | m in s && j < k ensures NobodyParkedBelow(workers, Ancestor(m, j)) {
        forest.ParkedBelow(Ancestor(m, j), loose);
      }
      assert NearestBy(workers, w, s, n, k);
      OpenNearest(workers, w, s);
    }

    /** task.schedule(): assigns the task to a parked worker, or queues it if there is none. */
    method Schedule(t: TaskId, ghost but: set<TaskId>, ghost loose: set<Invocation>)
      requires Inv(but, loose) && t in but && t in tasks && tasks[t].Queued()
      requires forall n :: n in tasks[t].operations ==> n in forest.nodes && tasks[t].operations[n] !in forest.queuedAt
      requires loose <= AboveAll(tasks[t].operations.Keys)
      modifies `workers, `tasks, forest
      ensures Inv(but - {t}, {}) && SameButWorkers(old(tasks), tasks, t) && OnlyParked(old(workers), workers)
      ensures QueuedOnly(old(forest.queuedAt), forest.queuedAt, tasks[t].operations)
      ensures Scheduled(t, tasks[t], old(workers), workers, forest.queuedAt, drains)
      ensures forall n :: n in old(forest.nodes) && n.Root? ==> n in forest.nodes
    {
      LiveTask(Now(), but, t);
      assert tasks[t].operations.Keys != {};
      var n :| n in tasks[t].operations.Keys;
      var q := QueueOf(n);
      var i := FindParked(tasks[t].operations.Keys, q);
      if i.Some? {
        ScheduleOnWorker(t, i.value, q, but, loose);
      } else {
        ScheduleInQueue(t, q, but, loose);
      }
    }

    ghost predicate SameButWorkers(before: map<TaskId, Task>, after: map<TaskId, Task>, t: TaskId) {
      t in before && t in after && after == before[t := before[t].(worker := after[t].worker)]
    }

    /** Nothing but the given operations has been added to the queue. */
    ghost predicate QueuedOnly(
      before: map<Operation, Invocation>, after: map<Operation, Invocation>, added: map<Invocation, Operation>)
    {
      forall o :: o in after ==> o in before || exists n :: n in added && added[n] == o
    }

    /** A worker that may be given tasks: it is neither drained nor terminating. */
    ghost predicate Eligible(w: Worker)
      reads `workers, `drains
    {
      MayWork(workers, drains, w)
    }

    /** Nothing happens to workers that are not parked. */
    ghost predicate OnlyParked(before: map<Worker, WorkerState>, after: map<Worker, WorkerState>) {
      && after.Keys == before.Keys
      && forall w :: w in before && !before[w].parked ==> after[w] == before[w]
    }

    method ScheduleOnWorker(t: TaskId, i: Invocation, q: nat, ghost but: set<TaskId>, ghost loose: set<Invocation>)
      requires Inv(but, loose) && t in but && t in tasks && tasks[t].Queued()
      requires forall n :: n in tasks[t].operations ==>
        n in forest.nodes && tasks[t].operations[n] !in forest.queuedAt && QueueOf(n) == q
      requires loose <= AboveAll(tasks[t].operations.Keys) && Closest(tasks[t].operations.Keys, i) && QueueOf(i) == q
      modifies `workers, `tasks, forest
      ensures Inv(but - {t}, {}) && SameButWorkers(old(tasks), tasks, t) && OnlyParked(old(workers), workers)
      ensures QueuedOnly(old(forest.queuedAt), forest.queuedAt, tasks[t].operations)
      ensures tasks[t].worker.Some? && Scheduled(t, tasks[t], old(workers), workers, forest.queuedAt, drains)
      ensures forall n :: n in old(forest.nodes) && n.Root? ==> n in forest.nodes
    {
      var w := forest.FirstParked(i, loose);
      ParkedWorker(Now(), but, w);
      ClosestNearest(tasks[t].operations.Keys, i, w, but, loose);
      UnderQueue(forest.parkedAt[w], i);
      WakeUp(w, but, loose);
      AssignUnqueued(w, t, but, loose);
      Settled(Now(), but, t);
    }

    method ScheduleInQueue(t: TaskId, q: nat, ghost but: set<TaskId>, ghost loose: set<Invocation>)
      requires Inv(but, loose) && t in but && t in tasks && tasks[t].Queued() && Injective(tasks[t].operations)
      requires forall n :: n in tasks[t].operations ==>
        n in forest.nodes && tasks[t].operations[n] !in forest.queuedAt && QueueOf(n) == q
      requires loose <= AboveAll(tasks[t].operations.Keys) && !forest.parked.Present(Root(q))
      modifies forest`queued, forest`queuedAt
      ensures Inv(but - {t}, {}) && QueuedOnly(old(forest.queuedAt), forest.queuedAt, tasks[t].operations)
      ensures AllQueued(forest.queuedAt, tasks[t]) && NobodyParkedFor(workers, tasks[t])
    {
      ghost var s := Now();
      forall w | w in workers && workers[w].parked
        ensures w in forest.parkedAt && w.Worker? && QueueOf(forest.parkedAt[w]) == w.queue
      {
        ParkedWorker(s, but, w);
      }
      forest.NothingParked(q, loose);
      forest.EnqueueAll(tasks[t].operations, loose);
      assert loose - AboveAll(tasks[t].operations.Keys) == {};
      SchedulerTables.Enqueued(s, but, t, q, forest.queuedAt);
    }

    /** The scheduler has no task for worker `w`, and no call to Synchronize() for it is in progress. */
    ghost predicate Quiet(w: Worker)
      reads `workers
    {
      IsQuiet(workers, w)
    }

    /** Nobody is parked without a call to Synchronize(). */
    lemma {:induction false} QuietNotParked()
      requires Valid()
      ensures forall w :: w in workers && Quiet(w) ==> !workers[w].parked
    {
      forall w | w in workers && Quiet(w) ensures !workers[w].parked { NotParkedYet(w); }
    }

    // ----- What holds whenever the lock is not held -----

    /** Work conservation: a size class queue never has both a queued operation and a parked worker, as seen from its
        root and for every operation and worker; and parked workers are neither drained nor terminating. */
    lemma {:induction false} WorkConserved()
      requires Valid()
      ensures forall q :: !(forest.queued.Present(Root(q)) && forest.parked.Present(Root(q)))
      ensures forall o, w :: IsQueued(Now(), o) && w in workers && workers[w].parked ==>
        w.Worker? && QueueOf(ops[o].invocation) != w.queue
      ensures forall w :: w in workers && workers[w].parked ==> Eligible(w) && workers[w].task.None?
    {
      forall q ensures !(forest.queued.Present(Root(q)) && forest.parked.Present(Root(q))) {
        forest.QueuedAtRoot(q);
        forest.ParkedAtRoot(q);
        NotBoth(Now(), q);
      }
      QueuedOrParked(Now());
      forall w | w in workers && workers[w].parked ensures Eligible(w) && workers[w].task.None? {
        ParkedWorker(Now(), {}, w);
      }
    }

    /** The counters of every invocation: operations of a worker's current task, and workers that were last active, in
        its subtree. */
    lemma {:induction false} CountersExact(n: Invocation, w: Worker)
      requires Valid()
      ensures ExecAt(forest.exec, n, w) == Count(Running(workers, tasks, w), n)
      ensures w in ExecOf(forest.exec, n) <==> Count(Running(workers, tasks, w), n) > 0
      ensures IdleAt(forest.idle, n) == |IdleBelow(workers, n)|
    {
      RunsAndLast(Now(), n, w);
      forest.Open({});
      assert ExecAt(forest.exec, n, w) == Count(Runs(forest.runs, w), n);
    }

    /** The heaps of every invocation hold exactly the children with queued operations, or parked workers, below them;
        and every element has recorded its position. */
    lemma {:induction false} HeapsExact()
      requires Valid()
      ensures forall n, c :: c in forest.queued.Kids(n) <==> c.Child? && c.parent == n && forest.queued.Present(c)
      ensures forall n, c :: c in forest.parked.Kids(n) <==> c.Child? && c.parent == n && forest.parked.Present(c)
      ensures forall n :: Indexed(forest.queued.Kids(n), forest.queued.kidIndex)
      ensures forall n :: Indexed(forest.parked.Kids(n), forest.parked.kidIndex)
      ensures forall n :: Indexed(forest.queued.Direct(n), forest.queued.index)
      ensures forall n :: Indexed(forest.parked.Direct(n), forest.parked.index)
      ensures forall n, o :: o in forest.queued.Direct(n) <==>
        o in ops && ops[o].invocation == n && ops[o].task in tasks && tasks[ops[o].task].Queued()
      ensures forall n, w :: w in forest.parked.Direct(n) <==>
        w in workers && workers[w].parked && workers[w].last == Some(n)
    {
      OpenState(Now(), {});
      forest.Open({});
      forall n, c ensures c in forest.queued.Kids(n) <==> c.Child? && c.parent == n && Shown(forest.queued, c, None) {}
      forall n, c ensures c in forest.parked.Kids(n) <==> c.Child? && c.parent == n && Shown(forest.parked, c, None) {}
      forall n, o ensures o in forest.queued.Direct(n) <==>
        o in ops && ops[o].invocation == n && ops[o].task in tasks && tasks[ops[o].task].Queued() {
        assert o in ListAt(forest.queued.direct, n) <==> o in forest.queuedAt && forest.queuedAt[o] == n;
      }
      forall n, w
        ensures w in forest.parked.Direct(n) <==> w in workers && workers[w].parked && workers[w].last == Some(n)
      {
        assert w in ListAt(forest.parked.direct, n) <==> w in forest.parkedAt && forest.parkedAt[w] == n;
      }
    }

    /** An invocation other than a root exists only while there is an unfinished operation, or a worker that was last
        active, in its subtree ... */
    lemma {:induction false} InvocationHasReason(n: Invocation) returns (o: Operation, w: Worker)
      requires Valid() && n.Child? && n in forest.nodes
      ensures
        || (Unfinished(o) && Under(ops[o].invocation, n))
        || (w in workers && workers[w].last.Some? && Under(workers[w].last.value, n))
    {
      var k;
      o, w, k := forest.WhatFor(n);
      if o in forest.queuedAt && Under(forest.queuedAt[o], n) {
        QueuedIsLive(Now(), o);
      } else if k in Runs(forest.runs, w) && Under(k, n) {
        o := RunningIsLive(Now(), w, k);
      } else {
        LastOfWorker(Now(), w);
      }
    }

    ghost predicate Unfinished(o: Operation)
      reads `ops, `tasks
    {
      o in ops && ops[o].task in tasks && !tasks[ops[o].task].completed
    }

    /** ... and all the while. */
    lemma {:induction false} ReasonHasInvocation(o: Operation, w: Worker, n: Invocation)
      requires Valid()
      requires
        || (Unfinished(o) && Under(ops[o].invocation, n))
        || (w in workers && workers[w].last.Some? && Under(workers[w].last.value, n))
      ensures n in forest.nodes
    {
      if Unfinished(o) && Under(ops[o].invocation, n) {
        RunsOrQueued(Now(), o);
        if o in forest.queuedAt && forest.queuedAt[o] == ops[o].invocation {
          forest.ExistsFor(o, w, n, n);
        } else {
          var u :| ops[o].invocation in Runs(forest.runs, u);
          forest.ExistsFor(o, u, ops[o].invocation, n);
        }
      } else {
        LastOfWorker(Now(), w);
        forest.ExistsFor(o, w, n, n);
      }
    }

    /** A worker's current task and a task's current worker are each other's inverse, tasks that are completed have
        none, and deduplication is against unfinished tasks that have operations. */
    lemma {:induction false} TasksExact()
      requires Valid()
      ensures forall w, t :: w in workers && workers[w].task == Some(t) <==> t in tasks && tasks[t].worker == Some(w)
      ensures forall t :: t in tasks && tasks[t].completed ==> tasks[t].worker.None?
      ensures forall d :: d in dedup ==>
        && dedup[d] in tasks && !tasks[dedup[d]].completed
        && tasks[dedup[d]].digest == d && tasks[dedup[d]].operations != map[]
    {
      OpenState(Now(), {});
      forall t | t in tasks ensures TaskOk(tasks[t]) {}
    }

    // ----- task.complete() -----

    /** The EXECUTING case: the worker is dissociated from the task, and remembers where its operations have in
        common. */
    method StopExecuting(t: TaskId, byWorker: bool) returns (w: Worker, n: Invocation)
      requires Valid() && t in tasks && tasks[t].worker.Some?
      modifies `workers, `tasks, forest
      ensures Inv({t}, {}) && tasks == old(tasks)[t := old(tasks)[t].(worker := None)]
      ensures forall n :: n in tasks[t].operations ==> tasks[t].operations[n] !in forest.queuedAt
      ensures forest.queuedAt == old(forest.queuedAt)
      ensures w in old(workers) && w.Worker? && old(workers)[w].task == Some(t) && !old(workers)[w].parked
      ensures workers == old(workers)[w := old(workers)[w].(task := None, last := Some(n))]
      ensures if byWorker then IsLowestCommonAncestor(n, tasks[t].operations.Keys) else n == Root(w.queue)
      ensures forall n :: n in old(forest.nodes) && n.Root? ==> n in forest.nodes
    {
      TaskWorker(Now(), {}, t);
      w := tasks[t].worker.value;
      BusyWorker(Now(), {}, w);
      if byWorker {
        forest.RunsInNodes(w);
        n := LowestCommonAncestor(tasks[t].operations.Keys);
        var m :| m in tasks[t].operations.Keys;
        forest.AboveInNodes(m, n);
      } else {
        n := Root(w.queue);
      }
      SetLastAndStop(w, t, n);
    }

    method SetLastAndStop(w: Worker, t: TaskId, n: Invocation)
      requires Valid() && w in workers && w.Worker? && workers[w].task == Some(t) && t in tasks && n in forest.nodes
      requires QueueOf(n) == w.queue
      modifies `workers, `tasks, forest
      ensures Inv({t}, {}) && tasks == old(tasks)[t := old(tasks)[t].(worker := None)]
      ensures forall n :: n in tasks[t].operations ==> tasks[t].operations[n] !in forest.queuedAt
      ensures forest.queuedAt == old(forest.queuedAt)
      ensures workers == old(workers)[w := old(workers)[w].(task := None, last := Some(n))]
      ensures forall n :: n in old(forest.nodes) && n.Root? ==> n in forest.nodes
    {
      ghost var s := Now();
      BusyWorker(s, {}, w);
      // The "Executing worker cannot have a last invocation associated with it" panic.
      assert workers[w].last.None?;
      forest.SetLast(w, n, {});
      assert {} - Above(n) == {};
      forest.DecrementAll(tasks[t].operations.Keys, w);
      Stopped(s, {}, w, t, n, forest.nodes, forest.runs);
      assert {} + {t} == {t};
      tasks := tasks[t := tasks[t].(worker := None)];
      workers := workers[w := workers[w].(task := None, last := Some(n))];
    }

    /** The QUEUED case: the task is started on a temporary worker, and stopped again. */
    method Withdraw(t: TaskId)
      requires Valid() && t in tasks && tasks[t].Queued()
      modifies forest
      ensures Inv({t}, {}) && forest.queuedAt.Keys <= old(forest.queuedAt).Keys
      ensures forall n :: n in tasks[t].operations ==> tasks[t].operations[n] !in forest.queuedAt
      ensures forall n :: n in old(forest.nodes) && n.Root? ==> n in forest.nodes
    {
      ghost var s := Now();
      LiveTask(s, {}, t);
      NoTemporary(s, {});
      forest.QueuedInNodes();
      forest.IncrementAll(tasks[t].operations.Keys, Temporary, {});
      assert {} - AboveAll(tasks[t].operations.Keys) == {};
      forest.UnqueueAll(tasks[t].operations, Temporary);
      forest.DecrementAll(tasks[t].operations.Keys, Temporary);
      Withdrawn(s, {}, t, forest.nodes, forest.queuedAt, forest.runs);
      assert {} + {t} == {t};
    }

    /** getOrCreateInvocation() */
    method GetInvocation(q: nat, keys: seq<Key>, ghost but: set<TaskId>)
      returns (n: Invocation, ghost loose: set<Invocation>)
      requires Inv(but, {}) && Root(q) in forest.nodes
      modifies forest`nodes
      ensures Inv(but, loose) && n == InvocationFor(q, keys) && QueueOf(n) == q && KeysOf(n) == keys
      ensures n in forest.nodes && old(forest.nodes) <= forest.nodes
      ensures loose <= AboveAll({n}) && (n in old(forest.nodes) ==> loose == {} && forest.nodes == old(forest.nodes))
    {
      ghost var s := Now();
      n := forest.GetOrCreate(q, keys, {});
      loose := {} + (Above(n) - s.nodes);
      InvocationForQueue(q, keys);
      KeysOfInvocation(q, keys);
      NodesGrew(s, but, forest.nodes);
    }

    /** Creates a task with one operation, which is yet to be scheduled. */
    method CreateTask(
      t: TaskId, o: Operation, digest: Digest, cacheable: bool, n: Invocation, ghost but: set<TaskId>,
      ghost loose: set<Invocation>)
      requires Inv(but, loose) && t !in tasks && o !in ops && Root(QueueOf(n)) in forest.nodes
      modifies `tasks, `ops, `dedup
      ensures Inv(but + {t}, loose) && o !in forest.queuedAt
      ensures tasks == old(tasks)[t := Task(map[n := o], digest, None, false)]
      ensures ops == old(ops)[o := OperationState(t, n)]
      ensures dedup == if cacheable then old(dedup)[digest := t] else old(dedup)
    {
      Created(Now(), but, t, o, n, digest, cacheable, forest.nodes);
      tasks := tasks[t := Task(map[n := o], digest, None, false)];
      ops := ops[o := OperationState(t, n)];
      if cacheable { dedup := dedup[digest := t]; }
    }

    method CreateAndSchedule(
      t: TaskId, o: Operation, digest: Digest, cacheable: bool, n: Invocation, ghost but: set<TaskId>,
      ghost loose: set<Invocation>)
      requires Inv(but, loose) && t !in tasks && t !in but && o !in ops && n in forest.nodes
      requires Root(QueueOf(n)) in forest.nodes
      requires loose <= AboveAll({n})
      modifies `tasks, `ops, `workers, `dedup, forest
      ensures Inv(but, {}) && OnlyParked(old(workers), workers)
      ensures t in tasks && tasks == old(tasks)[t := Task(map[n := o], digest, tasks[t].worker, false)]
      ensures ops == old(ops)[o := OperationState(t, n)]
      ensures dedup == if cacheable then old(dedup)[digest := t] else old(dedup)
      ensures Scheduled(t, tasks[t], old(workers), workers, forest.queuedAt, drains)
      ensures OnlyEligible(old(workers), workers, drains)
      ensures forall x :: x in forest.queuedAt ==> x in old(forest.queuedAt) || x == o
      ensures forall n :: n in old(forest.nodes) && n.Root? ==> n in forest.nodes
    {
      CreateTask(t, o, digest, cacheable, n, but, loose);
      Schedule(t, but + {t}, loose);
      assert but + {t} - {t} == but;
      ScheduledEligible(t, tasks[t], old(workers), workers, forest.queuedAt, drains);
    }

    /** The background task that task.complete() may start when the learner asks for it. */
    method StartBackground(
      t: TaskId, o: Operation, digest: Digest, q: nat, keys: seq<Key>, maximum: nat, ghost but: set<TaskId>)
      requires Inv(but, {}) && t !in tasks && t !in but && o !in ops && Root(q) in forest.nodes
      modifies `tasks, `ops, `workers, `dedup, forest
      ensures Inv(but, {}) && OnlyParked(old(workers), workers) && dedup == old(dedup)
      ensures OnlyEligible(old(workers), workers, drains)
      ensures var n := InvocationFor(q, keys);
        if maximum == 0 || |old(forest.queued).Direct(n)| >= maximum then Now() == old(Now())
        else
          && t in tasks && tasks == old(tasks)[t := Task(map[n := o], digest, tasks[t].worker, false)]
          && ops == old(ops)[o := OperationState(t, n)] && QueueOf(n) == q && KeysOf(n) == keys
          && Scheduled(t, tasks[t], old(workers), workers, forest.queuedAt, drains)
      ensures forall u :: u in old(tasks) ==> u in tasks && tasks[u] == old(tasks)[u]
      ensures forall x :: x in forest.queuedAt ==> x in old(forest.queuedAt) || x == o
      ensures forall n :: n in old(forest.nodes) && n.Root? ==> n in forest.nodes
    {
      if maximum == 0 { return; }
      forest.PresentInNodes(InvocationFor(q, keys));
      var n;
      ghost var loose;
      n, loose := GetInvocation(q, keys, but);
      if |forest.queued.Direct(n)| >= maximum {
        // The invocation was not just created, so it does not have to be removed again.
        assert loose == {};
        return;
      }
      CreateAndSchedule(t, o, digest, false, n, but, loose);
    }

    /** Completion proper: the task is marked as completed and no longer there to deduplicate against. */
    method Finish(t: TaskId)
      requires Inv({t}, {}) && t in tasks && tasks[t].Queued()
      requires forall n :: n in tasks[t].operations ==> tasks[t].operations[n] !in forest.queuedAt
      modifies `tasks, `dedup
      ensures Valid() && tasks == old(tasks)[t := old(tasks)[t].(completed := true)]
      ensures dedup == old(dedup) - {old(tasks)[t].digest}
    {
      Completed(Now(), {t}, t);
      assert {t} - {t} == {};
      dedup := dedup - {tasks[t].digest};
      tasks := tasks[t := tasks[t].(completed := true)];
    }

    /** Re-execution: all operations are transplanted to another size class queue, and the task is scheduled there. */
    method Reschedule(t: TaskId, q: nat, ghost byWorker: bool)
      requires Inv({t}, {}) && t in tasks && tasks[t].Queued() && Root(q) in forest.nodes
      requires forall n :: n in tasks[t].operations ==> tasks[t].operations[n] !in forest.queuedAt
      requires forall w :: w in workers ==> workers[w].task != Some(t)
      modifies `tasks, `ops, `workers, forest
      ensures Valid() && OnlyParked(old(workers), workers) && ops == Relocated(old(ops), t, q)
      ensures Reruns(old(Now()), Now(), t, byWorker, q)
      ensures OnlyEligible(old(workers), workers, drains)
      ensures t in tasks && Retried(old(tasks)[t], tasks[t], q, old(workers), forest.queuedAt, drains)
      ensures forall u :: u in old(tasks) && u != t ==> u in tasks && tasks[u] == old(tasks)[u]
      ensures forall n :: n in old(forest.nodes) && n.Root? ==> n in forest.nodes
    {
      Transplant(t, q);
      Schedule(t, {t}, AboveAll(tasks[t].operations.Keys));
      assert {t} - {t} == {};
      MovedAndScheduled(old(Now()), Now(), t, byWorker, q);
    }

    /** All operations move to the same invocation keys of another size class queue. */
    method Transplant(t: TaskId, q: nat)
      requires Inv({t}, {}) && t in tasks && tasks[t].Queued() && Root(q) in forest.nodes
      requires forall n :: n in tasks[t].operations ==> tasks[t].operations[n] !in forest.queuedAt
      modifies `tasks, `ops, forest`nodes
      ensures t in tasks && Inv({t}, AboveAll(tasks[t].operations.Keys)) && old(forest.nodes) <= forest.nodes
      ensures tasks == old(tasks)[t := old(tasks)[t].(operations := tasks[t].operations)]
      ensures ops == Relocated(old(ops), t, q)
      ensures MovedTo(old(tasks)[t].operations, tasks[t].operations, q)
      ensures forall n :: n in tasks[t].operations ==> n in forest.nodes && tasks[t].operations[n] !in forest.queuedAt
    {
      ghost var s := Now();
      LiveTask(s, {t}, t);
      var moved := CreateInvocations(tasks[t].operations, q, {t});
      Moved(s, {t}, t, q, moved, forest.nodes);
      tasks := tasks[t := tasks[t].(operations := moved)];
      ops := Relocated(ops, t, q);
    }

    method CreateInvocations(operations: map<Invocation, Operation>, q: nat, ghost but: set<TaskId>)
      returns (moved: map<Invocation, Operation>)
      requires Inv(but, {}) && Root(q) in forest.nodes
      requires forall m, n :: m in operations && n in operations ==> QueueOf(m) == QueueOf(n)
      modifies forest`nodes
      ensures forest.Ok(AboveAll(moved.Keys)) && old(forest.nodes) <= forest.nodes && moved.Keys <= forest.nodes
      ensures MovedTo(operations, moved, q)
    {
      moved := map[];
      var todo := operations.Keys;
      ghost var loose := {};
      while todo != {}
        invariant todo <= operations.Keys && forest.Ok(loose) && loose <= AboveAll(moved.Keys)
        invariant old(forest.nodes) <= forest.nodes && moved.Keys <= forest.nodes
        invariant MovedSoFar(operations, todo, moved, q)
        decreases todo
      {
        var n :| n in todo;
        ghost var before := forest.nodes;
        var i := forest.GetOrCreate(q, KeysOf(n), loose);
        AboveMore(loose, before, moved.Keys, i);
        OneMoved(operations, todo, moved, q, n);
        loose := loose + (Above(i) - before);
        moved, todo := moved[i := operations[n]], todo - {n};
      }
      forest.Looser(loose, AboveAll(moved.Keys));
    }

    /** All operations but those in `todo` have moved. */
    ghost predicate MovedSoFar(
      operations: map<Invocation, Operation>, todo: set<Invocation>, moved: map<Invocation, Operation>, q: nat)
    {
      && (forall n :: n in operations && n !in todo ==> Move(q, n) in moved && moved[Move(q, n)] == operations[n])
      && (forall m :: m in moved ==> exists n :: n in operations && n !in todo && Move(q, n) == m)
    }

    lemma {:induction false} OneMoved(
      operations: map<Invocation, Operation>, todo: set<Invocation>, moved: map<Invocation, Operation>, q: nat,
      n: Invocation)
      requires MovedSoFar(operations, todo, moved, q) && n in todo && n in operations
      requires forall m, n :: m in operations && n in operations ==> QueueOf(m) == QueueOf(n)
      ensures MovedSoFar(operations, todo - {n}, moved[Move(q, n) := operations[n]], q)
    {
      forall m | m in operations && m != n ensures Move(q, m) != Move(q, n) { MoveInjective(q, m, n); }
    }

    lemma {:induction false} AboveMore(
      loose: set<Invocation>, before: set<Invocation>, keys: set<Invocation>, i: Invocation)
      requires loose <= AboveAll(keys)
      ensures loose + (Above(i) - before) <= AboveAll(keys + {i})
    {
      assert forall k :: k in AboveAll(keys) ==> k in AboveAll(keys + {i});
      assert forall k :: k in Above(i) ==> k in AboveAll(keys + {i});
    }

    /** Tasks other than `t` are as they were; completed tasks never change. */
    ghost predicate TasksKept(before: map<TaskId, Task>, after: map<TaskId, Task>, t: TaskId) {
      && (forall u :: u in before && (u != t || before[u].completed) ==> u in after && after[u] == before[u])
      && (t in before ==> t in after && after[t].digest == before[t].digest)
    }

    /** The worker executing task `t`, if any, has become idle; nothing else happened to workers that are not parked. */
    ghost predicate WorkerFreed(before: map<Worker, WorkerState>, after: map<Worker, WorkerState>, t: TaskId) {
      && after.Keys == before.Keys
      && (forall w :: w in before && !before[w].parked && before[w].task != Some(t) ==> after[w] == before[w])
      && (forall w :: w in before && before[w].task == Some(t) && !before[w].parked ==>
            after[w] == before[w].(task := None, last := after[w].last) && after[w].last.Some?)
    }

    predicate VerdictOk(verdict: Verdict)
      reads this, forest
    {
      match verdict
      case Done => true
      case Background(t', o', q, _, _) => t' !in tasks && o' !in ops && Root(q) in forest.nodes
      case Retry(q) => Root(q) in forest.nodes
    }

    /** Task `t` is no longer queued, nor executed by a worker. */
    method Stop(t: TaskId, byWorker: bool)
      requires Valid() && t in tasks && !tasks[t].completed
      modifies `tasks, `workers, forest
      ensures Inv({t}, {}) && tasks == old(tasks)[t := old(tasks)[t].(worker := None)]
      ensures forall n :: n in tasks[t].operations ==> tasks[t].operations[n] !in forest.queuedAt
      ensures forest.queuedAt.Keys <= old(forest.queuedAt).Keys
      ensures WorkerFreed(old(workers), workers, t) && ParkedKept(old(workers), workers)
      ensures Stops(old(Now()), Now(), t, byWorker)
      ensures forall n :: n in old(forest.nodes) && n.Root? ==> n in forest.nodes
    {
      if tasks[t].worker.None? {
        NobodyRuns(Now(), {}, t);
        Withdraw(t);
      } else {
        OnlyOneRuns(Now(), t);
        var w, n := StopExecuting(t, byWorker);
      }
    }

    /** The same workers are parked, and nothing happened to them; nobody has got a task. */
    ghost predicate ParkedKept(before: map<Worker, WorkerState>, after: map<Worker, WorkerState>) {
      && before.Keys == after.Keys
      && forall w :: w in before ==>
           && after[w].parked == before[w].parked && after[w].synchronizing == before[w].synchronizing
           && after[w].terminating == before[w].terminating
           && (before[w].parked ==> after[w] == before[w]) && (after[w].task.Some? ==> after[w].task == before[w].task)
    }

    /** A worker was freed, and then the task was scheduled once more, or another one in the background. */
    lemma {:induction false} FreedAndScheduled(
      a: map<Worker, WorkerState>, b: map<Worker, WorkerState>, c: map<Worker, WorkerState>, t: TaskId)
      requires WorkerFreed(a, b, t) && ParkedKept(a, b) && OnlyParked(b, c)
      requires forall w :: w in a && IsQuiet(a, w) ==> !a[w].parked
      ensures WorkerFreed(a, c, t) && QuietKept(a, c, None) && NewlyEligible(a, b, drains)
      ensures TerminatingKept(b, c) ==> TerminatingKept(a, c)
    {
    }

    lemma {:induction false} RetriedFrom(
      a: map<Worker, WorkerState>, b: map<Worker, WorkerState>, before: Task, after: Task, q: nat,
      queuedAt: map<Operation, Invocation>)
      requires ParkedKept(a, b) && Retried(before, after, q, b, queuedAt, drains)
      ensures Retried(before, after, q, a, queuedAt, drains)
    {
      if after.worker.Some? { NearestSame(b, a, after.worker.value, after.operations.Keys); }
    }

    /** task.complete(). Only a failure reported by a worker may lead to re-execution. */
    method Complete(t: TaskId, byWorker: bool, verdict: Verdict)
      requires Valid() && t in tasks && VerdictOk(verdict) && (verdict.Retry? ==> byWorker)
      modifies `tasks, `ops, `workers, `dedup, forest
      ensures Valid() && TasksKept(old(tasks), tasks, t) && Completes(old(Now()), Now(), t, byWorker, verdict)
      ensures OnlyEligible(old(workers), workers, drains)
      ensures !verdict.Retry? ==> tasks[t] == old(tasks)[t].(worker := None, completed := true)
      ensures verdict.Retry? && !old(tasks)[t].completed ==>
        Retried(old(tasks)[t].(worker := None), tasks[t], verdict.queue, old(workers), forest.queuedAt, drains)
      ensures verdict.Done? ==> forest.queuedAt.Keys <= old(forest.queuedAt).Keys
      ensures verdict.Done? ==>
        forall n :: n in old(tasks)[t].operations ==> old(tasks)[t].operations[n] !in forest.queuedAt
      ensures !old(tasks)[t].completed ==> WorkerFreed(old(workers), workers, t)
      ensures forall n :: n in old(forest.nodes) && n.Root? ==> n in forest.nodes
      ensures QuietKept(old(workers), workers, None)
      ensures CompletedStay(old(tasks), tasks)
    {
      QuietNotParked();
      if tasks[t].completed {
        CompletedTask(Now(), t);
        return;
      }
      Stop(t, byWorker);
      label Stopped:
      NobodyRuns(Now(), {t}, t);
      CompleteStopped(t, verdict, byWorker);
      StopsAndCompletes(old(Now()), old@Stopped(Now()), Now(), t, byWorker, verdict);
      FreedAndScheduled(old(workers), old@Stopped(workers), workers, t);
      EligibleTwice(old(workers), old@Stopped(workers), workers, drains);
      if verdict.Retry? {
        RetriedFrom(old(workers), old@Stopped(workers), old@Stopped(tasks)[t], tasks[t], verdict.queue,
          forest.queuedAt);
      }
    }

    method CompleteStopped(t: TaskId, verdict: Verdict, ghost byWorker: bool)
      requires Inv({t}, {}) && t in tasks && tasks[t].Queued() && VerdictOk(verdict)
      requires forall n :: n in tasks[t].operations ==> tasks[t].operations[n] !in forest.queuedAt
      requires forall w :: w in workers ==> workers[w].task != Some(t)
      modifies `tasks, `ops, `workers, `dedup, forest
      ensures Valid() && TasksKept(old(tasks), tasks, t) && OnlyParked(old(workers), workers)
      ensures Completes(old(Now()), Now(), t, byWorker, verdict)
      ensures OnlyEligible(old(workers), workers, drains)
      ensures if verdict.Retry? then Retried(old(tasks)[t], tasks[t], verdict.queue, old(workers), forest.queuedAt,
        drains)
              else tasks[t] == old(tasks)[t].(completed := true)
      ensures verdict.Done? ==>
        ops == old(ops) && tasks.Keys == old(tasks).Keys && forest.queuedAt == old(forest.queuedAt)
      ensures forall n :: n in old(forest.nodes) && n.Root? ==> n in forest.nodes
    {
      match verdict {
        case Done =>
          Finish(t);
        case Background(t', o', q, keys, maximum) =>
          OperationsExist(Now(), {t}, t);
          CompleteAndStart(t, t', o', q, keys, maximum, byWorker);
        case Retry(q) =>
          Reschedule(t, q, byWorker);
      }
    }

    method CompleteAndStart(
      t: TaskId, x: TaskId, o: Operation, q: nat, keys: seq<Key>, maximum: nat, ghost byWorker: bool)
      requires Inv({t}, {}) && t in tasks && tasks[t].Queued() && x !in tasks && o !in ops && Root(q) in forest.nodes
      requires forall n :: n in tasks[t].operations ==> tasks[t].operations[n] !in forest.queuedAt
      requires forall n :: n in tasks[t].operations ==> tasks[t].operations[n] in ops
      requires forall w :: w in workers ==> workers[w].task != Some(t)
      modifies `tasks, `ops, `workers, `dedup, forest
      ensures Valid() && OnlyParked(old(workers), workers)
      ensures Ends(old(Now()), Now(), t, byWorker, Background(x, o, q, keys, maximum))
      ensures OnlyEligible(old(workers), workers, drains)
      ensures forall n :: n in old(forest.nodes) && n.Root? ==> n in forest.nodes
    {
      ghost var n := InvocationFor(q, keys);
      forest.QueuedCount(n);
      QueuedInExact(Now(), t, n);
      StartBackground(x, o, tasks[t].digest, q, keys, maximum, {t});
      if HasRoom(old(Now()), t, n, maximum) {
        ScheduledAfter(
          t, byWorker, tasks[t].operations.Keys, x, tasks[x], old(workers), workers, forest.queuedAt, drains);
      }
      Finish(t);
    }

    // ----- Execute() -----

    /** The part of Execute() that holds the lock: deduplicates against a task in flight, or creates and schedules one.
        Returns the operation to wait for. */
    method Execute(digest: Digest, cacheable: bool, q: nat, keys: seq<Key>, t: TaskId, o: Operation)
      returns (r: Operation)
      requires Valid() && t !in tasks && o !in ops && Root(q) in forest.nodes
      modifies `tasks, `ops, `workers, `dedup, forest
      ensures Valid() && OnlyParked(old(workers), workers)
      ensures r in ops && ops[r].task in tasks && tasks[ops[r].task].digest == digest
      ensures var n := ops[r].invocation;
        if digest in old(dedup) then
          var x := old(dedup)[digest];
          && x in old(tasks) && tasks == old(tasks)[x := old(tasks)[x].(operations := old(tasks)[x].operations[n := r])]
          && ops == old(ops)[r := OperationState(x, n)]
          && r == (if n in old(tasks)[x].operations then old(tasks)[x].operations[n] else o)
        else
          && t in tasks && tasks == old(tasks)[t := Task(map[n := o], digest, tasks[t].worker, false)]
          && r == o && ops == old(ops)[o := OperationState(t, n)]
      ensures if digest in old(dedup) then dedup == old(dedup)
              else dedup == if cacheable then old(dedup)[digest := t] else old(dedup)
      ensures !tasks[ops[r].task].completed && KeysOf(ops[r].invocation) == keys
      ensures digest !in old(dedup) ==>
        QueueOf(ops[r].invocation) == q
      ensures if digest in old(dedup) then workers == old(workers)
              else Scheduled(t, tasks[t], old(workers), workers, forest.queuedAt, drains)
      ensures OnlyEligible(old(workers), workers, drains)
      ensures QuietKept(old(workers), workers, None)
      ensures CompletedStay(old(tasks), tasks)
    {
      QuietNotParked();
      if digest in dedup {
        InFlight(Now(), {}, digest);
        assert !tasks[dedup[digest]].completed;
        r := Deduplicate(digest, keys, o);
      } else {
        var n;
        ghost var loose;
        n, loose := GetInvocation(q, keys, {});
        CreateAndSchedule(t, o, digest, cacheable, n, {}, loose);
        r := o;
      }
    }

    method Deduplicate(digest: Digest, keys: seq<Key>, o: Operation) returns (r: Operation)
      requires Valid() && digest in dedup && o !in ops
      modifies `tasks, `ops, forest
      ensures Valid() && r in ops && ops[r].task == dedup[digest] && dedup[digest] in tasks
      ensures tasks[dedup[digest]].digest == digest && !tasks[dedup[digest]].completed
      ensures KeysOf(ops[r].invocation) == keys
      ensures var t, n := dedup[digest], ops[r].invocation;
        && t in old(tasks) && tasks == old(tasks)[t := old(tasks)[t].(operations := old(tasks)[t].operations[n := r])]
        && ops == old(ops)[r := OperationState(t, n)]
        && r == (if n in old(tasks)[t].operations then old(tasks)[t].operations[n] else o)
    {
      InFlight(Now(), {}, digest);
      var t := dedup[digest];
      LiveTask(Now(), {}, t);
      LiveInNodes(t);
      OperationsExist(Now(), {}, t);
      // The "Task is not associated with any operations" panic of getCurrentSizeClassQueue().
      assert tasks[t].operations.Keys != {};
      var m :| m in tasks[t].operations.Keys;
      var n;
      ghost var loose;
      n, loose := GetInvocation(QueueOf(m), keys, {});
      if n in tasks[t].operations {
        r := tasks[t].operations[n];
        assert tasks[t].operations == tasks[t].operations[n := r];
      } else {
        r := o;
        // The "Task in unexpected stage" panic.
        assert !tasks[t].completed;
        if tasks[t].worker.None? {
          AttachQueued(t, o, n, loose);
        } else {
          AttachExecuting(t, o, n, loose);
        }
      }
    }

    lemma {:induction false} LiveInNodes(t: TaskId)
      requires Valid() && t in tasks && !tasks[t].completed
      ensures tasks[t].operations.Keys <= forest.nodes
    {
      LiveTask(Now(), {}, t);
      if tasks[t].worker.Some? {
        BusyWorker(Now(), {}, tasks[t].worker.value);
        forest.RunsInNodes(tasks[t].worker.value);
      } else {
        forest.QueuedInNodes();
      }
    }

    method AttachQueued(t: TaskId, o: Operation, n: Invocation, ghost loose: set<Invocation>)
      requires Inv({}, loose) && t in tasks && tasks[t].Queued() && o !in ops && n !in tasks[t].operations
      requires n in forest.nodes && loose <= AboveAll({n})
      requires forall m :: m in tasks[t].operations ==> QueueOf(m) == QueueOf(n)
      modifies `tasks, `ops, forest
      ensures Valid() && tasks == old(tasks)[t := old(tasks)[t].(operations := old(tasks)[t].operations[n := o])]
      ensures ops == old(ops)[o := OperationState(t, n)]
    {
      AttachedQueued(Now(), t, o, n);
      forest.Enqueue(o, n, loose);
      assert loose - Above(n) == {};
      tasks := tasks[t := tasks[t].(operations := tasks[t].operations[n := o])];
      ops := ops[o := OperationState(t, n)];
    }

    method AttachExecuting(t: TaskId, o: Operation, n: Invocation, ghost loose: set<Invocation>)
      requires Inv({}, loose) && t in tasks && tasks[t].worker.Some? && o !in ops && n !in tasks[t].operations
      requires n in forest.nodes && loose <= AboveAll({n})
      requires forall m :: m in tasks[t].operations ==> QueueOf(m) == QueueOf(n)
      modifies `tasks, `ops, forest
      ensures Valid() && tasks == old(tasks)[t := old(tasks)[t].(operations := old(tasks)[t].operations[n := o])]
      ensures ops == old(ops)[o := OperationState(t, n)]
    {
      TaskWorker(Now(), {}, t);
      BusyWorker(Now(), {}, tasks[t].worker.value);
      AttachedExecuting(Now(), t, o, n);
      forest.Increment(n, tasks[t].worker.value, loose);
      assert loose - Above(n) == {};
      tasks := tasks[t := tasks[t].(operations := tasks[t].operations[n := o])];
      ops := ops[o := OperationState(t, n)];
    }

    // ----- operation.remove() -----

    /** A task without one of its operations: if there are others, nothing else happens to it; if not, it is
        completed. */
    ghost function Without(task: Task, n: Invocation): Task {
      var rest := task.(operations := task.operations - {n});
      if task.operations.Keys == {n} then rest.(worker := None, completed := true) else rest
    }

    /** An operation nobody waits for any longer goes away, and so does its task if it was the last one. */
    method RemoveOperation(o: Operation)
      requires Valid() && o in ops
      modifies `tasks, `ops, `workers, `dedup, forest
      ensures Valid() && ops == old(ops) - {o} && old(ops)[o].task in old(tasks)
      ensures var t := old(ops)[o].task; tasks == old(tasks)[t := Without(old(tasks)[t], old(ops)[o].invocation)]
      ensures var t, n := old(ops)[o].task, old(ops)[o].invocation;
        if old(tasks)[t].operations.Keys == {n} && !old(tasks)[t].completed then
          && WorkersAfter(old(workers), workers, t, false, {n}, t, None)
          && dedup == old(dedup) - {old(tasks)[t].digest}
        else workers == old(workers) && dedup == old(dedup)
      ensures QuietKept(old(workers), workers, None)
      ensures OnlyEligible(old(workers), workers, drains)
      ensures CompletedStay(old(tasks), tasks)
    {
      OperationTask(Now(), o);
      var t, n := ops[o].task, ops[o].invocation;
      if tasks[t].operations.Keys == {n} {
        Complete(t, false, Done);
        ForgetOperation(t, o, n);
      } else if tasks[t].completed {
        ForgetOperation(t, o, n);
      } else if tasks[t].worker.None? {
        DetachQueued(t, o, n);
      } else {
        DetachExecuting(t, o, n);
      }
    }

    method ForgetOperation(t: TaskId, o: Operation, n: Invocation)
      requires Valid() && t in tasks && tasks[t].completed && o in ops && ops[o] == OperationState(t, n)
      modifies `tasks, `ops
      ensures Valid() && ops == old(ops) - {o}
      ensures tasks == old(tasks)[t := old(tasks)[t].(operations := old(tasks)[t].operations - {n})]
    {
      CompletedTask(Now(), t);
      OperationTask(Now(), o);
      assert forest.queuedAt == forest.queuedAt - {o};
      Detached(Now(), t, o, n, forest.nodes, forest.runs, forest.queuedAt);
      tasks := tasks[t := tasks[t].(operations := tasks[t].operations - {n})];
      ops := ops - {o};
    }

    method DetachQueued(t: TaskId, o: Operation, n: Invocation)
      requires Valid() && t in tasks && tasks[t].Queued() && o in ops && ops[o] == OperationState(t, n)
      requires tasks[t].operations.Keys != {n}
      modifies `tasks, `ops, forest
      ensures Valid() && ops == old(ops) - {o}
      ensures tasks == old(tasks)[t := old(tasks)[t].(operations := old(tasks)[t].operations - {n})]
    {
      ghost var s := Now();
      OperationTask(s, o);
      LiveTask(s, {}, t);
      forest.UnqueueAndRemove(o, n);
      Detached(s, t, o, n, forest.nodes, forest.runs, forest.queuedAt);
      tasks := tasks[t := tasks[t].(operations := tasks[t].operations - {n})];
      ops := ops - {o};
    }

    method DetachExecuting(t: TaskId, o: Operation, n: Invocation)
      requires Valid() && t in tasks && tasks[t].worker.Some? && o in ops && ops[o] == OperationState(t, n)
      requires tasks[t].operations.Keys != {n}
      modifies `tasks, `ops, forest
      ensures Valid() && ops == old(ops) - {o}
      ensures tasks == old(tasks)[t := old(tasks)[t].(operations := old(tasks)[t].operations - {n})]
    {
      ghost var s := Now();
      OperationTask(s, o);
      TaskWorker(s, {}, t);
      BusyWorker(s, {}, tasks[t].worker.value);
      LiveTask(s, {}, t);
      forest.Decrement(n, tasks[t].worker.value);
      Detached(s, t, o, n, forest.nodes, forest.runs, forest.queuedAt);
      tasks := tasks[t := tasks[t].(operations := tasks[t].operations - {n})];
      ops := ops - {o};
    }

    // ----- Synchronize() -----

    /** The first part of Synchronize(): registers the worker, unless another call for it is in progress. */
    method BeginSynchronize(w: Worker) returns (ok: bool)
      requires Valid() && w.Worker? && Root(w.queue) in forest.nodes
      modifies `workers, forest`idle, forest`last
      ensures Valid() && ok == !(w in old(workers) && old(workers)[w].synchronizing)
      ensures workers ==
        if !ok then old(workers)
        else if w in old(workers) then old(workers)[w := old(workers)[w].(synchronizing := true)]
        else old(workers)[w := WorkerState(None, Some(Root(w.queue)), false, false, true)]
      ensures Now() == if ok then Joined(old(Now()), w) else old(Now())
    {
      ghost var s := Now();
      ok := !(w in workers && workers[w].synchronizing);
      if w in workers {
        if ok {
          FlagsChanged(s, w, workers[w].(synchronizing := true));
          workers := workers[w := workers[w].(synchronizing := true)];
        }
      } else {
        Unknown(s, w);
        Registered(s, w);
        forest.SetLast(w, Root(w.queue), {});
        assert {} - Above(Root(w.queue)) == {};
        workers := workers[w := WorkerState(None, Some(Root(w.queue)), false, false, true)];
      }
    }

    /** The deferred part of Synchronize(): from here on, the worker may become stale. */
    method EndSynchronize(w: Worker)
      requires Valid() && w in workers && !workers[w].parked
      modifies `workers
      ensures Valid() && workers == old(workers)[w := old(workers)[w].(synchronizing := false)]
      ensures QuietKept(old(workers), workers, Some(w)) && OnlyEligible(old(workers), workers, drains)
    {
      FlagsChanged(Now(), w, workers[w].(synchronizing := false));
      workers := workers[w := workers[w].(synchronizing := false)];
    }

    /** worker.assignNextQueuedTask(): fails only if the size class queue has no queued operations. */
    method AssignNextQueued(w: Worker) returns (found: bool)
      requires Valid() && w in workers && workers[w].task.None? && !workers[w].parked
      modifies `workers, `tasks, forest
      ensures Valid() && w.Worker?
      ensures found <==> HasQueued(old(tasks), w.queue)
      ensures !found ==> Now() == old(Now())
      ensures found ==>
        && w in workers && workers[w].task.Some?
        && workers == old(workers)[w := old(workers)[w].(task := workers[w].task, last := None)]
        && var t := workers[w].task.value;
          && t in old(tasks) && old(tasks)[t].Queued()
          && (forall n :: n in old(tasks)[t].operations ==> QueueOf(n) == w.queue)
          && tasks == old(tasks)[t := old(tasks)[t].(worker := Some(w))]
      ensures QuietKept(old(workers), workers, Some(w))
      ensures CompletedStay(old(tasks), tasks)
    {
      IdleWorker(Now(), {}, w);
      // The invocations that the worker sticks to exist, as it is looked up from the root down.
      forest.LastInNodes(w);
      found := forest.queued.Present(Root(w.queue));
      forest.QueuedAtRoot(w.queue);
      QueuedInQueue(Now(), w.queue);
      if found {
        var o := forest.FirstQueued(Root(w.queue));
        UnderQueue(forest.queuedAt[o], Root(w.queue));
        QueuedOperation(Now(), o);
        AssignQueued(w, ops[o].task);
      }
    }

    /** The part of worker.getNextTask() that parks a worker. */
    method ParkWorker(w: Worker)
      requires Valid() && w in workers && workers[w].task.None? && !workers[w].parked && workers[w].synchronizing
      requires !workers[w].terminating && !Drained(drains, w)
      requires w.Worker? && forall o :: o in forest.queuedAt ==> QueueOf(forest.queuedAt[o]) != w.queue
      modifies `workers, forest`parked, forest`parkedAt
      ensures Valid() && workers == old(workers)[w := old(workers)[w].(parked := true)]
    {
      // The "Worker is already queued" panic.
      IdleWorker(Now(), {}, w);
      assert w !in forest.parkedAt;
      WasParked(Now(), w);
      forest.Park(w, workers[w].last.value, {});
      workers := workers[w := workers[w].(parked := true)];
    }

    /** The workers once the call to Synchronize() has returned with its reply, unless it is to wait. */
    ghost function Returned(workers: map<Worker, WorkerState>, w: Worker, r: Reply): map<Worker, WorkerState>
      requires w in workers
    {
      if r.Park? || r.AwaitUndrain? then workers else workers[w := workers[w].(synchronizing := false)]
    }

    /** worker.getNextTask(), from where isDrained() is evaluated up to where it replies or waits. */
    method NextTaskOrWait(w: Worker, mayBlock: bool) returns (r: Reply)
      requires Valid() && w in workers && workers[w].task.None? && !workers[w].parked && workers[w].synchronizing
      modifies `workers, `tasks, forest
      ensures Valid() && w in workers && w.Worker? && workers[w].synchronizing
      ensures Hands(old(Now()), Now().(workers := Returned(workers, w, r)), w, false, mayBlock, r)
      ensures (r.Execute? ==> workers[w].task == Some(r.task)) && (r.Park? <==> workers[w].parked)
    {
      IdleWorker(Now(), {}, w);
      var drained := workers[w].terminating || Drained(drains, w);
      var found := false;
      if !drained {
        found := AssignNextQueued(w);
      }
      if found {
        r := Reply.Execute(workers[w].task.value);
      } else if !mayBlock {
        r := GoIdle;
      } else if drained {
        r := AwaitUndrain;
      } else {
        QueuedInQueue(Now(), w.queue);
        ParkWorker(w);
        r := Park;
      }
    }

    /** worker.getNextTask() */
    method NextTask(w: Worker, preferBeingIdle: bool, mayBlock: bool) returns (r: Reply)
      requires Valid() && w in workers && workers[w].task.None? && !workers[w].parked && workers[w].synchronizing
      modifies `workers, `tasks, forest
      ensures Valid() && Answered(w, r) && Hands(old(Now()), Now(), w, preferBeingIdle, mayBlock, r)
      ensures r.Execute? ==> Eligible(w)
      ensures QuietKept(old(workers), workers, Some(w))
      ensures OnlyEligible(old(workers), workers, drains)
      ensures workers.Keys == old(workers).Keys
      ensures CompletedStay(old(tasks), tasks)
    {
      IdleWorker(Now(), {}, w);
      if preferBeingIdle {
        r := GoIdle;
        EndSynchronize(w);
        return;
      }
      r := NextTaskOrWait(w, mayBlock);
      if r.GoIdle? || r.Execute? {
        if r.Execute? { BusyWorker(Now(), {}, w); }
        EndSynchronize(w);
      } else if r.Park? {
        ParkedWorker(Now(), {}, w);
      }
      HandsKeeps(old(Now()), Now(), w, false, mayBlock, r);
    }

    /** What a reply to worker `w` means. */
    ghost predicate Answered(w: Worker, r: Reply)
      reads `workers, `drains
    {
      && w in workers
      && match r {
           case GoIdle => workers[w].task.None? && !workers[w].synchronizing
           case Execute(t) => workers[w].task == Some(t) && !workers[w].synchronizing
           case Continue => workers[w].task.Some? && !workers[w].synchronizing
           case Park => workers[w].parked && !workers[w].terminating && !Drained(drains, w)
           case AwaitUndrain => workers[w].task.None? && !workers[w].parked && workers[w].synchronizing && !Eligible(w)
           case Refuse => workers[w].synchronizing
         }
    }

    /** The task of a worker is completed; after which it may get another one. */
    method CompleteAndNext(w: Worker, byWorker: bool, verdict: Verdict, preferBeingIdle: bool, mayBlock: bool)
      returns (r: Reply)
      requires Valid() && w in workers && workers[w].task.Some? && !workers[w].parked && workers[w].synchronizing
      requires VerdictOk(verdict) && (verdict.Retry? ==> byWorker)
      modifies `tasks, `ops, `workers, `dedup, forest
      ensures Valid() && Answered(w, r) && w.Worker? && old(workers)[w].task.value in old(tasks)
      ensures var t := old(workers)[w].task.value;
        && CompletesAndHands(old(Now()), Now(), t, byWorker, verdict, w, preferBeingIdle, mayBlock, r)
        && NextReply(r, preferBeingIdle, mayBlock, old(Eligible(w)),
             HasQueued(old(tasks), w.queue) || Adds(old(Now()), t, verdict, w.queue))
        && (!verdict.Retry? ==> t in tasks && tasks[t].completed)
      ensures r.Execute? ==> Eligible(w)
      ensures QuietKept(old(workers), workers, Some(w))
      ensures OnlyEligible(old(workers), workers, drains)
      ensures workers.Keys == old(workers).Keys
      ensures CompletedStay(old(tasks), tasks)
    {
      BusyWorker(Now(), {}, w);
      var t := workers[w].task.value;
      Complete(t, byWorker, verdict);
      label Completed:
      r := NextTask(w, preferBeingIdle, mayBlock);
      assert Completes(old(Now()), old@Completed(Now()), t, byWorker, verdict);
      CompletedReply(old(Now()), Now(), t, byWorker, verdict, w, preferBeingIdle, mayBlock, r);
      EligibleTwice(old(workers), old@Completed(workers), workers, drains);
    }

    /** worker.getCurrentOrNextTask(); `giveUp` says whether the task has been handed out too often. */
    method CurrentOrNextTask(w: Worker, preferBeingIdle: bool, mayBlock: bool, giveUp: bool) returns (r: Reply)
      requires Valid() && w in workers && !workers[w].parked && workers[w].synchronizing
      modifies `tasks, `ops, `workers, `dedup, forest
      ensures Valid() && Answered(w, r) && w.Worker?
      ensures HandsCurrent(old(Now()), Now(), w, preferBeingIdle, mayBlock, giveUp, r)
      ensures if old(workers)[w].task.Some? && !giveUp then r == Reply.Execute(old(workers)[w].task.value)
              else NextReply(r, preferBeingIdle, mayBlock, old(Eligible(w)), HasQueued(old(tasks), w.queue))
      ensures old(workers)[w].task.Some? && giveUp ==>
        old(workers)[w].task.value in tasks && tasks[old(workers)[w].task.value].completed
      ensures old(workers)[w].task.None? ==> ops == old(ops) && dedup == old(dedup)
      ensures r.Execute? && (old(workers)[w].task.None? || giveUp) ==> Eligible(w)
      ensures QuietKept(old(workers), workers, Some(w))
      ensures OnlyEligible(old(workers), workers, drains)
      ensures workers.Keys == old(workers).Keys
      ensures CompletedStay(old(tasks), tasks)
    {
      if workers[w].task.Some? {
        BusyWorker(Now(), {}, w);
        var t := workers[w].task.value;
        if !giveUp {
          EndSynchronize(w);
          return Reply.Execute(t);
        }
        r := CompleteAndNext(w, false, Done, preferBeingIdle, mayBlock);
        return;
      }
      r := NextTask(w, preferBeingIdle, mayBlock);
    }

    /** worker.isRunningCorrectTask() */
    predicate RunningCorrectTask(w: Worker, digest: Digest)
      requires w in workers
      reads `workers, `tasks
    {
      workers[w].task.Some? && workers[w].task.value in tasks && tasks[workers[w].task.value].digest == digest
    }

    /** The worker reports that it has finished the task that it was given. */
    predicate Finishes(w: Worker, report: Report)
      requires w in workers
      reads `workers, `tasks
    {
      report.Finished? && RunningCorrectTask(w, report.digest)
    }

    /** completeTask(), of the task that the worker was given; after which it may get another one. */
    method FinishedTask(w: Worker, verdict: Verdict, preferBeingIdle: bool) returns (r: Reply)
      requires Valid() && w in workers && workers[w].task.Some? && !workers[w].parked && workers[w].synchronizing
      requires VerdictOk(verdict)
      modifies `tasks, `ops, `workers, `dedup, forest
      ensures Valid() && Answered(w, r) && w.Worker? && old(workers)[w].task.value in old(tasks)
      ensures var t := old(workers)[w].task.value;
        && Outcome(old(Now()), Now(), t, verdict)
        && CompletesAndHands(old(Now()), Now(), t, true, verdict, w, preferBeingIdle, true, r)
        && NextReply(r, preferBeingIdle, true, old(Eligible(w)),
             HasQueued(old(tasks), w.queue) || Adds(old(Now()), t, verdict, w.queue))
      ensures QuietKept(old(workers), workers, Some(w))
      ensures OnlyEligible(old(workers), workers, drains)
      ensures r.Execute? ==> Eligible(w)
      ensures workers.Keys == old(workers).Keys
      ensures CompletedStay(old(tasks), tasks)
    {
      BusyWorker(Now(), {}, w);
      r := CompleteAndNext(w, true, verdict, preferBeingIdle, true);
      FinishedBy(old(Now()), Now(), old(workers)[w].task.value, verdict, w, preferBeingIdle, r);
    }

    /** The part of Synchronize() that processes the state of the worker, up to where it replies or waits. */
    method Respond(w: Worker, report: Report, preferBeingIdle: bool, giveUp: bool) returns (r: Reply)
      requires Valid() && w in workers && w.Worker? && !workers[w].parked && workers[w].synchronizing
      requires report.Finished? ==> VerdictOk(report.verdict)
      modifies `tasks, `ops, `workers, `dedup, forest
      ensures Valid() && Answered(w, r)
      ensures Responds(old(Now()), Now(), w, report, preferBeingIdle, giveUp, r)
      ensures Told(old(Now()), w, report, preferBeingIdle, giveUp, r)
      ensures old(Finishes(w, report)) ==> Outcome(old(Now()), Now(), old(workers)[w].task.value, report.verdict)
      ensures QuietKept(old(workers), workers, Some(w)) && OnlyEligible(old(workers), workers, drains)
      ensures CompletedStay(old(tasks), tasks) && workers.Keys == old(workers).Keys
      ensures r.Execute? ==>
        Eligible(w) || (old(workers)[w].task == Some(r.task) && !giveUp && !old(Finishes(w, report)))
    {
      match report {
        case Idle =>
        case Executing(digest) =>
          if RunningCorrectTask(w, digest) {
            BusyWorker(Now(), {}, w);
            EndSynchronize(w);
            OpenResponds(old(Now()), Now(), w, report, preferBeingIdle, giveUp, Continue);
            return Continue;
          }
        case Finished(digest, verdict) =>
          if RunningCorrectTask(w, digest) {
            r := FinishedTask(w, verdict, preferBeingIdle);
            OpenResponds(old(Now()), Now(), w, report, preferBeingIdle, giveUp, r);
            return;
          }
      }
      r := CurrentOrNextTask(w, preferBeingIdle, !report.Executing?, giveUp);
      OpenResponds(old(Now()), Now(), w, report, preferBeingIdle, giveUp, r);
      ToldCurrent(old(Now()), w, report, preferBeingIdle, giveUp, r);
    }

    /** Synchronize(), up to where it replies or waits. */
    method Synchronize(w: Worker, report: Report, preferBeingIdle: bool, giveUp: bool) returns (r: Reply)
      requires Valid() && w.Worker? && Root(w.queue) in forest.nodes && (report.Finished? ==> VerdictOk(report.verdict))
      modifies `tasks, `ops, `workers, `dedup, forest
      ensures Valid() && Answered(w, r)
      ensures r.Refuse? <==> w in old(workers) && old(workers)[w].synchronizing
      ensures Received(old(Now()), Now(), w, report, preferBeingIdle, giveUp, r)
      ensures !r.Refuse? ==> Told(old(Now()), w, report, preferBeingIdle, giveUp, r)
      ensures !r.Refuse? && w in old(workers) && old(Finishes(w, report)) ==>
        Outcome(old(Now()), Now(), old(workers)[w].task.value, report.verdict)
      ensures QuietKept(old(workers), workers, Some(w)) && OnlyEligible(old(workers), workers, drains)
      ensures CompletedStay(old(tasks), tasks) && workers.Keys == old(workers).Keys + {w}
      ensures r.Execute? ==>
        || Eligible(w)
        || (w in old(workers) && old(workers)[w].task == Some(r.task) && !giveUp && !old(Finishes(w, report)))
    {
      if w in workers { NotParkedYet(w); }
      var ok := BeginSynchronize(w);
      if !ok { return Refuse; }
      label Registered:
      r := Respond(w, report, preferBeingIdle, giveUp);
      JoinedKeeps(old(workers), w, old@Registered(workers)[w], workers, drains);
      ToldJoined(old(Now()), w, report, preferBeingIdle, giveUp, r);
      if w in old(workers) && old(Finishes(w, report)) {
        FinishedJoined(old(Now()), Now(), w, old(workers)[w].task.value, report.verdict);
      }
    }

    /** Only during a call to Synchronize() may a worker be parked. */
    lemma {:induction false} NotParkedYet(w: Worker)
      requires Valid() && w in workers
      ensures workers[w].parked ==> workers[w].synchronizing
    {
      if workers[w].parked { ParkedWorker(Now(), {}, w); }
    }

    /** Synchronize() continues after it was parked, or had waited for a drain to be lifted: because it was woken up,
        because enough time has passed, or because the worker has canceled the call. */
    method Resume(w: Worker, why: Wake) returns (r: Reply)
      requires Valid() && w in workers && workers[w].synchronizing
      requires why.Signaled? ==> !workers[w].parked
      modifies `workers, `tasks, forest
      ensures Valid() && (Answered(w, r) || (why.Canceled? && r.Refuse?)) && w in workers && w.Worker?
      ensures Resumed(old(Now()), Now(), w, why, r)
      ensures why.Canceled? ==> r.Refuse?
      ensures old(workers)[w].task.Some? && !why.Canceled? ==> r == Reply.Execute(old(workers)[w].task.value)
      ensures old(workers)[w].task.None? && why.TimedOut? ==> r.GoIdle?
      ensures old(workers)[w].task.None? && why.Signaled? ==>
        && (r.Execute? <==> old(Eligible(w)) && HasQueued(old(tasks), w.queue))
        && (r.Park? <==> old(Eligible(w)) && !HasQueued(old(tasks), w.queue))
        && (r.AwaitUndrain? <==> !old(Eligible(w)))
      ensures old(workers)[w].task.None? && r.Execute? ==> Eligible(w)
      ensures QuietKept(old(workers), workers, Some(w))
      ensures OnlyEligible(old(workers), workers, drains)
      ensures workers.Keys == old(workers).Keys
      ensures CompletedStay(old(tasks), tasks)
    {
      KnownWorker(Now(), w);
      if workers[w].parked {
        ParkedWorker(Now(), {}, w);
        WakeUp(w, {}, {});
      }
      if why.Canceled? {
        EndSynchronize(w);
        r := Refuse;
      } else if workers[w].task.Some? {
        r := Reply.Execute(workers[w].task.value);
        EndSynchronize(w);
      } else if why.TimedOut? {
        r := GoIdle;
        EndSynchronize(w);
      } else {
        r := NextTask(w, false, true);
      }
    }

    // ----- Drains and termination -----

    method WakeUpMatching(q: nat, pattern: Pattern)
      requires Valid()
      modifies `workers, forest`parked, forest`parkedAt
      ensures Valid() && workers.Keys == old(workers).Keys
      ensures forall w :: w in workers ==> workers[w] == Woken(old(workers)[w], Drained({Drain(q, pattern)}, w))
    {
      var todo := workers.Keys;
      while todo != {}
        invariant todo <= old(workers).Keys && Valid() && workers.Keys == old(workers).Keys
        invariant forall w :: w in workers ==>
          workers[w] == Woken(old(workers)[w], w !in todo && Drained({Drain(q, pattern)}, w))
        decreases todo
      {
        var w :| w in todo;
        WakeUpIfMatching(w, q, pattern);
        todo := todo - {w};
      }
    }

    ghost function Woken(ws: WorkerState, yes: bool): WorkerState { if yes then ws.(parked := false) else ws }

    method WakeUpIfMatching(w: Worker, q: nat, pattern: Pattern)
      requires Valid() && w in workers
      modifies `workers, forest`parked, forest`parkedAt
      ensures Valid()
      ensures workers == old(workers)[w := Woken(old(workers)[w], Drained({Drain(q, pattern)}, w))]
    {
      if workers[w].parked && Drained({Drain(q, pattern)}, w) {
        WakeUp(w, {}, {});
      }
    }

    /** AddDrain(). Workers that are to be drained are woken up. */
    method AddDrain(q: nat, pattern: Pattern)
      requires Valid()
      modifies `workers, `drains, forest`parked, forest`parkedAt
      ensures Valid() && drains == old(drains) + {Drain(q, pattern)} && workers.Keys == old(workers).Keys
      ensures forall w :: w in workers ==> workers[w] == Woken(old(workers)[w], Drained({Drain(q, pattern)}, w))
      ensures QuietKept(old(workers), workers, None)
      ensures OnlyEligible(old(workers), workers, drains)
    {
      QuietNotParked();
      WakeUpMatching(q, pattern);
      DrainAdded(Now(), Drain(q, pattern));
      drains := drains + {Drain(q, pattern)};
    }

    /** RemoveDrain(). Workers that wait for this are resumed. */
    method RemoveDrain(q: nat, pattern: Pattern)
      requires Valid()
      modifies `drains
      ensures Valid() && drains == old(drains) - {Drain(q, pattern)}
    {
      DrainRemoved(Now(), Drain(q, pattern));
      drains := drains - {Drain(q, pattern)};
    }

    method MarkTerminating(w: Worker)
      requires Valid() && w in workers
      modifies `workers, forest`parked, forest`parkedAt
      ensures Valid() && workers == old(workers)[w := old(workers)[w].(terminating := true, parked := false)]
    {
      if workers[w].parked {
        WakeUp(w, {}, {});
      }
      FlagsChanged(Now(), w, workers[w].(terminating := true));
      workers := workers[w := workers[w].(terminating := true)];
    }

    ghost function Terminated(ws: WorkerState, yes: bool): WorkerState {
      if yes then ws.(terminating := true, parked := false) else ws
    }

    /** TerminateWorkers(), up to where it waits for the tasks of these workers to complete. */
    method TerminateWorkers(pattern: Pattern)
      requires Valid()
      modifies `workers, forest`parked, forest`parkedAt
      ensures Valid() && workers.Keys == old(workers).Keys
      ensures forall w :: w in workers ==> workers[w] == Terminated(old(workers)[w], Matches(w, pattern))
      ensures QuietKept(old(workers), workers, None)
      ensures NewlyEligible(old(workers), workers, drains)
    {
      QuietNotParked();
      var todo := workers.Keys;
      while todo != {}
        invariant todo <= old(workers).Keys && Valid() && workers.Keys == old(workers).Keys
        invariant forall w :: w in workers ==>
          workers[w] == Terminated(old(workers)[w], w !in todo && Matches(w, pattern))
        decreases todo
      {
        var w :| w in todo;
        if Matches(w, pattern) {
          MarkTerminating(w);
        }
        todo := todo - {w};
      }
    }

    // ----- Things that go away -----

    /** KillOperations(), for one operation. */
    method KillOperation(o: Operation, verdict: Verdict)
      requires Valid() && o in ops && VerdictOk(verdict) && !verdict.Retry?
      modifies `tasks, `ops, `workers, `dedup, forest
      ensures Valid() && old(ops)[o].task in tasks && tasks[old(ops)[o].task].completed
      ensures old(ops)[o].task in old(tasks) && Completes(old(Now()), Now(), old(ops)[o].task, false, verdict)
      ensures TasksKept(old(tasks), tasks, old(ops)[o].task)
      ensures QuietKept(old(workers), workers, None)
      ensures OnlyEligible(old(workers), workers, drains)
      ensures CompletedStay(old(tasks), tasks)
    {
      OperationTask(Now(), o);
      Complete(ops[o].task, false, verdict);
    }

    /** removeStaleWorker(): a worker that has not synchronized for too long. */
    method RemoveStaleWorker(w: Worker)
      requires Valid() && w in workers && !workers[w].synchronizing
      modifies `tasks, `ops, `workers, `dedup, forest
      ensures Valid() && workers == old(workers) - {w} && ops == old(ops)
      ensures match old(workers)[w].task {
                case None => tasks == old(tasks) && dedup == old(dedup)
                case Some(t) =>
                  && t in old(tasks) && tasks == old(tasks)[t := old(tasks)[t].(worker := None, completed := true)]
                  && dedup == old(dedup) - {old(tasks)[t].digest}
              }
      ensures QuietKept(old(workers), workers, None)
      ensures OnlyEligible(old(workers), workers, drains)
      ensures CompletedStay(old(tasks), tasks)
    {
      NotParkedYet(w);
      MarkTerminating(w);
      if workers[w].task.Some? { TakeTask(w); }
      LessOne(old(workers), w, drains);
      assert workers - {w} == old(workers) - {w};
      ForgetWorker(w);
    }

    /** The task of a worker that is about to go away is completed. */
    method TakeTask(w: Worker)
      requires Valid() && w in workers && workers[w].task.Some? && !workers[w].parked
      modifies `tasks, `ops, `workers, `dedup, forest
      ensures Valid() && ops == old(ops) && workers - {w} == old(workers) - {w}
      ensures w in workers && workers[w].task.None? && !workers[w].parked
      ensures var t := old(workers)[w].task.value;
        && t in old(tasks) && tasks == old(tasks)[t := old(tasks)[t].(worker := None, completed := true)]
        && dedup == old(dedup) - {old(tasks)[t].digest}
    {
      BusyWorker(Now(), {}, w);
      var t := workers[w].task.value;
      OnlyOneRuns(Now(), t);
      Complete(t, false, Done);
      OthersSame(old(workers), workers, t, w, false, old(tasks)[t].operations.Keys);
    }

    method ForgetWorker(w: Worker)
      requires Valid() && w in workers && workers[w].task.None? && !workers[w].parked
      modifies `workers, forest`nodes, forest`idle, forest`last
      ensures Valid() && workers == old(workers) - {w}
    {
      ghost var s := Now();
      IdleWorker(s, {}, w);
      // The "Clearing last invocations would make it impossible to dequeue the worker" panic.
      assert !workers[w].parked;
      forest.ClearLast(w, workers[w].last.value);
      Gone(s, w, forest.nodes);
      workers := workers - {w};
    }

    /** A size class queue comes into existence. */
    method AddQueue(q: nat)
      requires Valid()
      modifies forest`nodes
      ensures Valid() && forest.nodes == old(forest.nodes) + {Root(q)}
    {
      NodesGrew(Now(), {}, forest.nodes + {Root(q)});
      forest.AddRoot(q);
    }

    /** sizeClassQueue.remove(): all queued operations are canceled. */
    method RemoveQueue(q: nat)
      requires Valid() && (forall w :: w in workers && w.Worker? ==> w.queue != q)
      modifies `tasks, `ops, `workers, `dedup, forest
      ensures Valid() && (forall n :: n in forest.nodes ==> QueueOf(n) != q) && CanceledOnly(old(tasks), tasks, q)
      ensures forall t, n :: t in tasks && !tasks[t].completed && n in tasks[t].operations ==> QueueOf(n) != q
      ensures workers == old(workers) && ops == old(ops)
      ensures QuietKept(old(workers), workers, None)
      ensures OnlyEligible(old(workers), workers, drains)
      ensures CompletedStay(old(tasks), tasks)
    {
      while forest.queued.Present(Root(q))
        invariant Valid() && workers == old(workers) && ops == old(ops) && CanceledOnly(old(tasks), tasks, q)
        decreases |forest.queuedAt|
      {
        CancelOne(q);
      }
      forest.QueuedAtRoot(q);
      QueueGone(Now(), q);
      forest.RemoveRoot(q);
      forall t | t in tasks && !tasks[t].completed ensures forall n :: n in tasks[t].operations ==> QueueOf(n) != q {
        LiveInNodes(t);
      }
    }

    /** Tasks are as they were, but for some of size class queue `q` that have been completed. */
    ghost predicate CanceledOnly(before: map<TaskId, Task>, after: map<TaskId, Task>, q: nat) {
      && after.Keys == before.Keys
      && forall t :: t in before && after[t] != before[t] ==>
           && after[t] == before[t].(worker := None, completed := true)
           && exists n :: n in before[t].operations && QueueOf(n) == q
    }

    method CancelOne(q: nat)
      requires Valid() && forest.queued.Present(Root(q))
      modifies `tasks, `ops, `workers, `dedup, forest
      ensures Valid() && workers == old(workers) && ops == old(ops) && |forest.queuedAt| < |old(forest.queuedAt)|
      ensures CanceledOnly(old(tasks), tasks, q)
    {
      var o := forest.FirstQueued(Root(q));
      QueuedOperation(Now(), o);
      OperationTask(Now(), o);
      UnderQueue(forest.queuedAt[o], Root(q));
      assert ops[o].invocation in tasks[ops[o].task].operations && QueueOf(ops[o].invocation) == q;
      NobodyRuns(Now(), {}, ops[o].task);
      Complete(ops[o].task, false, Done);
      Fewer(forest.queuedAt.Keys, old(forest.queuedAt).Keys, o);
    }
  }

  lemma {:induction false} Fewer<T>(a: set<T>, b: set<T>, x: T)
    requires a <= b && x in b && x !in a
    ensures |a| < |b|
  {
    assert b == a + (b - a) && x in b - a;
  }
}
