/**
 pkg/builder/build_client.go: the worker's side of the protocol with the scheduler, and what the two
 know of each other in every run of both.
 */
module BuildClient {
  import opened Common
  import opened InvocationTree
  import opened InvocationPresence
  import opened InvocationCounts
  import opened SchedulerTables
  import opened SchedulerSteps
  import opened InMemoryBuildQueue

  const ONE_MINUTE: int := 60

  /** What the worker is doing: `request.CurrentState`. */
  datatype Activity = Idle | Executing(digest: Digest) | Completed(digest: Digest, failed: bool)

  /** What execution of an action reports: a new state, or that it has ended. */
  datatype Update = Progress(activity: Activity) | Ended

  /** What a call to Synchronize() gave: an error, or when to synchronize next and what to do. */
  datatype Response =
    | Failed
    | InvalidTimestamp
    | DesiredExecuting(nextSynchronizationAt: int, digest: Digest, accepted: bool)
    | DesiredIdle(nextSynchronizationAt: int)
    | NoDesiredState(nextSynchronizationAt: int)

  /** What the worker is doing, and whether it still expects updates, after those given. */
  ghost function Consumed(activity: Activity, running: bool, updates: seq<Update>): (Activity, bool)
    decreases updates
  {
    if !running || updates == [] then (activity, running)
    else
      match updates[0]
      case Progress(a) => Consumed(a, true, updates[1..])
      case Ended => (activity, false)
  }

  /** Updates are consumed up to the first that says that execution has ended; the last one before that counts. */
  lemma {:induction false} ConsumedExact(activity: Activity, updates: seq<Update>, k: nat)
    requires k <= |updates| && (forall i :: 0 <= i < k ==> updates[i].Progress?)
    requires k < |updates| ==> updates[k].Ended?
    ensures Consumed(activity, true, updates) == (if k == 0 then activity else updates[k - 1].activity, k == |updates|)
    decreases |updates|
  {
    if k > 0 {
      assert forall i :: 0 <= i < k - 1 ==> updates[1..][i] == updates[i + 1];
      ConsumedExact(updates[0].activity, updates[1..], k - 1);
    }
  }

  /** The time that a response carries, of when to synchronize next. */
  function TimeIn(response: Response): (r: Option<int>)
    ensures r.None? <==> response.Failed? || response.InvalidTimestamp?
    ensures r.Some? ==> r.value == response.nextSynchronizationAt
  {
    match response
    case Failed => None
    case InvalidTimestamp => None
    case _ => Some(response.nextSynchronizationAt)
  }

  /** Whether a response tells the worker that the scheduler has no task for it, given whether it reported to be
      executing. */
  predicate TellsIdle(response: Response, executing: bool) {
    response.DesiredIdle? || (response.NoDesiredState? && !executing)
  }

  /** From which time on a minute has to pass until the worker assumes that the scheduler has forgotten about it, once a
      call has returned. If that was a success, it is what the scheduler asked for. If not, it is known before the call:
      what it was, or if there was none, when the worker was to synchronize. */
  function DueAfter(
    until: Option<int>, due: int, nextSynchronizationAt: int, executing: bool, response: Response): int
  {
    match response
    case DesiredExecuting(t, _, true) => t
    case NoDesiredState(t) => if executing then t else Due(until, due, nextSynchronizationAt)
    case _ => Due(until, due, nextSynchronizationAt)
  }

  function Due(until: Option<int>, due: int, nextSynchronizationAt: int): int {
    if until.None? then nextSynchronizationAt else due
  }

  /** Whether Run() returns at once and the worker may terminate: the scheduler does not think it is executing, and it
      is to terminate or is not ready; or it is to terminate, and over a minute has passed since it was due. */
  predicate MayGo(until: Option<int>, terminating: bool, now: int, ready: bool) {
    if until.None? then terminating || !ready else terminating && now > until.value
  }

  class Client {
    var activity: Activity
    var preferBeingIdle: bool
    var schedulerMayThinkExecutingUntil: Option<int>
    var nextSynchronizationAt: int
    var running: bool                          // executionCancellation != nil
    ghost var due: int                         // nextSynchronizationAt, when schedulerMayThinkExecutingUntil was set
    ghost var returned: int                    // when the last call returned
    ghost var late: bool                       // whether that was after the worker was due
    ghost var asked: int                       // when the scheduler last asked to synchronize next
    ghost var earlier: Option<int>             // when, since then, there was an update before that

    /** The worker waits for a minute longer than until when it was to synchronize. */
    ghost predicate Valid()
      reads this
    {
      && (schedulerMayThinkExecutingUntil.Some? ==> schedulerMayThinkExecutingUntil.value == due + ONE_MINUTE)
      && (late <==> returned > due)
      && nextSynchronizationAt == (if earlier.Some? then earlier.value else asked)
      && (earlier.Some? ==> earlier.value < asked)
    }

    constructor (now: int)
      ensures Valid() && activity == Activity.Idle && schedulerMayThinkExecutingUntil == None
      ensures !running && nextSynchronizationAt == now == returned == asked && earlier == None
    {
      activity, preferBeingIdle, running := Activity.Idle, false, false;
      due, returned, late, asked, earlier := now, now, false, now, None;
      schedulerMayThinkExecutingUntil, nextSynchronizationAt := None, now;
    }

    /** touchSchedulerMayThinkExecuting() */
    method Touch()
      modifies `schedulerMayThinkExecutingUntil, `due
      ensures due == nextSynchronizationAt && schedulerMayThinkExecutingUntil == Some(due + ONE_MINUTE)
    {
      schedulerMayThinkExecutingUntil := Some(nextSynchronizationAt + ONE_MINUTE);
      due := nextSynchronizationAt;
    }

    /** Run(), up to the call to Synchronize(). It may terminate only if the scheduler does not think it is executing,
        or if over a minute has passed since it was due to synchronize. */
    method BeginRun(terminating: bool, now: int, ready: bool, updates: seq<Update>) returns (mayTerminate: bool)
      requires Valid()
      modifies `activity, `preferBeingIdle, `running, `nextSynchronizationAt, `earlier
      ensures Valid()
      ensures mayTerminate <==>
        || (schedulerMayThinkExecutingUntil.None? && (terminating || !ready))
        || (schedulerMayThinkExecutingUntil.Some? && terminating && now > schedulerMayThinkExecutingUntil.value)
      ensures !mayTerminate ==> (activity, running) == Consumed(old(activity), old(running), updates)
      ensures !mayTerminate ==>
        (preferBeingIdle <==>
           || terminating || (activity.Idle? && schedulerMayThinkExecutingUntil.Some?)
           || (activity.Completed? && activity.failed))
      ensures var early := !mayTerminate && old(running) && updates != [] && now < old(nextSynchronizationAt);
        && nextSynchronizationAt == (if early then now else old(nextSynchronizationAt))
        && earlier == if early then Some(now) else old(earlier)
      ensures mayTerminate ==>
        activity == old(activity) && running == old(running) && preferBeingIdle == old(preferBeingIdle)
    {
      if terminating && (schedulerMayThinkExecutingUntil.None? || now > schedulerMayThinkExecutingUntil.value) {
        return true;
      }
      if schedulerMayThinkExecutingUntil.None? && !ready {
        return true;
      }
      if running && updates != [] {
        ApplyUpdates(updates);
        if nextSynchronizationAt > now { nextSynchronizationAt, earlier := now, Some(now); }
      }
      SetPreference(terminating);
      mayTerminate := false;
    }

    method SetPreference(terminating: bool)
      modifies `preferBeingIdle
      ensures preferBeingIdle <==>
        || terminating || (activity.Idle? && schedulerMayThinkExecutingUntil.Some?)
        || (activity.Completed? && activity.failed)
    {
      match activity {
        case Idle => preferBeingIdle := schedulerMayThinkExecutingUntil.Some?;
        case Completed(_, failed) => preferBeingIdle := failed;
        case Executing(_) => preferBeingIdle := false;
      }
      if terminating { preferBeingIdle := true; }
    }

    /** applyExecutionUpdate() and consumeExecutionUpdatesNonBlocking() */
    method ApplyUpdates(updates: seq<Update>)
      modifies `activity, `running
      ensures (activity, running) == Consumed(old(activity), old(running), updates)
    {
      var k := 0;
      while k < |updates| && running
        invariant k <= |updates|
        invariant Consumed(activity, running, updates[k..]) == Consumed(old(activity), old(running), updates)
      {
        match updates[k] {
          case Progress(a) => activity := a;
          case Ended => running := false;
        }
        k := k + 1;
      }
    }

    /** Run(), after the call to Synchronize(). */
    method EndRun(response: Response, ghost now: int) returns (mayTerminate: bool)
      requires Valid()
      modifies this
      ensures Valid()
      ensures schedulerMayThinkExecutingUntil.None? <==>
        response.DesiredIdle? || (response.NoDesiredState? && !old(activity).Executing?)
      ensures due ==
        DueAfter(old(schedulerMayThinkExecutingUntil), old(due), old(nextSynchronizationAt), old(activity).Executing?,
          response)
      ensures nextSynchronizationAt ==
        if TimeIn(response).Some? then TimeIn(response).value else old(nextSynchronizationAt)
      ensures if TimeIn(response).Some? then Some(asked) == TimeIn(response) && earlier.None?
              else asked == old(asked) && earlier == old(earlier)
      ensures
        response.NoDesiredState? || (response.DesiredExecuting? && response.accepted) ==>
        schedulerMayThinkExecutingUntil.None? || Some(due) == TimeIn(response)
      ensures response.Failed? || response.InvalidTimestamp? || (response.DesiredExecuting? && !response.accepted) ==>
        due == old(
          if schedulerMayThinkExecutingUntil.Some? then due else if earlier.Some? then earlier.value else asked)
      ensures returned == now && (late <==> now > due)
      ensures mayTerminate <==> schedulerMayThinkExecutingUntil.None?
      ensures preferBeingIdle == old(preferBeingIdle)
      ensures (activity, running) == match response {
                case DesiredIdle(_) => (Activity.Idle, false)
                case DesiredExecuting(_, digest, true) => (Activity.Executing(digest), true)
                case _ => old((activity, running))
              }
    {
      var executing := activity.Executing?;
      if schedulerMayThinkExecutingUntil.None? { Touch(); }
      mayTerminate := Follow(response, executing);
      returned, late := now, now > due;
      if TimeIn(response).Some? { asked, earlier := TimeIn(response).value, None; }
    }

    /** The part of Run() that does as the scheduler says, if the call succeeded. */
    method Follow(response: Response, executing: bool) returns (mayTerminate: bool)
      requires schedulerMayThinkExecutingUntil == Some(due + ONE_MINUTE)
      modifies `activity, `running, `schedulerMayThinkExecutingUntil, `due, `nextSynchronizationAt
      ensures schedulerMayThinkExecutingUntil == if mayTerminate then None else Some(due + ONE_MINUTE)
      ensures due == DueAfter(Some(old(due)), old(due), old(nextSynchronizationAt), executing, response)
      ensures mayTerminate <==> TellsIdle(response, executing)
      ensures nextSynchronizationAt ==
        if TimeIn(response).Some? then TimeIn(response).value else old(nextSynchronizationAt)
      ensures (activity, running) == match response {
                case DesiredIdle(_) => (Activity.Idle, false)
                case DesiredExecuting(_, digest, true) => (Activity.Executing(digest), true)
                case _ => old((activity, running))
              }
    {
      mayTerminate := false;
      match response {
        case Failed =>
        case InvalidTimestamp =>
        case DesiredExecuting(t, digest, accepted) =>
          nextSynchronizationAt := t;
          if accepted {
            StopExecution();
            activity, running := Activity.Executing(digest), true;
            Touch();
          }
        case DesiredIdle(t) =>
          nextSynchronizationAt := t;
          StopExecution();
          schedulerMayThinkExecutingUntil := None;
          mayTerminate := true;
        case NoDesiredState(t) =>
          nextSynchronizationAt := t;
          if executing {
            Touch();
          } else {
            schedulerMayThinkExecutingUntil := None;
            mayTerminate := true;
          }
      }
    }

    /** stopExecution() */
    method StopExecution()
      modifies `activity, `running
      ensures activity == Activity.Idle && !running
    {
      activity, running := Activity.Idle, false;
    }
  }

  // ----- Both sides -----

  /** Where the worker is: between two runs, or in a call that the scheduler has yet to receive, is handling, or has
      answered. */
  datatype Phase = Between | Sent | Handled | Answered(reply: Reply) | Terminated(at: int)

  /** What happens to the scheduler on behalf of others. */
  datatype Outside =
    | ClientExecutes(digest: Digest, cacheable: bool, queue: nat, keys: seq<Key>, task: TaskId, operation: Operation)
    | OperationKilled(operation: Operation, verdict: Verdict)
    | OperationAbandoned(operation: Operation)
    | DrainAdded(queue: nat, pattern: Pattern)
    | DrainRemoved(queue: nat, pattern: Pattern)
    | WorkersTerminated(pattern: Pattern)
    | WorkerStale(worker: Worker)
    | QueueAdded(queue: nat)
    | QueueRemoved(queue: nat)
    | OtherSynchronizes(worker: Worker, report: Report, preferBeingIdle: bool, giveUp: bool)
    | OtherResumes(worker: Worker, why: Wake)

  datatype Event =
    | Environment(outside: Outside)
    | WorkerBegins(terminating: bool, now: int, ready: bool, updates: seq<Update>)
    | RequestArrives(verdict: Verdict, giveUp: bool)
    | HandlerResumes(why: Wake)
    | CallReturns(response: Response, terminating: bool, now: int)

  /** Whether something is possible, without worker `w` having a part in it. */
  ghost predicate Possible(s: State, w: Worker, e: Outside) {
    match e
    case ClientExecutes(_, _, q, _, t, o) => t !in s.tasks && o !in s.ops && Root(q) in s.nodes
    case OperationKilled(o, verdict) => o in s.ops && VerdictFits(s, verdict) && !verdict.Retry?
    case OperationAbandoned(o) => o in s.ops
    case WorkerStale(u) => u in s.workers && !s.workers[u].synchronizing
    case QueueRemoved(q) => forall u :: u in s.workers && u.Worker? ==> u.queue != q
    case OtherSynchronizes(u, report, _, _) =>
      && u != w && u.Worker? && Root(u.queue) in s.nodes && (report.Finished? ==> VerdictFits(s, report.verdict))
    case OtherResumes(u, why) =>
      u != w && u in s.workers && s.workers[u].synchronizing && (why.Signaled? ==> !s.workers[u].parked)
    case _ => true
  }

  /** What it does to the tables. */
  ghost predicate Happens(a: State, b: State, w: Worker, e: Outside)
    requires Possible(a, w, e)
  {
    match e
    case ClientExecutes(digest, cacheable, _, _, t, o) =>
      if digest in a.dedup then b.tasks.Keys == a.tasks.Keys && b.workers == a.workers && b.dedup == a.dedup
      else
        && b.tasks.Keys == a.tasks.Keys + {t} && b.ops.Keys == a.ops.Keys + {o} && b.tasks[t].digest == digest
        && !b.tasks[t].completed && b.dedup == if cacheable then a.dedup[digest := t] else a.dedup
    case OperationKilled(o, verdict) =>
      a.ops[o].task in a.tasks && Completes(a, b, a.ops[o].task, false, verdict)
    case OperationAbandoned(o) => b.ops == a.ops - {o} && b.tasks.Keys == a.tasks.Keys
    case DrainAdded(q, pattern) =>
      b.drains == a.drains + {Drain(q, pattern)} && b.tasks == a.tasks && b.workers.Keys == a.workers.Keys
    case DrainRemoved(q, pattern) => b == a.(drains := a.drains - {Drain(q, pattern)})
    case WorkersTerminated(pattern) =>
      && b.tasks == a.tasks && b.drains == a.drains && b.workers.Keys == a.workers.Keys
      && forall u :: u in a.workers ==> b.workers[u].terminating == (a.workers[u].terminating || Matches(u, pattern))
    case WorkerStale(u) => b.workers == a.workers - {u} && b.ops == a.ops
    case QueueAdded(q) => b == a.(nodes := a.nodes + {Root(q)})
    case QueueRemoved(q) => Root(q) !in b.nodes && b.workers == a.workers && b.ops == a.ops
    case OtherSynchronizes(u, report, preferBeingIdle, giveUp) =>
      exists r :: Received(a, b, u, report, preferBeingIdle, giveUp, r)
    case OtherResumes(u, why) => exists r :: Resumed(a, b, u, why, r)
  }

  /** Events that are not possible have no effect. What worker `w` has no part in does not give it a task or a call, and
      neither are tasks that were completed taken up again, nor are any given to workers that are drained or
      terminating. */
  ghost predicate Steps(a: State, b: State, w: Worker, e: Outside) {
    && (if Possible(a, w, e) then Happens(a, b, w, e) else b == a)
    && (IsQuiet(a.workers, w) ==> IsQuiet(b.workers, w)) && CompletedStay(a.tasks, b.tasks)
    && NewlyEligible(a.workers, b.workers, b.drains)
  }

  /** A step of the scheduler that worker `w` has no part in. */
  method OutsideStep(bq: BuildQueue, w: Worker, e: Outside)
    requires bq.Valid()
    modifies bq, bq.forest
    ensures bq.Valid() && Steps(old(bq.Now()), bq.Now(), w, e)
  {
    if e.ClientExecutes? || e.OperationKilled? || e.OperationAbandoned? {
      ClientStep(bq, w, e);
      return;
    }
    if e.WorkerStale? || e.OtherSynchronizes? || e.OtherResumes? {
      OtherWorkerStep(bq, w, e);
      return;
    }
    match e {
      case DrainAdded(q, pattern) => bq.AddDrain(q, pattern);
      case DrainRemoved(q, pattern) => bq.RemoveDrain(q, pattern);
      case WorkersTerminated(pattern) => bq.TerminateWorkers(pattern);
      case QueueAdded(q) => bq.AddQueue(q);
      case QueueRemoved(q) =>
        if forall u :: u in bq.workers && u.Worker? ==> u.queue != q { bq.RemoveQueue(q); }
    }
  }

  method ClientStep(bq: BuildQueue, w: Worker, e: Outside)
    requires bq.Valid() && (e.ClientExecutes? || e.OperationKilled? || e.OperationAbandoned?)
    modifies bq, bq.forest
    ensures bq.Valid() && Steps(old(bq.Now()), bq.Now(), w, e)
  {
    match e {
      case ClientExecutes(digest, cacheable, q, keys, t, o) =>
        if t !in bq.tasks && o !in bq.ops && Root(q) in bq.forest.nodes {
          var r := bq.Execute(digest, cacheable, q, keys, t, o);
        }
      case OperationKilled(o, verdict) =>
        if o in bq.ops && bq.VerdictOk(verdict) && !verdict.Retry? { bq.KillOperation(o, verdict); }
      case OperationAbandoned(o) =>
        if o in bq.ops { bq.RemoveOperation(o); }
    }
  }

  method OtherWorkerStep(bq: BuildQueue, w: Worker, e: Outside)
    requires bq.Valid() && (e.WorkerStale? || e.OtherSynchronizes? || e.OtherResumes?)
    modifies bq, bq.forest
    ensures bq.Valid() && Steps(old(bq.Now()), bq.Now(), w, e)
  {
    match e {
      case WorkerStale(u) =>
        if u in bq.workers && !bq.workers[u].synchronizing { bq.RemoveStaleWorker(u); }
      case OtherSynchronizes(u, report, preferBeingIdle, giveUp) =>
        var ok := report.Finished? ==> bq.VerdictOk(report.verdict);
        if ok && u != w && u.Worker? && Root(u.queue) in bq.forest.nodes {
          var r := bq.Synchronize(u, report, preferBeingIdle, giveUp);
          assert Received(old(bq.Now()), bq.Now(), u, report, preferBeingIdle, giveUp, r);
        }
      case OtherResumes(u, why) =>
        if u != w && u in bq.workers && bq.workers[u].synchronizing && (why.Signaled? ==> !bq.workers[u].parked) {
          var r := bq.Resume(u, why);
          assert Resumed(old(bq.Now()), bq.Now(), u, why, r);
        }
    }
  }

  /** The response that a reply turns into, unless the call fails. */
  predicate Delivers(reply: Reply, response: Response) {
    match response
    case Failed => true
    case InvalidTimestamp => true
    case DesiredExecuting(_, _, _) => reply.Execute?
    case DesiredIdle(_) => reply.GoIdle?
    case NoDesiredState(_) => reply.Continue?
  }

  /** What ties the two sides together. */
  ghost predicate Agreed(bq: BuildQueue, client: Client, w: Worker, phase: Phase)
    reads bq`workers, client
  {
    && (phase.Between? && client.schedulerMayThinkExecutingUntil.None? ==> bq.Quiet(w))
    && (phase.Answered? && phase.reply.GoIdle? ==> bq.Quiet(w))
    && (phase.Answered? && phase.reply.Continue? ==> client.activity.Executing?)
    && (phase.Terminated? ==>
          || bq.Quiet(w)
          || (phase.at > client.due + ONE_MINUTE && (!client.late ==> phase.at > client.returned + ONE_MINUTE)))
    && client.Valid()
  }

  /** A call may fail at any time; once the scheduler has replied, it may also return that. */
  predicate MayReturn(phase: Phase, response: Response) {
    match phase
    case Answered(reply) => Delivers(reply, response)
    case Sent => response.Failed?
    case Handled => response.Failed?
    case _ => false
  }

  /** The state of the worker, as it is reported to the scheduler. */
  function ReportOf(activity: Activity, verdict: Verdict): (r: Report)
    ensures (r.Idle? <==> activity.Idle?) && (r.Finished? <==> activity.Completed?)
    ensures (!r.Idle? ==> r.digest == activity.digest) && (r.Finished? ==> r.verdict == verdict)
  {
    match activity
    case Idle => Report.Idle
    case Executing(d) => Report.Executing(d)
    case Completed(d, _) => Report.Finished(d, verdict)
  }

  ghost function WithQueue(s: State, q: nat): State { s.(nodes := s.nodes + {Root(q)}) }

  /** Where the worker is once the scheduler has replied, or decided to wait. */
  function PhaseOf(r: Reply): Phase { if r.Park? || r.AwaitUndrain? then Handled else Answered(r) }

  /** The scheduler has received the report of worker `w`. If what the learner asks for is not possible, it is taken to
      ask for nothing. */
  ghost predicate Reported(
    a: State, b: State, w: Worker, activity: Activity, preferBeingIdle: bool, verdict: Verdict, giveUp: bool, r: Reply)
    requires w.Worker?
  {
    var s := WithQueue(a, w.queue);
    var report := ReportOf(activity, if VerdictFits(s, verdict) then verdict else Done);
    && Received(s, b, w, report, preferBeingIdle, giveUp, r)
    && (!r.Refuse? ==> Told(s, w, report, preferBeingIdle, giveUp, r))
  }

  method SendReport(
    bq: BuildQueue, w: Worker, activity: Activity, preferBeingIdle: bool, verdict: Verdict, giveUp: bool)
    returns (r: Reply)
    requires bq.Valid() && w.Worker?
    modifies bq, bq.forest
    ensures bq.Valid() && bq.Answered(w, r) && CompletedStay(old(bq.tasks), bq.tasks)
    ensures OnlyEligible(old(bq.workers), bq.workers, bq.drains)
    ensures Reported(old(bq.Now()), bq.Now(), w, activity, preferBeingIdle, verdict, giveUp, r)
  {
    if Root(w.queue) !in bq.forest.nodes { bq.AddQueue(w.queue); }
    assert bq.Now() == WithQueue(old(bq.Now()), w.queue);
    var report := ReportOf(activity, if bq.VerdictOk(verdict) then verdict else Done);
    r := bq.Synchronize(w, report, preferBeingIdle, giveUp);
  }

  method ReceiveRequest(bq: BuildQueue, client: Client, w: Worker, verdict: Verdict, giveUp: bool)
    returns (phase: Phase, ghost r: Reply)
    requires bq.Valid() && w.Worker? && client.Valid()
    modifies bq, bq.forest
    ensures bq.Valid() && Agreed(bq, client, w, phase) && w in bq.workers && CompletedStay(old(bq.tasks), bq.tasks)
    ensures OnlyEligible(old(bq.workers), bq.workers, bq.drains)
    ensures phase.Answered? || (phase.Handled? && bq.workers[w].synchronizing)
    ensures phase == PhaseOf(r)
    ensures
      Reported(old(bq.Now()), bq.Now(), w, client.activity, client.preferBeingIdle, verdict, giveUp, r)
  {
    var reply := SendReport(bq, w, client.activity, client.preferBeingIdle, verdict, giveUp);
    bq.NotParkedYet(w);
    phase, r := PhaseOf(reply), reply;
  }

  method ResumeHandler(bq: BuildQueue, client: Client, w: Worker, before: Phase, why: Wake)
    returns (phase: Phase, ghost r: Reply)
    requires bq.Valid() && w in bq.workers && bq.workers[w].synchronizing && (why.Signaled? ==> !bq.workers[w].parked)
    requires Agreed(bq, client, w, before)
    modifies bq, bq.forest
    ensures bq.Valid() && Agreed(bq, client, w, phase) && CompletedStay(old(bq.tasks), bq.tasks)
    ensures OnlyEligible(old(bq.workers), bq.workers, bq.drains)
    ensures Resumed(old(bq.Now()), bq.Now(), w, why, r)
    ensures phase == if before.Handled? && !r.Park? && !r.AwaitUndrain? then Answered(r) else before
  {
    var reply := bq.Resume(w, why);
    // If the call that this handler belongs to has failed already, nobody gets to see the reply.
    phase := if before.Handled? && !reply.Park? && !reply.AwaitUndrain? then Answered(reply) else before;
    r := reply;
  }

  ghost function ClientDue(client: Client, response: Response): int
    reads client
  {
    DueAfter(
      client.schedulerMayThinkExecutingUntil, client.due, client.nextSynchronizationAt,
      client.activity.Executing?, response)
  }

  method ReturnFromCall(
    bq: BuildQueue, client: Client, w: Worker, before: Phase, response: Response, terminating: bool, now: int)
    returns (phase: Phase)
    requires Agreed(bq, client, w, before)
    requires MayReturn(before, response)
    modifies client
    ensures Agreed(bq, client, w, phase)
    ensures client.schedulerMayThinkExecutingUntil.None? <==> TellsIdle(response, old(client.activity).Executing?)
    ensures client.due == old(ClientDue(client, response)) && client.returned == now
    ensures client.asked == if TimeIn(response).Some? then TimeIn(response).value else old(client.asked)
    ensures (client.late <==> now > client.due)
    ensures phase == if client.schedulerMayThinkExecutingUntil.None? && terminating then Terminated(now) else Between
  {
    var mayTerminate := client.EndRun(response, now);
    phase := if mayTerminate && terminating then Terminated(now) else Between;
  }

  /** When an event takes place, as far as it matters. */
  function TimeOf(e: Event): Option<int> {
    match e
    case WorkerBegins(_, now, _, _) => Some(now)
    case CallReturns(_, _, now) => Some(now)
    case _ => None
  }

  /** The time that the last response to carry one did. */
  ghost function LastAsked(received: seq<Response>, start: int): int {
    if received == [] then start
    else
      var last := received[|received| - 1];
      if TimeIn(last).Some? then TimeIn(last).value else LastAsked(received[..|received| - 1], start)
  }

  /** In every run of the scheduler and of a worker that it has not seen, with calls that may fail at any point:
      whenever the worker is between two calls and does not assume to be executing, the scheduler has no task for it. So
      the worker terminates without one, unless over a minute has passed since it was due to synchronize; and also since
      its last call returned, unless that was after it was due. When it is due derives from what it received last. And
      tasks that are completed stay so. Time does not go backwards: events from before are skipped. */
  method Drive(bq: BuildQueue, client: Client, w: Worker, events: seq<Event>, start: int)
    returns (phase: Phase, clock: int, ghost received: seq<Response>)
    requires bq.Valid() && w.Worker? && w !in bq.workers && client.Valid()
    requires client.schedulerMayThinkExecutingUntil.None? && client.returned <= start
    modifies bq, bq.forest, client
    ensures bq.Valid() && Agreed(bq, client, w, phase) && CompletedStay(old(bq.tasks), bq.tasks)
    ensures client.returned <= clock && (phase.Terminated? ==> client.returned <= phase.at <= clock)
    ensures client.asked == LastAsked(received, old(client.asked))
    ensures client.nextSynchronizationAt == if client.earlier.Some? then client.earlier.value else client.asked
  {
    phase, clock, received := Between, start, [];
    var k := 0;
    while k < |events|
      invariant bq.Valid() && Agreed(bq, client, w, phase) && CompletedStay(old(bq.tasks), bq.tasks)
      invariant client.returned <= clock && (phase.Terminated? ==> client.returned <= phase.at <= clock)
      invariant client.asked == LastAsked(received, old(client.asked))
      invariant k <= |events|
    {
      var time := TimeOf(events[k]);
      if time.None? || clock <= time.value {
        if events[k].CallReturns? && MayReturn(phase, events[k].response) {
          received := received + [events[k].response];
          assert received[..|received| - 1] + [events[k].response] == received;
        }
        phase := Step(bq, client, w, phase, events[k]);
        clock := if time.Some? then time.value else clock;
      }
      k := k + 1;
    }
  }

  /** Whether an event may happen. */
  ghost predicate Enabled(s: State, w: Worker, phase: Phase, e: Event) {
    match e
    case Environment(outside) => Possible(s, w, outside)
    case WorkerBegins(_, _, _, _) => phase.Between?
    case RequestArrives(_, _) => phase.Sent?
    case HandlerResumes(why) =>
      w in s.workers && s.workers[w].synchronizing && (why.Signaled? ==> !s.workers[w].parked)
    case CallReturns(response, _, _) => MayReturn(phase, response)
  }

  method Step(bq: BuildQueue, client: Client, w: Worker, before: Phase, e: Event) returns (phase: Phase)
    requires bq.Valid() && w.Worker? && Agreed(bq, client, w, before)
    modifies bq, bq.forest, client
    ensures bq.Valid() && Agreed(bq, client, w, phase) && CompletedStay(old(bq.tasks), bq.tasks)
    ensures client.returned == old(client.returned) || (e.CallReturns? && client.returned == e.now)
    ensures phase.Terminated? ==>
      (phase == before && client.returned == old(client.returned)) || (TimeOf(e) == Some(phase.at))
    ensures NewlyEligible(old(bq.workers), bq.workers, bq.drains)
    ensures !old(Enabled(bq.Now(), w, before, e)) ==> phase == before && bq.Now() == old(bq.Now())
    ensures !e.WorkerBegins? && !e.CallReturns? ==> unchanged(client)
    ensures e.WorkerBegins? || e.CallReturns? ==> bq.Now() == old(bq.Now())
    ensures client.asked ==
      if e.CallReturns? && MayReturn(before, e.response) && TimeIn(e.response).Some? then TimeIn(e.response).value
      else old(client.asked)
    ensures old(Enabled(bq.Now(), w, before, e)) ==>
      match e {
        case Environment(outside) => phase == before && Happens(old(bq.Now()), bq.Now(), w, outside)
        case WorkerBegins(terminating, now, ready, updates) =>
          phase == if !MayGo(old(client.schedulerMayThinkExecutingUntil), terminating, now, ready) then Sent
                   else if terminating then Terminated(now) else Between
        case RequestArrives(verdict, giveUp) =>
          && w in bq.workers
          && exists r :: phase == PhaseOf(r) &&
               Reported(old(bq.Now()), bq.Now(), w, client.activity, client.preferBeingIdle, verdict, giveUp, r)
        case HandlerResumes(why) =>
          exists r :: Resumed(old(bq.Now()), bq.Now(), w, why, r) &&
            phase == if before.Handled? && !r.Park? && !r.AwaitUndrain? then Answered(r) else before
        case CallReturns(response, terminating, now) =>
          && client.due == old(ClientDue(client, response)) && client.returned == now
          && phase == if client.schedulerMayThinkExecutingUntil.None? && terminating then Terminated(now) else Between
      }
  {
    phase := before;
    match e {
      case Environment(outside) =>
        OutsideStep(bq, w, outside);
      case WorkerBegins(terminating, now, ready, updates) =>
        if before.Between? {
          var mayTerminate := client.BeginRun(terminating, now, ready, updates);
          phase := if !mayTerminate then Sent else if terminating then Terminated(now) else Between;
        }
      case RequestArrives(verdict, giveUp) =>
        if before.Sent? {
          ghost var r;
          phase, r := ReceiveRequest(bq, client, w, verdict, giveUp);
        }
      case HandlerResumes(why) =>
        if w in bq.workers && bq.workers[w].synchronizing && (why.Signaled? ==> !bq.workers[w].parked) {
          ghost var r;
          phase, r := ResumeHandler(bq, client, w, before, why);
        }
      case CallReturns(response, terminating, now) =>
        if MayReturn(before, response) {
          phase := ReturnFromCall(bq, client, w, before, response, terminating, now);
        }
    }
  }

  // ----- Abandoning a task too early -----

  /** A worker is parked, and then given a task. */
  method ParkedAndAssigned(w: Worker, digest: Digest, t: TaskId, o: Operation) returns (bq: BuildQueue)
    requires w.Worker?
    ensures fresh(bq) && fresh(bq.forest) && bq.Valid() && w in bq.workers && bq.workers[w].task == Some(t)
    ensures bq.workers[w].synchronizing && !bq.workers[w].parked
  {
    bq := new BuildQueue();
    bq.AddQueue(w.queue);
    label Known:
    var r := bq.Synchronize(w, Report.Idle, false, false);
    assert r.Park?;
    OpenResponds(Joined(old@Known(bq.Now()), w), bq.Now(), w, Report.Idle, false, false, r);
    bq.NotParkedYet(w);
    bq.AddQueue(w.queue);
    label Parked:
    assert bq.workers.Keys == {w};
    var p := bq.Execute(digest, false, w.queue, [], t, o);
    OnlyOneParked(
      t, bq.tasks[t], w, bq.ops[p].invocation, old@Parked(bq.workers), bq.workers, bq.forest.queuedAt, bq.drains);
  }

  /** That a minute passes between the end of a call and the task being abandoned holds unless the call returned after
      the worker was due. For all such times there is a run in which it does not: an idle worker is parked, is given a
      task, and the call fails before it can tell; it then terminates within a minute. */
  method AbandonsEarly(w: Worker, digest: Digest, t: TaskId, o: Operation, due: int, returned: int)
    returns (bq: BuildQueue, client: Client, at: int, mayTerminate: bool)
    requires w.Worker? && returned > due
    ensures bq.Valid() && client.Valid() && mayTerminate && w in bq.workers && bq.workers[w].task == Some(t)
    ensures client.due == due && client.returned == returned && client.late && returned <= at <= returned + ONE_MINUTE
  {
    client := new Client(due);
    mayTerminate := client.BeginRun(false, due, true, []);
    assert !mayTerminate && !client.preferBeingIdle;
    bq := ParkedAndAssigned(w, digest, t, o);
    var r := bq.Resume(w, Signaled);
    mayTerminate := client.EndRun(Failed, returned);
    at := if returned > due + ONE_MINUTE then returned else due + ONE_MINUTE + 1;
    mayTerminate := client.BeginRun(true, at, true, []);
  }
}
