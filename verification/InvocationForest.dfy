/**
 pkg/scheduler/in_memory_build_queue.go: the invocations of all size class queues, with the
 operations and workers they keep track of.
 */
module InvocationForest {
  import opened Common
  import opened InvocationTree
  import opened InvocationPresence
  import opened InvocationCounts

  // ----- Which invocations exist -----

  /** isActive() || idleWorkersCount > 0, negated. */
  predicate IsEmpty(exec: Exec, idle: map<Invocation, nat>, queued: Presence<Operation>, n: Invocation) {
    !queued.Present(n) && ExecOf(exec, n) == map[] && IdleAt(idle, n) == 0
  }

  function Above(m: Invocation): (s: set<Invocation>)
    ensures forall n :: n in s <==> Under(m, n)
  {
    if m.Root? then {m} else {m} + Above(m.parent)
  }

  ghost function AboveAll(s: set<Invocation>): set<Invocation> { set m, n | m in s && n in Above(m) :: n }

  /** An invocation other than a root exists only while it is non-empty (or listed as `loose`), and its parent exists;
      and everything that is non-empty exists. */
  ghost predicate Tidy(
    nodes: set<Invocation>, exec: Exec, idle: map<Invocation, nat>, queued: Presence<Operation>, loose: set<Invocation>)
  {
    && (forall n :: n in nodes && n.Child? ==> n.parent in nodes)
    && (forall n :: n in nodes && n.Child? && n !in loose ==> !IsEmpty(exec, idle, queued, n))
    && (forall n :: !IsEmpty(exec, idle, queued, n) ==> n in nodes)
  }

  lemma {:induction false} NodesAbove(nodes: set<Invocation>, m: Invocation, n: Invocation)
    requires m in nodes && Under(m, n) && forall k :: k in nodes && k.Child? ==> k.parent in nodes
    ensures n in nodes
  {
    if m != n { NodesAbove(nodes, m.parent, n); }
  }

  /** Counters of worker `w` are off by `d` in the invocations containing `i`; those below `i` are in order. */
  lemma {:induction false} ExecGrows(
    exec: Exec, runs: map<Worker, set<Invocation>>, w: Worker, i: Option<Invocation>, d: int, c: Invocation)
    requires c.Child? && ExecBut(exec, runs, w, i, d) && (i.Some? ==> !Under(i.value, c.parent))
    requires ExecOf(exec, c) != map[]
    ensures ExecOf(exec, c.parent) != map[]
  {
    var u :| u in ExecOf(exec, c);
    CountParent(Runs(runs, u), c);
    if i.Some? && Under(i.value, c) { UnderTransitive(i.value, c, c.parent); }
    assert ExecAt(exec, c, u) <= ExecAt(exec, c.parent, u);
  }

  lemma {:induction false} IdleGrows(
    idle: map<Invocation, nat>, last: map<Worker, Invocation>, i: Option<Invocation>, d: int, c: Invocation)
    requires c.Child? && IdleBut(idle, last, i, d) && (i.Some? ==> !Under(i.value, c.parent))
    ensures IdleAt(idle, c) <= IdleAt(idle, c.parent)
  {
    LastParent(last, c);
    if i.Some? && Under(i.value, c) { UnderTransitive(i.value, c, c.parent); }
  }

  lemma {:induction false} QueuedGrows(queued: Presence<Operation>, queuedAt: map<Operation, Invocation>, c: Invocation)
    requires c.Child? && Valid(queued, queuedAt) && queued.Present(c)
    ensures queued.Present(c.parent)
  {
    PresentAbove(queued, c, c.parent);
  }

  /** Removing an empty invocation leaves no children behind. */
  lemma {:induction false} Removed(
    nodes: set<Invocation>, exec: Exec, idle: map<Invocation, nat>, queued: Presence<Operation>, loose: set<Invocation>,
    i: Invocation)
    requires i.Child? && Tidy(nodes, exec, idle, queued, loose) && IsEmpty(exec, idle, queued, i)
    requires forall c :: c in loose && c.Child? ==> c.parent != i
    requires forall c: Invocation :: c.Child? && c.parent == i ==> IsEmpty(exec, idle, queued, c)
    ensures Tidy(nodes - {i}, exec, idle, queued, loose - {i})
  {
  }

  datatype Snapshot = Snapshot(
    nodes: set<Invocation>, exec: Exec, idle: map<Invocation, nat>, queued: Presence<Operation>,
    parked: Presence<Worker>,
    runs: map<Worker, set<Invocation>>, last: map<Worker, Invocation>,
    queuedAt: map<Operation, Invocation>, parkedAt: map<Worker, Invocation>)

  /** All counters, heaps and lists are in order. (The layers are there for the verifier, which is to look at the
      definition only where it is opened.) */
  ghost predicate Sealed(v: Snapshot, loose: set<Invocation>, layers: nat := 3)
    decreases v, layers
  {
    if layers > 0 then Sealed(v, loose, layers - 1)
    else
      && ExecOk(v.exec, v.runs) && IdleOk(v.idle, v.last)
      && Valid(v.queued, v.queuedAt) && Valid(v.parked, v.parkedAt)
      && Tidy(v.nodes, v.exec, v.idle, v.queued, loose)
  }

  class Forest {
    var nodes: set<Invocation>
    var exec: Exec
    var idle: map<Invocation, nat>
    var queued: Presence<Operation>
    var parked: Presence<Worker>

    ghost var runs: map<Worker, set<Invocation>>        // where the operations of a worker's current task are
    ghost var last: map<Worker, Invocation>             // worker.lastInvocation
    ghost var queuedAt: map<Operation, Invocation>      // where queued operations are
    ghost var parkedAt: map<Worker, Invocation>         // where workers are parked

    ghost function View(): Snapshot
      reads this
    {
      Snapshot(nodes, exec, idle, queued, parked, runs, last, queuedAt, parkedAt)
    }

    ghost predicate Ok(loose: set<Invocation>)
      reads this
    {
      Sealed(View(), loose)
    }

    ghost predicate Opened(loose: set<Invocation>)
      reads this
    {
      && ExecOk(exec, runs) && IdleOk(idle, last)
      && Valid(queued, queuedAt) && Valid(parked, parkedAt)
      && Tidy(nodes, exec, idle, queued, loose)
    }

    lemma {:induction false} Open(loose: set<Invocation>)
      ensures Ok(loose) <==> Opened(loose)
    {
      var v := View();
      assert Sealed(v, loose) == Sealed(v, loose, 2);
      assert Sealed(v, loose, 2) == Sealed(v, loose, 1);
      assert Sealed(v, loose, 1) == Sealed(v, loose, 0);
    }

    constructor ()
      ensures Ok({}) && nodes == {} && runs == map[] && last == map[] && queuedAt == map[] && parkedAt == map[]
    {
      nodes, exec, idle, queued, parked := {}, map[], map[], Empty(), Empty();
      runs, last, queuedAt, parkedAt := map[], map[], map[], map[];
      new;
      forall n ensures Below({}, n) == {} && LastBelow(map[], n) == {} {}
      Open({});
    }

    /** incrementExecutingWorkersCount() */
    method Increment(m: Invocation, w: Worker, ghost loose: set<Invocation>)
      requires Ok(loose) && m in nodes && m !in Runs(runs, w)
      modifies `exec, `queued, `parked, `runs
      ensures Ok(loose - Above(m)) && runs == old(runs)[w := Runs(old(runs), w) + {m}]
    {
      Open(loose);
      ExecStartAdd(exec, runs, w, m);
      runs := runs[w := Runs(runs, w) + {m}];
      IncrementLoop(m, w);
      Incremented(nodes, old(exec), exec, idle, old(queued), queued, old(runs), w, m, loose);
      Open(loose - Above(m));
    }

    method IncrementLoop(m: Invocation, w: Worker)
      requires ExecBut(exec, runs, w, Some(m), -1) && Valid(queued, queuedAt) && Valid(parked, parkedAt)
      modifies `exec, `queued, `parked
      ensures ExecOk(exec, runs) && Valid(queued, queuedAt) && Valid(parked, parkedAt)
      ensures SamePresence(old(queued), queued)
    {
      var i := m;
      IncrementAt(i, w);
      while i.Child?
        invariant ExecBut(exec, runs, w, Up(i), -1)
        invariant Valid(queued, queuedAt) && Valid(parked, parkedAt) && SamePresence(old(queued), queued)
        decreases i
      {
        FixHeaps(i);
        i := i.parent;
        IncrementAt(i, w);
      }
      ExecDone(exec, runs, w, -1);
    }

    method IncrementAt(i: Invocation, w: Worker)
      requires ExecBut(exec, runs, w, Some(i), -1)
      modifies `exec
      ensures ExecBut(exec, runs, w, Up(i), -1)
    {
      ExecLevel(exec, runs, w, i, -1);
      exec := SetExec(exec, i, w, ExecAt(exec, i, w) + 1);
    }

    /** Counters have yet to be decremented: those for `w` from `e` up, and those of idle workers from `l` up. */
    ghost predicate OkBut(w: Worker, e: Option<Invocation>, l: Option<Invocation>, loose: set<Invocation>)
      reads this
    {
      && ExecBut(exec, runs, w, e, 1) && IdleBut(idle, last, l, 1)
      && Valid(queued, queuedAt) && Valid(parked, parkedAt)
      && Tidy(nodes, exec, idle, queued, loose)
    }

    lemma {:induction false} OkButNone(w: Worker, loose: set<Invocation>)
      ensures OkBut(w, None, None, loose) <==> Opened(loose)
    {
      ExecDone(exec, runs, w, 1);
      IdleDone(idle, last, 1);
    }

    /** removeIfEmpty() */
    method RemoveIfEmpty(i: Invocation, ghost w: Worker, ghost e: Option<Invocation>, ghost l: Option<Invocation>)
      returns (removed: bool)
      requires OkBut(w, e, l, {i}) && (e.Some? ==> Up(i) == e) && (l.Some? ==> Up(i) == l) && i in nodes
      modifies `nodes
      ensures removed == (i.Child? && IsEmpty(exec, idle, queued, i))
      ensures nodes == if removed then old(nodes) - {i} else old(nodes)
      ensures OkBut(w, e, l, {})
    {
      removed := false;
      if i.Child? && IsEmpty(exec, idle, queued, i) {
        NotUnderItself(i);
        forall c: Invocation | c.Child? && c.parent == i ensures IsEmpty(exec, idle, queued, c) {
          EmptyBelow(exec, idle, queued, runs, last, queuedAt, w, e, l, c);
        }
        Removed(nodes, exec, idle, queued, {i}, i);
        nodes := nodes - {i};
        removed := true;
      }
    }

    /** decrementExecutingWorkersCount() */
    method Decrement(m: Invocation, w: Worker)
      requires Ok({}) && m in Runs(runs, w)
      modifies `nodes, `exec, `queued, `parked, `runs
      ensures Ok({}) && runs == old(runs)[w := Runs(old(runs), w) - {m}]
      ensures nodes <= old(nodes) && forall n :: n in old(nodes) && n.Root? ==> n in nodes
    {
      Open({});
      ExecStart(exec, runs, w, m);
      runs := runs[w := Runs(runs, w) - {m}];
      IdleDone(idle, last, 1);
      var i := m;
      DecrementAt(i, w);
      while i.Child?
        invariant OkBut(w, Up(i), None, {}) && runs == old(runs)[w := Runs(old(runs), w) - {m}]
        invariant nodes <= old(nodes) && forall n :: n in old(nodes) && n.Root? ==> n in nodes
        decreases i
      {
        i := i.parent;
        DecrementAt(i, w);
      }
      OkButNone(w, {});
      Open({});
    }

    method DecrementAt(i: Invocation, w: Worker)
      requires OkBut(w, Some(i), None, {})
      modifies `nodes, `exec, `queued, `parked
      ensures OkBut(w, Up(i), None, {})
      ensures nodes <= old(nodes) && forall n :: n in old(nodes) && n.Root? ==> n in nodes
    {
      LowerExec(i, w);
      if i.Child? {
        FixHeaps(i);
        Refixed(nodes, exec, idle, old(queued), queued, {i});
        var removed := RemoveIfEmpty(i, w, Some(i.parent), None);
      }
    }

    method LowerExec(i: Invocation, w: Worker)
      requires OkBut(w, Some(i), None, {})
      modifies `exec
      ensures OkBut(w, Up(i), None, if i.Child? then {i} else {}) && i in nodes
    {
      // The "Executing workers count invalid" panic.
      ExecPending(exec, runs, w, i);
      assert ExecAt(exec, i, w) > 0;
      ExecLevel(exec, runs, w, i, 1);
      Decremented(nodes, exec, idle, queued, i, w);
      exec := SetExec(exec, i, w, ExecAt(exec, i, w) - 1);
    }

    /** setLastInvocation(), and what Synchronize() does for a worker it has not seen before. */
    method SetLast(w: Worker, n: Invocation, ghost loose: set<Invocation>)
      requires Ok(loose) && n in nodes && w !in last
      modifies `idle, `last
      ensures Ok(loose - Above(n)) && last == old(last)[w := n]
    {
      Open(loose);
      IdleStart(idle, last, w, n);
      last := last[w := n];
      SetLastLoop(n);
      LastSet(nodes, exec, old(idle), idle, queued, old(last), w, n, loose);
      Open(loose - Above(n));
    }

    method SetLastLoop(n: Invocation)
      requires IdleBut(idle, last, Some(n), -1)
      modifies `idle
      ensures IdleOk(idle, last)
    {
      var i := n;
      RaiseIdle(i);
      while i.Child?
        invariant IdleBut(idle, last, Up(i), -1)
        decreases i
      {
        i := i.parent;
        RaiseIdle(i);
      }
      IdleDone(idle, last, -1);
    }

    method RaiseIdle(i: Invocation)
      requires IdleBut(idle, last, Some(i), -1)
      modifies `idle
      ensures IdleBut(idle, last, Up(i), -1)
    {
      IdleLevel(idle, last, i, -1);
      idle := idle[i := IdleAt(idle, i) + 1];
    }

    /** clearLastInvocation() of a worker that has a last invocation. */
    method ClearLast(w: Worker, n: Invocation)
      requires Ok({}) && w in last && last[w] == n
      modifies `nodes, `idle, `last
      ensures Ok({}) && last == old(last) - {w}
      ensures nodes <= old(nodes) && forall n :: n in old(nodes) && n.Root? ==> n in nodes
    {
      Open({});
      IdleStart(idle, last, w, n);
      last := last - {w};
      ExecDone(exec, runs, w, 1);
      var i := n;
      ClearAt(i, w);
      while i.Child?
        invariant OkBut(w, None, Up(i), {}) && last == old(last) - {w}
        invariant nodes <= old(nodes) && forall n :: n in old(nodes) && n.Root? ==> n in nodes
        decreases i
      {
        i := i.parent;
        ClearAt(i, w);
      }
      OkButNone(w, {});
      Open({});
    }

    method ClearAt(i: Invocation, ghost w: Worker)
      requires OkBut(w, None, Some(i), {})
      modifies `nodes, `idle
      ensures OkBut(w, None, Up(i), {})
      ensures nodes <= old(nodes) && forall n :: n in old(nodes) && n.Root? ==> n in nodes
    {
      LowerIdle(i, w);
      var removed := RemoveIfEmpty(i, w, None, Up(i));
    }

    method LowerIdle(i: Invocation, ghost w: Worker)
      requires OkBut(w, None, Some(i), {})
      modifies `idle
      ensures OkBut(w, None, Up(i), {i}) && i in nodes
    {
      // The "Invalid workers count" panic.
      assert IdleAt(idle, i) > 0;
      IdleLevel(idle, last, i, 1);
      IdleLowered(nodes, exec, idle, queued, i);
      idle := idle[i := IdleAt(idle, i) - 1];
    }

    /** operation.enqueue() */
    method Enqueue(o: Operation, n: Invocation, ghost loose: set<Invocation>)
      requires Ok(loose) && n in nodes && o !in queuedAt
      modifies `queued, `queuedAt
      ensures Ok(loose - Above(n)) && queuedAt == old(queuedAt)[o := n]
    {
      Open(loose);
      queued := Add(queued, o, n, queuedAt);
      queuedAt := queuedAt[o := n];
      Enqueued(nodes, exec, idle, old(queued), queued, old(queuedAt), o, n, loose);
      Open(loose - Above(n));
    }

    /** operation.removeQueuedFromInvocation() */
    method Unqueue(o: Operation, n: Invocation)
      requires Ok({}) && o in queuedAt && queuedAt[o] == n
      modifies `queued, `queuedAt
      ensures Ok(Above(n)) && queuedAt == old(queuedAt) - {o}
      ensures (exists u :: n in Runs(runs, u)) ==> Ok({})
    {
      Open({});
      queued := Take(queued, o, queuedAt, n);
      queuedAt := queuedAt - {o};
      Unqueued(nodes, exec, idle, old(queued), queued, old(queuedAt), o, n);
      if u :| n in Runs(runs, u) {
        StillRunning(nodes, exec, idle, queued, runs, u, n);
      }
      Open(Above(n));
      Open({});
    }

    /** removeQueuedFromInvocation() and the loop that operation.remove() has after it. */
    method UnqueueAndRemove(o: Operation, n: Invocation)
      requires Ok({}) && o in queuedAt && queuedAt[o] == n
      modifies `nodes, `queued, `queuedAt
      ensures Ok({}) && queuedAt == old(queuedAt) - {o}
      ensures nodes <= old(nodes) && forall n :: n in old(nodes) && n.Root? ==> n in nodes
    {
      assert n in nodes by {
        Open({});
        PresentIff(queued, queuedAt, n);
        assert !IsEmpty(exec, idle, queued, n);
      }
      Unqueue(o, n);
      var i := n;
      var removed := RemoveLevel(i);
      while removed
        invariant removed ==> i.Child? && i.parent in nodes && Ok(Above(i.parent))
        invariant !removed ==> Ok({})
        invariant queuedAt == old(queuedAt) - {o}
        invariant nodes <= old(nodes) && forall n :: n in old(nodes) && n.Root? ==> n in nodes
        decreases i, removed
      {
        i := i.parent;
        removed := RemoveLevel(i);
      }
    }

    method RemoveLevel(i: Invocation) returns (removed: bool)
      requires Ok(Above(i)) && i in nodes
      modifies `nodes
      ensures removed ==> i.Child? && i.parent in nodes && Ok(Above(i.parent))
      ensures !removed ==> Ok({})
      ensures nodes <= old(nodes) && forall n :: n in old(nodes) && n.Root? ==> n in nodes
    {
      Open(Above(i));
      removed := i.Child? && IsEmpty(exec, idle, queued, i);
      if removed {
        ExecDone(exec, runs, Temporary, 1);
        IdleDone(idle, last, 1);
        forall c: Invocation | c.Child? && c.parent == i ensures IsEmpty(exec, idle, queued, c) {
          EmptyBelow(exec, idle, queued, runs, last, queuedAt, Temporary, None, None, c);
        }
        NotBelow(i);
        Removed(nodes, exec, idle, queued, Above(i), i);
        nodes := nodes - {i};
        assert Above(i) - {i} == Above(i.parent) by { NotUnderItself(i); }
        Open(Above(i.parent));
      } else {
        forall n | n in Above(i) && n in nodes && n.Child? ensures !IsEmpty(exec, idle, queued, n) {
          NonEmptyAbove(exec, idle, queued, runs, last, queuedAt, i, n);
        }
        Open({});
      }
    }

    // ----- The same for all operations of a task, in any order -----

    /** Worker `w` runs `s`; what other workers run is as it was. */
    ghost predicate RunsOnly(before: map<Worker, set<Invocation>>, w: Worker, s: set<Invocation>)
      reads `runs
    {
      Runs(runs, w) == s && forall u :: u != w ==> Runs(runs, u) == Runs(before, u)
    }

    method IncrementAll(s: set<Invocation>, w: Worker, ghost loose: set<Invocation>)
      requires Ok(loose) && s <= nodes && Runs(runs, w) == {}
      modifies `exec, `queued, `parked, `runs
      ensures Ok(loose - AboveAll(s)) && RunsOnly(old(runs), w, s)
    {
      var todo := s;
      ghost var left := loose;
      while todo != {}
        invariant todo <= s && Ok(left) && RunsOnly(old(runs), w, s - todo)
        invariant left <= loose && forall n :: n in left ==> forall m :: m in s - todo ==> n !in Above(m)
        decreases todo
      {
        var m :| m in todo;
        Increment(m, w, left);
        left, todo := left - Above(m), todo - {m};
        assert s - todo == s - (todo + {m}) + {m};
      }
      assert s - {} == s;
      Looser(left, loose - AboveAll(s));
    }

    /** Listing more invocations as possibly empty promises less. */
    lemma {:induction false} Looser(a: set<Invocation>, b: set<Invocation>)
      requires a <= b && Ok(a)
      ensures Ok(b)
    {
      Open(a);
      Open(b);
    }

    method DecrementAll(s: set<Invocation>, w: Worker)
      requires Ok({}) && Runs(runs, w) == s
      modifies `nodes, `exec, `queued, `parked, `runs
      ensures Ok({}) && RunsOnly(old(runs), w, {})
      ensures nodes <= old(nodes) && forall n :: n in old(nodes) && n.Root? ==> n in nodes
    {
      var todo := s;
      while todo != {}
        invariant todo <= s && Ok({}) && RunsOnly(old(runs), w, todo)
        invariant nodes <= old(nodes) && forall n :: n in old(nodes) && n.Root? ==> n in nodes
        decreases todo
      {
        var m :| m in todo;
        Decrement(m, w);
        todo := todo - {m};
      }
    }

    method EnqueueAll(ops: map<Invocation, Operation>, ghost loose: set<Invocation>)
      requires Ok(loose) && Injective(ops)
      requires forall n :: n in ops ==> n in nodes && ops[n] !in queuedAt
      modifies `queued, `queuedAt
      ensures Ok(loose - AboveAll(ops.Keys))
      ensures forall o :: o in queuedAt <==> o in old(queuedAt) || exists n :: n in ops && ops[n] == o
      ensures forall o :: o in old(queuedAt) ==> queuedAt[o] == old(queuedAt)[o]
      ensures forall n :: n in ops ==> queuedAt[ops[n]] == n
    {
      var todo := ops.Keys;
      ghost var left := loose;
      while todo != {}
        invariant todo <= ops.Keys && Ok(left)
        invariant left <= loose && forall n :: n in left ==> forall m :: m in ops && m !in todo ==> n !in Above(m)
        invariant forall o :: o in queuedAt <==> o in old(queuedAt) || exists n :: n in ops && n !in todo && ops[n] == o
        invariant forall o :: o in old(queuedAt) ==> queuedAt[o] == old(queuedAt)[o]
        invariant forall n :: n in ops && n !in todo ==> queuedAt[ops[n]] == n
        decreases todo
      {
        var m :| m in todo;
        Enqueue(ops[m], m, left);
        left, todo := left - Above(m), todo - {m};
      }
      Looser(left, loose - AboveAll(ops.Keys));
    }

    method UnqueueAll(ops: map<Invocation, Operation>, w: Worker)
      requires Ok({}) && Injective(ops) && Runs(runs, w) == ops.Keys
      requires forall n :: n in ops ==> ops[n] in queuedAt && queuedAt[ops[n]] == n
      modifies `queued, `queuedAt
      ensures Ok({})
      ensures forall o :: o in queuedAt <==> o in old(queuedAt) && forall n :: n in ops ==> ops[n] != o
      ensures forall o :: o in queuedAt ==> queuedAt[o] == old(queuedAt)[o]
    {
      var todo := ops.Keys;
      while todo != {}
        invariant todo <= ops.Keys && Ok({})
        invariant forall o :: o in queuedAt <==> o in old(queuedAt) && forall n :: n in ops && n !in todo ==>
          ops[n] != o
        invariant forall o :: o in queuedAt ==> queuedAt[o] == old(queuedAt)[o]
        decreases todo
      {
        var m :| m in todo;
        assert m in Runs(runs, w);
        Unqueue(ops[m], m);
        todo := todo - {m};
      }
    }

    /** The part of getNextTask() that puts a worker in the list of its last invocation. */
    method Park(w: Worker, n: Invocation, ghost loose: set<Invocation>)
      requires Ok(loose) && w !in parkedAt
      modifies `parked, `parkedAt
      ensures Ok(loose) && parkedAt == old(parkedAt)[w := n]
    {
      Open(loose);
      parked := Add(parked, w, n, parkedAt);
      parkedAt := parkedAt[w := n];
      Open(loose);
    }

    /** worker.dequeue() */
    method Unpark(w: Worker, n: Invocation, ghost loose: set<Invocation>)
      requires Ok(loose) && w in parkedAt && parkedAt[w] == n
      modifies `parked, `parkedAt
      ensures Ok(loose) && parkedAt == old(parkedAt) - {w}
    {
      Open(loose);
      parked := Take(parked, w, parkedAt, n);
      parkedAt := parkedAt - {w};
      Open(loose);
    }

    /** Queued operations are in invocations that exist, and so is what a worker runs, and where workers were last. */
    lemma {:induction false} QueuedInNodes()
      requires Ok({})
      ensures forall o :: o in queuedAt ==> queuedAt[o] in nodes
    {
      Open({});
      forall o | o in queuedAt ensures queuedAt[o] in nodes {
        PresentIff(queued, queuedAt, queuedAt[o]);
        assert !IsEmpty(exec, idle, queued, queuedAt[o]);
      }
    }

    lemma {:induction false} RunsInNodes(w: Worker)
      requires Ok({})
      ensures Runs(runs, w) <= nodes
    {
      Open({});
      forall n | n in Runs(runs, w) ensures n in nodes {
        CountZero(Runs(runs, w), n);
        assert ExecAt(exec, n, w) > 0;
        assert !IsEmpty(exec, idle, queued, n);
      }
    }

    lemma {:induction false} AboveInNodes(m: Invocation, n: Invocation)
      requires Ok({}) && m in nodes && Under(m, n)
      ensures n in nodes
    {
      Open({});
      NodesAbove(nodes, m, n);
    }

    lemma {:induction false} PresentInNodes(n: Invocation)
      requires Ok({})
      ensures queued.Present(n) ==> n in nodes
    {
      Open({});
      assert queued.Present(n) ==> !IsEmpty(exec, idle, queued, n);
    }

    /** The worker that task.schedule() picks. */
    method FirstParked(n: Invocation, ghost loose: set<Invocation>) returns (w: Worker)
      requires Ok(loose) && parked.Present(n)
      ensures w in parkedAt && Under(parkedAt[w], n)
    {
      Open(loose);
      var i := Descend(parked, n, parkedAt);
      w := parked.Direct(i)[0];
      assert w in ListAt(parked.direct, i);
    }

    lemma {:induction false} ParkedBelow(n: Invocation, loose: set<Invocation>)
      requires Ok(loose)
      ensures parked.Present(n) <==> exists w :: w in parkedAt && Under(parkedAt[w], n)
    {
      Open(loose);
      PresentIff(parked, parkedAt, n);
    }

    lemma {:induction false} LastInNodes(w: Worker)
      requires Ok({}) && w in last
      ensures Above(last[w]) <= nodes
    {
      Open({});
      forall n | n in Above(last[w]) ensures n in nodes {
        IdleNonEmpty(idle, last, n);
        assert !IsEmpty(exec, idle, queued, n);
      }
    }

    /** What an invocation other than a root exists for: an operation that is queued, one that a worker runs, or a
        worker that was last active there. */
    lemma {:induction false} WhatFor(n: Invocation) returns (o: Operation, u: Worker, k: Invocation)
      requires Ok({}) && n.Child? && n in nodes
      ensures
        || (o in queuedAt && Under(queuedAt[o], n)) || (k in Runs(runs, u) && Under(k, n))
        || (u in last && Under(last[u], n))
    {
      Open({});
      o, u, k := 0, Temporary, n;
      if queued.Present(n) {
        o := PresentHasItem(queued, queuedAt, n);
      } else if ExecOf(exec, n) != map[] {
        u :| u in ExecOf(exec, n);
        assert ExecAt(exec, n, u) > 0;
        k :| k in Below(Runs(runs, u), n);
      } else {
        assert IdleAt(idle, n) > 0;
        u :| u in LastBelow(last, n);
      }
    }

    lemma {:induction false} ExistsFor(o: Operation, u: Worker, k: Invocation, n: Invocation)
      requires Ok({})
      requires
        || (o in queuedAt && Under(queuedAt[o], n)) || (k in Runs(runs, u) && Under(k, n))
        || (u in last && Under(last[u], n))
      ensures n in nodes
    {
      if o in queuedAt && Under(queuedAt[o], n) {
        QueuedInNodes();
        AboveInNodes(queuedAt[o], n);
      } else if k in Runs(runs, u) && Under(k, n) {
        RunsInNodes(u);
        AboveInNodes(k, n);
      } else {
        LastInNodes(u);
      }
    }

    lemma {:induction false} ParkedAtRoot(q: nat)
      requires Ok({})
      ensures parked.Present(Root(q)) <==> exists w :: w in parkedAt && QueueOf(parkedAt[w]) == q
    {
      Open({});
      PresentAtRoot(parked, parkedAt, q);
    }

    lemma {:induction false} QueuedAtRoot(q: nat)
      requires Ok({})
      ensures queued.Present(Root(q)) <==> exists o :: o in queuedAt && QueueOf(queuedAt[o]) == q
    {
      Open({});
      PresentAtRoot(queued, queuedAt, q);
    }

    /** How many operations are queued in an invocation itself. */
    lemma {:induction false} QueuedCount(n: Invocation)
      requires Ok({})
      ensures |queued.Direct(n)| == |PlacedAt(queuedAt, n)|
    {
      Open({});
      DirectCount(queued, queuedAt, n);
    }

    /** The operation that worker.assignNextQueuedTask() picks. */
    method FirstQueued(n: Invocation) returns (o: Operation)
      requires Ok({}) && queued.Present(n)
      ensures o in queuedAt && Under(queuedAt[o], n)
    {
      Open({});
      var i := Descend(queued, n, queuedAt);
      o := queued.Direct(i)[0];
      assert o in ListAt(queued.direct, i);
    }

    lemma {:induction false} NothingParked(q: nat, loose: set<Invocation>)
      requires Ok(loose) && !parked.Present(Root(q))
      ensures forall w :: w in parkedAt ==> QueueOf(parkedAt[w]) != q
    {
      Open(loose);
      PresentAtRoot(parked, parkedAt, q);
    }

    method AddRoot(q: nat)
      requires Ok({})
      modifies `nodes
      ensures Ok({}) && nodes == old(nodes) + {Root(q)}
    {
      Open({});
      nodes := nodes + {Root(q)};
      Open({});
    }

    /** The root of a size class queue goes away, and with it all that was left of the queue. */
    method RemoveRoot(q: nat)
      requires Ok({}) && (forall u, n :: n in Runs(runs, u) ==> QueueOf(n) != q)
      requires forall w :: w in last ==> QueueOf(last[w]) != q
      requires forall o :: o in queuedAt ==> QueueOf(queuedAt[o]) != q
      modifies `nodes
      ensures Ok({}) && nodes == old(nodes) - {Root(q)} && forall n :: n in nodes ==> QueueOf(n) != q
    {
      Open({});
      forall n | QueueOf(n) == q ensures IsEmpty(exec, idle, queued, n) { UnusedEmpty(n, q); }
      assert QueueOf(Root(q)) == q;
      forall n | n in nodes && n.Child? ensures QueueOf(n) == QueueOf(n.parent) != q && n.parent in nodes - {Root(q)} {}
      nodes := nodes - {Root(q)};
      assert Tidy(nodes, exec, idle, queued, {});
      Open({});
    }

    lemma {:induction false} UnusedEmpty(n: Invocation, q: nat)
      requires Opened({}) && (forall u, n :: n in Runs(runs, u) ==> QueueOf(n) != q)
      requires forall w :: w in last ==> QueueOf(last[w]) != q
      requires forall o :: o in queuedAt ==> QueueOf(queuedAt[o]) != q
      requires QueueOf(n) == q
      ensures IsEmpty(exec, idle, queued, n)
    {
      ExecNonEmpty(exec, runs, n);
      IdleNonEmpty(idle, last, n);
      PresentIff(queued, queuedAt, n);
      forall m | Under(m, n) ensures QueueOf(m) == q { UnderDepth(m, n); }
    }

    /** getOrCreateInvocation() */
    method GetOrCreate(q: nat, keys: seq<Key>, ghost loose: set<Invocation>) returns (i: Invocation)
      requires Ok(loose) && Root(q) in nodes
      modifies `nodes
      ensures i == InvocationFor(q, keys) && i in nodes && Ok(loose + (Above(i) - old(nodes)))
      ensures nodes == old(nodes) + Above(i) && (i in old(nodes) ==> Above(i) <= old(nodes))
    {
      assert forall k :: k in nodes && k.Child? ==> k.parent in nodes by { Open(loose); }
      i := Root(q);
      var depth := 0;
      assert loose + (Above(i) - nodes) == loose;
      while depth < |keys|
        invariant depth <= |keys| && i == InvocationFor(q, keys[..depth])
        invariant nodes == old(nodes) + Above(i) && Ok(loose + (Above(i) - old(nodes)))
      {
        assert keys[..depth + 1][..depth] == keys[..depth];
        i := GetOrCreateChild(i, keys[depth], old(nodes), loose);
        depth := depth + 1;
      }
      assert keys[..|keys|] == keys;
      if i in old(nodes) {
        forall k | k in Above(i) ensures k in old(nodes) { NodesAbove(old(nodes), i, k); }
      }
    }

    method GetOrCreateChild(i: Invocation, key: Key, ghost before: set<Invocation>, ghost loose: set<Invocation>)
      returns (c: Invocation)
      requires nodes == before + Above(i) && Ok(loose + (Above(i) - before))
      modifies `nodes
      ensures c == Child(i, key) && nodes == before + Above(c) && Ok(loose + (Above(c) - before))
    {
      Open(loose + (Above(i) - before));
      c := Child(i, key);
      NotUnderItself(c);
      assert Above(c) == Above(i) + {c};
      if c !in nodes {
        nodes := nodes + {c};
      }
      Open(loose + (Above(c) - before));
    }

    /** The heaps that an invocation is in may be ordered by counters that just changed. */
    method FixHeaps(i: Invocation)
      requires i.Child? && Valid(queued, queuedAt) && Valid(parked, parkedAt)
      modifies `queued, `parked
      ensures Valid(queued, queuedAt) && Valid(parked, parkedAt) && SamePresence(old(queued), queued)
    {
      queued := MaybeFix(queued, i, queuedAt);
      parked := MaybeFix(parked, i, parkedAt);
    }
  }

  ghost predicate SamePresence(p: Presence<Operation>, p': Presence<Operation>) {
    forall n :: p'.Present(n) == p.Present(n)
  }

  lemma {:induction false} ExecPending(exec: Exec, runs: map<Worker, set<Invocation>>, w: Worker, i: Invocation)
    requires ExecBut(exec, runs, w, Some(i), 1)
    ensures ExecAt(exec, i, w) > 0
  {
  }

  lemma {:induction false} ExecNonEmpty(exec: Exec, runs: map<Worker, set<Invocation>>, n: Invocation)
    requires ExecOk(exec, runs)
    ensures ExecOf(exec, n) != map[] <==> exists u, k :: k in Runs(runs, u) && Under(k, n)
  {
    if ExecOf(exec, n) != map[] {
      var u :| u in ExecOf(exec, n);
      assert ExecAt(exec, n, u) > 0;
      CountZero(Runs(runs, u), n);
    }
    if u, k :| k in Runs(runs, u) && Under(k, n) {
      CountZero(Runs(runs, u), n);
      assert ExecAt(exec, n, u) > 0;
    }
  }

  lemma {:induction false} Incremented(
    nodes: set<Invocation>, exec: Exec, exec': Exec, idle: map<Invocation, nat>, queued: Presence<Operation>,
    queued': Presence<Operation>,
    runs: map<Worker, set<Invocation>>, w: Worker, m: Invocation, loose: set<Invocation>)
    requires Tidy(nodes, exec, idle, queued, loose) && SamePresence(queued, queued') && m in nodes
    requires ExecOk(exec, runs) && ExecOk(exec', runs[w := Runs(runs, w) + {m}])
    ensures Tidy(nodes, exec', idle, queued', loose - Above(m))
  {
    var runs' := runs[w := Runs(runs, w) + {m}];
    forall n ensures ExecOf(exec', n) != map[] <==> ExecOf(exec, n) != map[] || Under(m, n) {
      ExecNonEmpty(exec, runs, n);
      ExecNonEmpty(exec', runs', n);
      assert m in Runs(runs', w);
      forall u, k | k in Runs(runs, u) ensures k in Runs(runs', u) {}
      forall u, k | k in Runs(runs', u) ensures k in Runs(runs, u) || k == m {}
    }
    forall n | !IsEmpty(exec', idle, queued', n) ensures n in nodes {
      if Under(m, n) { NodesAbove(nodes, m, n); } else { assert !IsEmpty(exec, idle, queued, n); }
    }
    forall n | n in nodes && n.Child? && n !in loose - Above(m) ensures !IsEmpty(exec', idle, queued', n) {
      if !Under(m, n) { assert !IsEmpty(exec, idle, queued, n); }
    }
  }

  lemma {:induction false} Refixed(
    nodes: set<Invocation>, exec: Exec, idle: map<Invocation, nat>, queued: Presence<Operation>,
    queued': Presence<Operation>, loose: set<Invocation>)
    requires Tidy(nodes, exec, idle, queued, loose) && SamePresence(queued, queued')
    ensures Tidy(nodes, exec, idle, queued', loose)
  {
    forall n ensures IsEmpty(exec, idle, queued, n) == IsEmpty(exec, idle, queued', n) {}
  }

  lemma {:induction false} Decremented(
    nodes: set<Invocation>, exec: Exec, idle: map<Invocation, nat>, queued: Presence<Operation>, i: Invocation,
    w: Worker)
    requires Tidy(nodes, exec, idle, queued, {}) && ExecAt(exec, i, w) > 0
    ensures i in nodes && Tidy(nodes, SetExec(exec, i, w, ExecAt(exec, i, w) - 1), idle, queued, {i})
  {
    var exec' := SetExec(exec, i, w, ExecAt(exec, i, w) - 1);
    assert !IsEmpty(exec, idle, queued, i);
    forall n | n != i ensures IsEmpty(exec', idle, queued, n) == IsEmpty(exec, idle, queued, n) {}
  }

  /** Whatever keeps an invocation alive keeps its parent alive. */
  lemma {:induction false} EmptyBelow(
    exec: Exec, idle: map<Invocation, nat>, queued: Presence<Operation>,
    runs: map<Worker, set<Invocation>>, last: map<Worker, Invocation>, queuedAt: map<Operation, Invocation>,
    w: Worker, e: Option<Invocation>, l: Option<Invocation>, c: Invocation)
    requires ExecBut(exec, runs, w, e, 1) && IdleBut(idle, last, l, 1) && Valid(queued, queuedAt)
    requires c.Child? && (e.Some? ==> !Under(e.value, c.parent)) && (l.Some? ==> !Under(l.value, c.parent))
    requires IsEmpty(exec, idle, queued, c.parent)
    ensures IsEmpty(exec, idle, queued, c)
  {
    if ExecOf(exec, c) != map[] {
      ExecGrows(exec, runs, w, e, 1, c);
    }
    if queued.Present(c) {
      QueuedGrows(queued, queuedAt, c);
    }
    IdleGrows(idle, last, l, 1, c);
  }

  function InvocationFor(q: nat, keys: seq<Key>): Invocation {
    if keys == [] then Root(q) else Child(InvocationFor(q, keys[..|keys| - 1]), keys[|keys| - 1])
  }

  lemma {:induction false} InvocationForQueue(q: nat, keys: seq<Key>)
    ensures QueueOf(InvocationFor(q, keys)) == q
  {
    if keys != [] { InvocationForQueue(q, keys[..|keys| - 1]); }
  }

  lemma {:induction false} IdleNonEmpty(idle: map<Invocation, nat>, last: map<Worker, Invocation>, n: Invocation)
    requires IdleOk(idle, last)
    ensures IdleAt(idle, n) > 0 <==> exists w :: w in last && Under(last[w], n)
  {
    if IdleAt(idle, n) > 0 {
      var w :| w in LastBelow(last, n);
    }
    if w :| w in last && Under(last[w], n) {
      assert w in LastBelow(last, n);
    }
  }

  lemma {:induction false} LastSet(
    nodes: set<Invocation>, exec: Exec, idle: map<Invocation, nat>, idle': map<Invocation, nat>,
    queued: Presence<Operation>,
    last: map<Worker, Invocation>, w: Worker, m: Invocation, loose: set<Invocation>)
    requires Tidy(nodes, exec, idle, queued, loose) && m in nodes && w !in last
    requires IdleOk(idle, last) && IdleOk(idle', last[w := m])
    ensures Tidy(nodes, exec, idle', queued, loose - Above(m))
  {
    forall n ensures IdleAt(idle', n) > 0 <==> IdleAt(idle, n) > 0 || Under(m, n) {
      IdleNonEmpty(idle, last, n);
      IdleNonEmpty(idle', last[w := m], n);
      assert last[w := m][w] == m;
      forall u | u in last ensures last[w := m][u] == last[u] {}
    }
    forall n | !IsEmpty(exec, idle', queued, n) ensures n in nodes {
      if Under(m, n) { NodesAbove(nodes, m, n); } else { assert !IsEmpty(exec, idle, queued, n); }
    }
    forall n | n in nodes && n.Child? && n !in loose - Above(m) ensures !IsEmpty(exec, idle', queued, n) {
      if !Under(m, n) { assert !IsEmpty(exec, idle, queued, n); }
    }
  }

  lemma {:induction false} IdleLowered(
    nodes: set<Invocation>, exec: Exec, idle: map<Invocation, nat>, queued: Presence<Operation>, i: Invocation)
    requires Tidy(nodes, exec, idle, queued, {}) && IdleAt(idle, i) > 0
    ensures i in nodes && Tidy(nodes, exec, idle[i := IdleAt(idle, i) - 1], queued, {i})
  {
    var idle' := idle[i := IdleAt(idle, i) - 1];
    assert !IsEmpty(exec, idle, queued, i);
    forall n | n != i ensures IsEmpty(exec, idle', queued, n) == IsEmpty(exec, idle, queued, n) {}
  }

  lemma {:induction false} Enqueued(
    nodes: set<Invocation>, exec: Exec, idle: map<Invocation, nat>, queued: Presence<Operation>,
    queued': Presence<Operation>,
    queuedAt: map<Operation, Invocation>, o: Operation, m: Invocation, loose: set<Invocation>)
    requires Tidy(nodes, exec, idle, queued, loose) && m in nodes && o !in queuedAt
    requires Valid(queued, queuedAt) && Valid(queued', queuedAt[o := m])
    ensures Tidy(nodes, exec, idle, queued', loose - Above(m))
  {
    forall n ensures queued'.Present(n) <==> queued.Present(n) || Under(m, n) {
      PresentIff(queued, queuedAt, n);
      PresentIff(queued', queuedAt[o := m], n);
      assert queuedAt[o := m][o] == m;
      forall x | x in queuedAt ensures queuedAt[o := m][x] == queuedAt[x] {}
    }
    forall n | !IsEmpty(exec, idle, queued', n) ensures n in nodes {
      if Under(m, n) { NodesAbove(nodes, m, n); } else { assert !IsEmpty(exec, idle, queued, n); }
    }
    forall n | n in nodes && n.Child? && n !in loose - Above(m) ensures !IsEmpty(exec, idle, queued', n) {
      if !Under(m, n) { assert !IsEmpty(exec, idle, queued, n); }
    }
  }

  lemma {:induction false} Unqueued(
    nodes: set<Invocation>, exec: Exec, idle: map<Invocation, nat>, queued: Presence<Operation>,
    queued': Presence<Operation>,
    queuedAt: map<Operation, Invocation>, o: Operation, m: Invocation)
    requires Tidy(nodes, exec, idle, queued, {}) && o in queuedAt && queuedAt[o] == m
    requires Valid(queued, queuedAt) && Valid(queued', queuedAt - {o})
    ensures Tidy(nodes, exec, idle, queued', Above(m))
  {
    forall n ensures queued.Present(n) <==> queued'.Present(n) || Under(m, n) {
      PresentIff(queued, queuedAt, n);
      PresentIff(queued', queuedAt - {o}, n);
      forall x | x in queuedAt && x != o ensures (queuedAt - {o})[x] == queuedAt[x] {}
    }
    forall n | !IsEmpty(exec, idle, queued', n) ensures n in nodes { assert !IsEmpty(exec, idle, queued, n); }
    forall n | n in nodes && n.Child? && n !in Above(m) ensures !IsEmpty(exec, idle, queued', n) {
      assert !IsEmpty(exec, idle, queued, n);
    }
  }

  lemma {:induction false} StillRunning(
    nodes: set<Invocation>, exec: Exec, idle: map<Invocation, nat>, queued: Presence<Operation>,
    runs: map<Worker, set<Invocation>>,
    u: Worker, m: Invocation)
    requires Tidy(nodes, exec, idle, queued, Above(m)) && ExecOk(exec, runs) && m in Runs(runs, u)
    ensures Tidy(nodes, exec, idle, queued, {})
  {
    forall n | Under(m, n) ensures ExecOf(exec, n) != map[] {
      CountZero(Runs(runs, u), n);
      assert ExecAt(exec, n, u) > 0;
    }
  }

  lemma {:induction false} NotBelow(i: Invocation)
    ensures forall c :: c in Above(i) && c.Child? ==> c.parent != i
  {
    forall c | c in Above(i) && c.Child? ensures c.parent != i {
      UnderDepth(i, c);
    }
  }

  lemma {:induction false} NonEmptyAbove(
    exec: Exec, idle: map<Invocation, nat>, queued: Presence<Operation>,
    runs: map<Worker, set<Invocation>>, last: map<Worker, Invocation>, queuedAt: map<Operation, Invocation>,
    m: Invocation, n: Invocation)
    requires ExecOk(exec, runs) && IdleOk(idle, last) && Valid(queued, queuedAt)
    requires Under(m, n) && !IsEmpty(exec, idle, queued, m)
    ensures !IsEmpty(exec, idle, queued, n)
  {
    if m != n {
      ExecDone(exec, runs, Temporary, 1);
      IdleDone(idle, last, 1);
      if IsEmpty(exec, idle, queued, m.parent) {
        EmptyBelow(exec, idle, queued, runs, last, queuedAt, Temporary, None, None, m);
      }
      NonEmptyAbove(exec, idle, queued, runs, last, queuedAt, m.parent, n);
    }
  }
}
