/**
 pkg/scheduler/in_memory_build_queue.go: the counters that every invocation keeps for its subtree,
 and which invocations exist.
 */
module InvocationCounts {
  import opened Common
  import opened InvocationTree
  import opened InvocationPresence

  type Operation = nat

  /** A worker, or the temporary one on which task.complete() starts a task that is still queued. */
  datatype Worker = Worker(queue: nat, id: map<string, string>) | Temporary

  /** Operation `ops[n]` belongs to invocation `n`, so no two are the same. */
  ghost predicate Injective(ops: map<Invocation, Operation>) {
    forall m, n :: m in ops && n in ops && ops[m] == ops[n] ==> m == n
  }

  // ----- executingWorkers -----

  type Exec = map<Invocation, map<Worker, nat>>

  function ExecOf(exec: Exec, n: Invocation): map<Worker, nat> { if n in exec then exec[n] else map[] }

  function ExecAt(exec: Exec, n: Invocation, w: Worker): nat { if w in ExecOf(exec, n) then ExecOf(exec, n)[w] else 0 }

  /** The invocations of the operations of the task that a worker is executing. */
  ghost function Runs(runs: map<Worker, set<Invocation>>, w: Worker): set<Invocation> {
    if w in runs then runs[w] else {}
  }

  ghost function Off(w: Worker, i: Option<Invocation>, d: int, n: Invocation, u: Worker): int {
    if u == w && i.Some? && Under(i.value, n) then d else 0
  }

  function Up(i: Invocation): Option<Invocation> { if i.Child? then Some(i.parent) else None }

  lemma {:induction false} OffLevel(w: Worker, i: Invocation, d: int, n: Invocation, u: Worker)
    ensures Off(w, Some(i), d, n, u) == Off(w, Up(i), d, n, u) + if n == i && u == w then d else 0
  {
    if i.Child? { NotUnderItself(i); }
  }

  ghost predicate Positive(exec: Exec) { forall n, u :: u in ExecOf(exec, n) ==> ExecAt(exec, n, u) > 0 }

  /** Counters are those of `runs`, but for those of worker `w` in the invocations containing `i`, which are off by
      `d`. */
  ghost predicate ExecBut(exec: Exec, runs: map<Worker, set<Invocation>>, w: Worker, i: Option<Invocation>, d: int) {
    && (forall n, u :: ExecAt(exec, n, u) == Count(Runs(runs, u), n) + Off(w, i, d, n, u))
    && Positive(exec)
  }

  /** `executingWorkers[w]` is the number of operations of w's current task in the subtree. */
  ghost predicate ExecOk(exec: Exec, runs: map<Worker, set<Invocation>>) {
    && (forall n, u :: ExecAt(exec, n, u) == Count(Runs(runs, u), n))
    && Positive(exec)
  }

  function SetExec(exec: Exec, n: Invocation, w: Worker, k: nat): Exec {
    exec[n := if k == 0 then ExecOf(exec, n) - {w} else ExecOf(exec, n)[w := k]]
  }

  lemma {:induction false} StaysPositive(exec: Exec, n: Invocation, w: Worker, k: nat)
    requires Positive(exec)
    ensures Positive(SetExec(exec, n, w, k))
  {
    var e := SetExec(exec, n, w, k);
    forall m, u | u in ExecOf(e, m) ensures ExecAt(e, m, u) > 0 {
      if m != n || u != w { assert u in ExecOf(exec, m); }
    }
  }

  lemma {:induction false} LevelAt(
    exec: Exec, w: Worker, i: Invocation, d: int, k: nat, n: Invocation, u: Worker, c: int)
    requires ExecAt(exec, n, u) == c + Off(w, Some(i), d, n, u) && k == ExecAt(exec, i, w) - d
    ensures ExecAt(SetExec(exec, i, w, k), n, u) == c + Off(w, Up(i), d, n, u)
  {
    OffLevel(w, i, d, n, u);
  }

  /** One level of a loop over an invocation and those containing it, which moves a counter by `-d`. */
  lemma {:induction false} ExecLevel(exec: Exec, runs: map<Worker, set<Invocation>>, w: Worker, i: Invocation, d: int)
    requires ExecBut(exec, runs, w, Some(i), d) && ExecAt(exec, i, w) - d >= 0
    ensures ExecBut(SetExec(exec, i, w, ExecAt(exec, i, w) - d), runs, w, Up(i), d)
  {
    var k := ExecAt(exec, i, w) - d;
    StaysPositive(exec, i, w, k);
    forall n, u ensures ExecAt(SetExec(exec, i, w, k), n, u) == Count(Runs(runs, u), n) + Off(w, Up(i), d, n, u) {
      LevelAt(exec, w, i, d, k, n, u, Count(Runs(runs, u), n));
    }
  }

  lemma {:induction false} ExecDone(exec: Exec, runs: map<Worker, set<Invocation>>, w: Worker, d: int)
    ensures ExecBut(exec, runs, w, None, d) <==> ExecOk(exec, runs)
  {
    if ExecBut(exec, runs, w, None, d) {
      forall n, u ensures ExecAt(exec, n, u) == Count(Runs(runs, u), n) {}
    }
  }

  lemma {:induction false} ExecStart(exec: Exec, runs: map<Worker, set<Invocation>>, w: Worker, m: Invocation)
    requires ExecOk(exec, runs)
    ensures m !in Runs(runs, w) ==> ExecBut(exec, runs[w := Runs(runs, w) + {m}], w, Some(m), -1)
    ensures m in Runs(runs, w) ==> ExecBut(exec, runs[w := Runs(runs, w) - {m}], w, Some(m), 1)
  {
    if m !in Runs(runs, w) {
      ExecStartAdd(exec, runs, w, m);
    } else {
      ExecStartRemove(exec, runs, w, m);
    }
  }

  lemma {:induction false} ExecStartAdd(exec: Exec, runs: map<Worker, set<Invocation>>, w: Worker, m: Invocation)
    requires ExecOk(exec, runs) && m !in Runs(runs, w)
    ensures ExecBut(exec, runs[w := Runs(runs, w) + {m}], w, Some(m), -1)
  {
    var s, runs' := Runs(runs, w), runs[w := Runs(runs, w) + {m}];
    forall n, u ensures ExecAt(exec, n, u) == Count(Runs(runs', u), n) + Off(w, Some(m), -1, n, u) {
      assert ExecAt(exec, n, u) == Count(Runs(runs, u), n);
      if u == w { CountAdd(s, m, n); } else { assert Runs(runs', u) == Runs(runs, u); }
    }
  }

  lemma {:induction false} ExecStartRemove(exec: Exec, runs: map<Worker, set<Invocation>>, w: Worker, m: Invocation)
    requires ExecOk(exec, runs) && m in Runs(runs, w)
    ensures ExecBut(exec, runs[w := Runs(runs, w) - {m}], w, Some(m), 1)
  {
    var s, runs' := Runs(runs, w) - {m}, runs[w := Runs(runs, w) - {m}];
    assert s + {m} == Runs(runs, w);
    forall n, u ensures ExecAt(exec, n, u) == Count(Runs(runs', u), n) + Off(w, Some(m), 1, n, u) {
      assert ExecAt(exec, n, u) == Count(Runs(runs, u), n);
      if u == w { CountAdd(s, m, n); } else { assert Runs(runs', u) == Runs(runs, u); }
    }
  }

  // ----- idleWorkersCount -----

  function IdleAt(idle: map<Invocation, nat>, n: Invocation): nat { if n in idle then idle[n] else 0 }

  ghost function LastBelow(last: map<Worker, Invocation>, n: Invocation): set<Worker> {
    set w | w in last && Under(last[w], n)
  }

  ghost predicate IdleBut(idle: map<Invocation, nat>, last: map<Worker, Invocation>, i: Option<Invocation>, d: int) {
    forall n :: IdleAt(idle, n) == |LastBelow(last, n)| + if i.Some? && Under(i.value, n) then d else 0
  }

  /** `idleWorkersCount` is the number of workers whose last invocation is in the subtree. */
  ghost predicate IdleOk(idle: map<Invocation, nat>, last: map<Worker, Invocation>) {
    forall n :: IdleAt(idle, n) == |LastBelow(last, n)|
  }

  lemma {:induction false} IdleLevel(idle: map<Invocation, nat>, last: map<Worker, Invocation>, i: Invocation, d: int)
    requires IdleBut(idle, last, Some(i), d) && IdleAt(idle, i) - d >= 0
    ensures IdleBut(idle[i := IdleAt(idle, i) - d], last, Up(i), d)
  {
    if i.Child? { NotUnderItself(i); }
  }

  lemma {:induction false} LastAdd(last: map<Worker, Invocation>, w: Worker, m: Invocation, n: Invocation)
    requires w !in last
    ensures |LastBelow(last[w := m], n)| == |LastBelow(last, n)| + if Under(m, n) then 1 else 0
  {
    var a, b := LastBelow(last, n), LastBelow(last[w := m], n);
    forall u | u != w ensures u in b <==> u in a {
      if u in last { assert last[w := m][u] == last[u]; }
    }
    assert w in b <==> Under(m, n);
    assert b == if Under(m, n) then a + {w} else a;
  }

  lemma {:induction false} LastParent(last: map<Worker, Invocation>, n: Invocation)
    requires n.Child?
    ensures |LastBelow(last, n)| <= |LastBelow(last, n.parent)|
  {
    forall w | w in LastBelow(last, n) ensures w in LastBelow(last, n.parent) {
      UnderTransitive(last[w], n, n.parent);
    }
    SubsetSize(LastBelow(last, n), LastBelow(last, n.parent));
  }

  lemma {:induction false} IdleDone(idle: map<Invocation, nat>, last: map<Worker, Invocation>, d: int)
    ensures IdleBut(idle, last, None, d) <==> IdleOk(idle, last)
  {
  }

  lemma {:induction false} IdleStart(
    idle: map<Invocation, nat>, last: map<Worker, Invocation>, w: Worker, m: Invocation)
    requires IdleOk(idle, last)
    ensures w !in last ==> IdleBut(idle, last[w := m], Some(m), -1)
    ensures w in last && last[w] == m ==> IdleBut(idle, last - {w}, Some(m), 1)
  {
    if w !in last {
      forall n ensures |LastBelow(last[w := m], n)| == |LastBelow(last, n)| + if Under(m, n) then 1 else 0 {
        LastAdd(last, w, m, n);
      }
    } else if last[w] == m {
      forall n ensures |LastBelow(last, n)| == |LastBelow(last - {w}, n)| + if Under(m, n) then 1 else 0 {
        LastAdd(last - {w}, w, m, n);
        assert (last - {w})[w := m] == last;
      }
    }
  }
}
