/**
 Any number of threads that use a LockPile each (pkg/sync/lock_pile.go). Every attempt to acquire a
 lock, and every release of one, is a step of its own; threads take steps in any order.
 */
module LockPileThreads {
  import opened Common
  import opened LockPile

  /** Where a thread is: outside of any call; in Lock(), about to try to acquire a further lock, releasing what it has
      acquired, or blocked on its first lock; or releasing everything in UnlockAll(). */
  datatype Pc = Outside | Trying | Releasing(next: nat) | Blocked | Unlocking(next: nat)

  /** A thread: its pile, how many locks it has acquired, and what has happened during the current or last call to
      Lock(): the pile with the new locks added, the locks that were held on entry, whether all went well, and which of
      those held on entry have been released. */
  datatype Local = Local(
    pile: seq<Handle>, acquired: nat, pc: Pc,
    start: seq<Handle>, entry: set<Lock>, clean: bool, released: set<Lock>)
  {
    /** The thread is in Lock(). */
    predicate InCall() { pc.Trying? || pc.Releasing? || pc.Blocked? }
  }

  datatype State = State(owner: map<Lock, Thread>, threads: map<Thread, Local>)

  datatype Action = Begin(newLocks: seq<Lock>) | Try | Release | Acquire | UnlockOne(index: nat) | UnlockAll

  /** The locks that a thread holds. */
  ghost function Holds(x: Local): set<Lock>
    requires x.acquired <= |x.pile|
  {
    match x.pc
    case Outside => LocksIn(x.pile, 0, x.acquired)
    case Trying => LocksIn(x.pile, 0, x.acquired)
    case Releasing(i) => LocksIn(x.pile, i, x.acquired)
    case Blocked => {}
    case Unlocking(i) => LocksIn(x.pile, i, x.acquired)
  }

  // ----- Steps -----

  /** The loop condition of Lock(), for a thread that is not blocked. */
  function Resumed(x: Local): Local { x.(pc := if x.acquired < |x.pile| then Trying else Outside) }

  predicate Free(s: State, l: Lock) { l !in s.owner }

  /** What a step does to a thread, and the locks it acquires and releases. */
  datatype Effect = Effect(local: Local, take: set<Lock>, give: set<Lock>)

  ghost predicate LocalOk(x: Local) {
    && Distinct(x.pile) && x.acquired <= |x.pile|
    && match x.pc {
         case Outside => x.acquired == |x.pile|
         case Trying => 0 < x.acquired < |x.pile|
         case Releasing(i) => i < x.acquired < |x.pile|
         case Blocked => x.acquired == 0 < |x.pile|
         case Unlocking(i) => i < x.acquired == |x.pile|
       }
  }

  /** One step of a thread; None if the action is not possible. */
  ghost function StepLocal(s: State, x: Local, a: Action): Option<Effect>
    requires LocalOk(x)
  {
    match a
    case Begin(newLocks) =>
      if x.pc.Outside? && (x.pile != [] || newLocks != []) then
        var p := InsertedAll(x.pile, newLocks);
        var y := Local(p, x.acquired, x.pc, p, LocksIn(x.pile, 0, |x.pile|), true, {});
        Some(Effect(if x.acquired == 0 then y.(pc := Blocked) else Resumed(y), {}, {}))
      else None
    case Try =>
      if !x.pc.Trying? then None
      else if Free(s, x.pile[x.acquired].lock) then
        Some(Effect(Resumed(x.(acquired := x.acquired + 1)), {x.pile[x.acquired].lock}, {}))
      else Some(Effect(x.(pc := Releasing(0), clean := false), {}, {}))
    case Release =>
      if x.pc.Releasing? then
        var l := x.pile[x.pc.next].lock;
        var y := x.(released := if l in x.entry then x.released + {l} else x.released);
        Some(Effect(
          if x.pc.next + 1 < x.acquired then y.(pc := Releasing(x.pc.next + 1))
          else y.(pc := Blocked, pile := Swapped(x.pile, x.acquired), acquired := 0),
          {}, {l}))
      else if x.pc.Unlocking? then
        Some(Effect(
          if x.pc.next + 1 < x.acquired then x.(pc := Unlocking(x.pc.next + 1))
          else x.(pc := Outside, pile := [], acquired := 0),
          {}, {x.pile[x.pc.next].lock}))
      else None
    case Acquire =>
      if x.pc.Blocked? && Free(s, x.pile[0].lock) then Some(Effect(Resumed(x.(acquired := 1)), {x.pile[0].lock}, {}))
        else None
    case UnlockOne(i) =>
      if x.pc.Outside? && i < |x.pile| then
        if x.pile[i].recursion > 0 then
          Some(Effect(x.(pile := x.pile[i := x.pile[i].(recursion := x.pile[i].recursion - 1)]), {}, {}))
        else
          var n := |x.pile| - 1;
          Some(Effect(x.(pile := x.pile[i := x.pile[n]][..n], acquired := n), {}, {x.pile[i].lock}))
      else None
    case UnlockAll =>
      if x.pc.Outside? && x.pile != [] then Some(Effect(x.(pc := Unlocking(0)), {}, {})) else None
  }

  ghost function Owners(owner: map<Lock, Thread>, t: Thread, take: set<Lock>, give: set<Lock>): map<Lock, Thread> {
    map l | l in owner.Keys + take && l !in give :: if l in take then t else owner[l]
  }

  /** The whole system after thread `t` has taken a step. */
  ghost function Next(s: State, t: Thread, a: Action): State
    requires t in s.threads && LocalOk(s.threads[t])
  {
    match StepLocal(s, s.threads[t], a)
    case None => s
    case Some(e) => State(Owners(s.owner, t, e.take, e.give), s.threads[t := e.local])
  }

  // ----- Invariants -----

  /** What happened during the call to Lock(): the pile has kept its contents, and every lock held on entry is still
      held or has been released. A result of true means that none was released; a result of false that all were, and
      that the pile has more than one lock. */
  ghost predicate HistoryOk(x: Local)
    requires LocalOk(x)
  {
    && (x.InCall() ==>
          && (forall l :: Times(x.pile, l) == Times(x.start, l))
          && |x.pile| == |x.start| && x.entry <= x.released + Holds(x))
    && x.released <= x.entry && (x.clean ==> x.released == {})
    && (!x.clean && !x.pc.Releasing? ==> x.entry <= x.released)
    && (!x.clean ==> |x.start| >= 2)
    && (x.pc.Releasing? ==> !x.clean)
  }

  /** Locks are held by those who hold them. */
  ghost predicate Ownership(s: State, t: Thread)
    requires t in s.threads && LocalOk(s.threads[t])
  {
    forall l :: l in s.owner && s.owner[l] == t <==> l in Holds(s.threads[t])
  }

  ghost predicate Inv(s: State) {
    && (forall t :: t in s.threads ==> LocalOk(s.threads[t]) && HistoryOk(s.threads[t]) && Ownership(s, t))
    && (forall l :: l in s.owner ==> s.owner[l] in s.threads)
  }

  lemma {:induction false} StepLocalOk(s: State, x: Local, a: Action)
    requires LocalOk(x) && StepLocal(s, x, a).Some?
    ensures LocalOk(StepLocal(s, x, a).value.local)
  {
    match a {
      case Begin(newLocks) => InsertedAllShape(x.pile, newLocks);
      case _ =>
    }
  }

  lemma {:induction false} StepHistory(s: State, x: Local, a: Action)
    requires LocalOk(x) && HistoryOk(x) && StepLocal(s, x, a).Some?
    requires var e := StepLocal(s, x, a).value; LocalOk(e.local) && Holds(e.local) == Holds(x) + e.take - e.give
    ensures HistoryOk(StepLocal(s, x, a).value.local)
    ensures var y := StepLocal(s, x, a).value.local;
      x.InCall() && y.pc.Outside? ==> (forall l :: Times(y.pile, l) == Times(y.start, l)) && |y.pile| == |y.start|
  {
    if a.Release? && x.pc.Releasing? {
      forall l ensures Times(Swapped(x.pile, x.acquired), l) == Times(x.pile, l) {
        SwappedTimes(x.pile, x.acquired, l);
      }
    }
  }

  /** A thread that is refused a lock releases what it has acquired, and then waits for that one. */
  lemma {:induction false} WaitsForThat(s: State, x: Local, a: Action)
    requires LocalOk(x) && StepLocal(s, x, a).Some?
    ensures var y := StepLocal(s, x, a).value.local;
      && (x.pc.Trying? && y.pc.Releasing? ==>
            !Free(s, x.pile[x.acquired].lock) && y.pile == x.pile && y.acquired == x.acquired)
      && (x.pc.Releasing? && y.pc.Releasing? ==> y.pile == x.pile && y.acquired == x.acquired)
      && (x.pc.Releasing? && y.pc.Blocked? ==> y.pile[0].lock == x.pile[x.acquired].lock)
      && (x.pc.Trying? && Free(s, x.pile[x.acquired].lock) ==> y.acquired == x.acquired + 1 && y.pile == x.pile)
  {
    StepLocalOk(s, x, a);
  }

  /** Unlock() takes back one acquisition, and releases the lock if that was the only one. */
  lemma {:induction false} UnlockOneTimes(s: State, x: Local, i: nat, l: Lock)
    requires LocalOk(x) && x.pc.Outside? && i < |x.pile|
    ensures var e := StepLocal(s, x, UnlockOne(i));
      && e.Some? && Times(e.value.local.pile, l) == Times(x.pile, l) - (if l == x.pile[i].lock then 1 else 0)
      && e.value.give == (if x.pile[i].recursion == 0 then {x.pile[i].lock} else {}) && e.value.take == {}
  {
    if x.pile[i].recursion > 0 {
      LoweredTimes(x.pile, i, l);
    } else {
      RemovedTimes(x.pile, i, l);
    }
  }

  /** A step changes what a thread holds by exactly the locks it acquires and releases. */
  lemma {:induction false} StepHolds(s: State, x: Local, a: Action)
    requires LocalOk(x) && StepLocal(s, x, a).Some? && LocalOk(StepLocal(s, x, a).value.local)
    ensures var e := StepLocal(s, x, a).value; Holds(e.local) == Holds(x) + e.take - e.give
  {
    match a {
      case Begin(newLocks) =>
        InsertedAllShape(x.pile, newLocks);
        LocksInSame(x.pile, InsertedAll(x.pile, newLocks), x.acquired);
      case Try =>
        LocksInGrow(x.pile, x.acquired);
      case Release =>
        LocksInShrink(x.pile, x.pc.next, x.acquired);
      case Acquire =>
        assert LocksIn(x.pile, 0, 1) == {x.pile[0].lock};
      case UnlockOne(i) =>
        if x.pile[i].recursion > 0 {
          LocksInSame(x.pile, x.pile[i := x.pile[i].(recursion := x.pile[i].recursion - 1)], |x.pile|);
        } else {
          LocksInRemoved(x.pile, i);
        }
      case UnlockAll =>
    }
  }

  lemma {:induction false} StepTakesFree(s: State, x: Local, a: Action)
    requires LocalOk(x) && StepLocal(s, x, a).Some?
    ensures var e := StepLocal(s, x, a).value;
      e.give <= Holds(x) && (forall l :: l in e.take ==> Free(s, l)) && e.take !! e.give
  {
    if a.Release? {
      assert x.pile[x.pc.next].lock in LocksIn(x.pile, x.pc.next, x.acquired);
    } else if a.UnlockOne? {
      assert x.pile[a.index].lock in LocksIn(x.pile, 0, x.acquired);
    }
  }

  lemma {:induction false} NextInv(s: State, t: Thread, a: Action)
    requires Inv(s) && t in s.threads
    ensures Inv(Next(s, t, a)) && Next(s, t, a).threads.Keys == s.threads.Keys
  {
    var x, r, s' := s.threads[t], StepLocal(s, s.threads[t], a), Next(s, t, a);
    if r.Some? {
      var e := r.value;
      StepLocalOk(s, x, a);
      StepHolds(s, x, a);
      StepHistory(s, x, a);
      StepTakesFree(s, x, a);
      assert Ownership(s, t);
      forall u | u in s'.threads ensures Ownership(s', u) {
        assert Ownership(s, u);
      }
    }
  }

  // ----- Runs -----

  const IDLE := Local([], 0, Outside, [], {}, true, {})

  /** Threads that have not locked anything. */
  ghost predicate Initial(s: State) {
    s.owner == map[] && forall t :: t in s.threads ==> s.threads[t] == IDLE
  }

  ghost predicate StepsOf(s: State, steps: seq<(Thread, Action)>) {
    forall k :: 0 <= k < |steps| ==> steps[k].0 in s.threads
  }

  /** The system after any interleaving of steps. */
  ghost function Run(s: State, steps: seq<(Thread, Action)>): State
    requires Inv(s) && StepsOf(s, steps)
    decreases steps
  {
    if steps == [] then s
    else
      NextInv(s, steps[0].0, steps[0].1);
      Run(Next(s, steps[0].0, steps[0].1), steps[1..])
  }

  lemma {:induction false} InitialInv(s: State)
    requires Initial(s)
    ensures Inv(s)
  {
  }

  lemma {:induction false} RunInv(s: State, steps: seq<(Thread, Action)>)
    requires Inv(s) && StepsOf(s, steps)
    ensures Inv(Run(s, steps)) && Run(s, steps).threads.Keys == s.threads.Keys
    decreases steps
  {
    if steps != [] {
      NextInv(s, steps[0].0, steps[0].1);
      RunInv(Next(s, steps[0].0, steps[0].1), steps[1..]);
    }
  }

  /** Thread `t` is blocked on a lock that thread `u` holds. */
  ghost predicate WaitsFor(s: State, t: Thread, u: Thread) {
    t in s.threads && s.threads[t].pc.Blocked? && s.threads[t].pile != [] &&
    s.threads[t].pile[0].lock in s.owner && s.owner[s.threads[t].pile[0].lock] == u
  }

  /** A thread blocks only while it holds no locks. So whoever holds a contended lock is not itself blocked, and can go
      on. */
  lemma {:induction false} HolderNotBlocked(s: State, t: Thread, u: Thread)
    requires Inv(s) && WaitsFor(s, t, u)
    ensures Holds(s.threads[t]) == {} && u in s.threads && !s.threads[u].pc.Blocked? && forall v :: !WaitsFor(s, u, v)
    ensures var y := s.threads[u]; y.pc.Outside? || StepLocal(s, y, Try).Some? || StepLocal(s, y, Release).Some?
  {
    assert Ownership(s, u);
    assert s.threads[t].pile[0].lock in Holds(s.threads[u]);
  }

  /** Each thread waits for the next one. */
  ghost predicate WaitChain(s: State, path: seq<Thread>) {
    |path| <= 1 || (WaitsFor(s, path[0], path[1]) && WaitChain(s, path[1..]))
  }

  /** No cycle of threads waiting for one another is reachable, whatever the interleaving; nor is any longer chain. */
  lemma {:induction false} NoDeadlock(s: State, steps: seq<(Thread, Action)>, path: seq<Thread>)
    requires Initial(s) && StepsOf(s, steps)
    requires |path| >= 2 && (path[0] == path[|path| - 1] || |path| >= 3)
    ensures (InitialInv(s); !WaitChain(Run(s, steps), path))
  {
    InitialInv(s);
    RunInv(s, steps);
    var r := Run(s, steps);
    if WaitsFor(r, path[0], path[1]) {
      HolderNotBlocked(r, path[0], path[1]);
      if |path| >= 3 {
        assert path[1..][0] == path[1] && path[1..][1] == path[2];
        assert !WaitsFor(r, path[1], path[2]);
      }
    }
  }

  // ----- What Lock() returns -----

  /** A run that starts with a call to Lock(); during it, the thread does nothing else. */
  ghost predicate IsCall(t: Thread, newLocks: seq<Lock>, steps: seq<(Thread, Action)>) {
    steps != [] && steps[0] == (t, Begin(newLocks)) && OnlyLocks(t, steps[1..])
  }

  ghost predicate OnlyLocks(t: Thread, steps: seq<(Thread, Action)>) {
    forall k :: 0 <= k < |steps| && steps[k].0 == t ==> steps[k].1.Try? || steps[k].1.Release? || steps[k].1.Acquire?
  }

  /** The thread is in a call to Lock(), or has just returned from one. */
  ghost predicate Calling(x: Local) {
    !x.pc.Unlocking? && |x.pile| == |x.start| && forall l :: Times(x.pile, l) == Times(x.start, l)
  }

  lemma {:induction false} CallStep(s: State, t: Thread, u: Thread, a: Action)
    requires Inv(s) && t in s.threads && u in s.threads && Calling(s.threads[t])
    requires u == t ==> a.Try? || a.Release? || a.Acquire?
    ensures var x, y := s.threads[t], Next(s, u, a).threads[t]; Calling(y) && y.start == x.start && y.entry == x.entry
  {
    var x := s.threads[t];
    if u == t && StepLocal(s, x, a).Some? {
      StepLocalOk(s, x, a);
      StepHolds(s, x, a);
      StepHistory(s, x, a);
    }
  }

  lemma {:induction false} CallKeeps(s: State, t: Thread, steps: seq<(Thread, Action)>)
    requires Inv(s) && t in s.threads && Calling(s.threads[t])
    requires OnlyLocks(t, steps) && StepsOf(s, steps)
    ensures t in Run(s, steps).threads
    ensures var x, y := s.threads[t], Run(s, steps).threads[t]; Calling(y) && y.start == x.start && y.entry == x.entry
    decreases steps
  {
    if steps != [] {
      NextInv(s, steps[0].0, steps[0].1);
      CallStep(s, t, steps[0].0, steps[0].1);
      CallKeeps(Next(s, steps[0].0, steps[0].1), t, steps[1..]);
    }
  }

  /** Thread `t`, whose pile is `pile`, calls Lock(), which has returned at the end of the run. */
  ghost predicate Returns(s: State, t: Thread, pile: seq<Handle>, newLocks: seq<Lock>, steps: seq<(Thread, Action)>) {
    && Inv(s) && t in s.threads && s.threads[t].pc.Outside? && s.threads[t].pile == pile
    && IsCall(t, newLocks, steps) && StepsOf(s, steps)
    && t in Run(s, steps).threads && Run(s, steps).threads[t].pc.Outside?
  }

  /** When Lock() returns, whatever other threads have done meanwhile, the pile holds the old and the new locks, each as
      often as it has been locked, and every one of them is held. A result of true means that no lock held on entry was
      released, a result of false that all of them were. The result tells whether any was, provided that any was held on
      entry, or that there is but one new lock. */
  lemma {:induction false} LockReturns(
    s: State, t: Thread, pile: seq<Handle>, newLocks: seq<Lock>, steps: seq<(Thread, Action)>)
    requires Returns(s, t, pile, newLocks, steps) && (pile != [] || newLocks != [])
    ensures var y := Run(s, steps).threads[t];
      && (forall l :: Times(y.pile, l) == Times(pile, l) + Occurrences(newLocks, l)) && Distinct(y.pile)
      && y.acquired == |y.pile| && Holds(y) == LocksIn(y.pile, 0, |y.pile|)
      && y.entry == LocksIn(pile, 0, |pile|) && y.released == if y.clean then {} else y.entry
    ensures pile != [] || |InsertedAll([], newLocks)| <= 1 ==>
      var y := Run(s, steps).threads[t]; y.clean <==> y.released == {}
  {
    var s1 := Next(s, t, Begin(newLocks));
    InsertedAllShape(pile, newLocks);
    NextInv(s, t, Begin(newLocks));
    CallKeeps(s1, t, steps[1..]);
    RunInv(s1, steps[1..]);
    var y := Run(s, steps).threads[t];
    assert HistoryOk(y) && LocalOk(y);
    if pile != [] {
      assert pile[0].lock in LocksIn(pile, 0, |pile|);
    }
  }

  /** Run(), one step at a time. */
  lemma {:induction false} RunStep(s: State, t: Thread, a: Action, rest: seq<(Thread, Action)>)
    requires Inv(s) && t in s.threads && StepsOf(s, rest)
    ensures Inv(Next(s, t, a)) && Next(s, t, a).threads.Keys == s.threads.Keys
    ensures Run(s, [(t, a)] + rest) == Run(Next(s, t, a), rest)
  {
    NextInv(s, t, a);
    assert ([(t, a)] + rest)[0] == (t, a) && ([(t, a)] + rest)[1..] == rest;
  }

  /** The thread tries to acquire `n` more locks. */
  ghost function Tries(t: Thread, n: nat): (r: seq<(Thread, Action)>)
    ensures |r| == n && forall k :: 0 <= k < n ==> r[k] == (t, Try)
  {
    if n == 0 then [] else [(t, Try)] + Tries(t, n - 1)
  }

  /** Nobody holds what the thread has yet to acquire. */
  ghost predicate RestFree(s: State, x: Local) {
    forall k :: x.acquired <= k < |x.pile| ==> Free(s, x.pile[k].lock)
  }

  lemma {:induction false} TryStep(s: State, t: Thread)
    requires Inv(s) && t in s.threads && s.threads[t].pc.Trying? && RestFree(s, s.threads[t])
    ensures var x, s' := s.threads[t], Next(s, t, Try);
      t in s'.threads && s'.threads[t] == Resumed(x.(acquired := x.acquired + 1)) && RestFree(s', s'.threads[t])
  {
    var x := s.threads[t];
    assert LocalOk(x) && Free(s, x.pile[x.acquired].lock);
  }

  lemma {:induction false} RunTries(s: State, t: Thread, n: nat)
    requires Inv(s) && t in s.threads && n > 0
    ensures Inv(Next(s, t, Try)) && t in Next(s, t, Try).threads
    ensures Run(s, Tries(t, n)) == Run(Next(s, t, Try), Tries(t, n - 1))
  {
    RunStep(s, t, Try, Tries(t, n - 1));
  }

  /** Without anyone else holding them, all remaining locks are acquired. */
  lemma {:induction false} AcquiresRest(s: State, t: Thread, n: nat)
    requires Inv(s) && t in s.threads && s.threads[t].pc.Trying? && RestFree(s, s.threads[t])
    requires 0 < n == |s.threads[t].pile| - s.threads[t].acquired
    ensures var r := Run(s, Tries(t, n));
      t in r.threads && r.threads[t] == s.threads[t].(acquired := |s.threads[t].pile|, pc := Outside)
    decreases n
  {
    TryStep(s, t);
    RunTries(s, t, n);
    if n > 1 {
      AcquiresRest(Next(s, t, Try), t, n - 1);
    }
  }

  ghost predicate Reachable(s: State) {
    exists s0, steps :: Initial(s0) && Inv(s0) && StepsOf(s0, steps) && Run(s0, steps) == s
  }

  /** Two threads, and who holds which locks. */
  ghost function Pair(owner: map<Lock, Thread>, t: Thread, x: Local, u: Thread, y: Local): State {
    State(owner, map[t := x, u := y])
  }

  /** A step of the first of two threads. */
  lemma {:induction false} PairStep(
    owner: map<Lock, Thread>, t: Thread, x: Local, u: Thread, y: Local, a: Action, x': Local, owner': map<Lock, Thread>)
    requires t != u && LocalOk(x) && StepLocal(Pair(owner, t, x, u, y), x, a).Some?
    requires var e := StepLocal(Pair(owner, t, x, u, y), x, a).value;
      e.local == x' && Owners(owner, t, e.take, e.give) == owner'
    ensures Next(Pair(owner, t, x, u, y), t, a) == Pair(owner', t, x', u, y)
    ensures Pair(owner, t, x, u, y) == Pair(owner, u, y, t, x) && Pair(owner', t, x', u, y) == Pair(owner', u, y, t, x')
  {
    assert map[t := x, u := y][t := x'] == map[t := x', u := y];
    assert map[t := x, u := y] == map[u := y, t := x] && map[t := x', u := y] == map[u := y, t := x'];
  }

  /** A thread that has called Lock() for one lock, and been given it. */
  ghost function Owning(b: Lock): Local { Local([Handle(b, 0)], 1, Outside, [Handle(b, 0)], {}, true, {}) }

  lemma {:induction false} BecomesOwning(t: Thread, u: Thread, b: Lock)
    requires t != u
    ensures var blocked := Owning(b).(acquired := 0, pc := Blocked);
      && Next(Pair(map[], t, IDLE, u, IDLE), u, Begin([b])) == Pair(map[], t, IDLE, u, blocked)
      && Next(Pair(map[], t, IDLE, u, blocked), u, Acquire) == Pair(map[b := u], t, IDLE, u, Owning(b))
  {
    var blocked := Owning(b).(acquired := 0, pc := Blocked);
    assert InsertedAll([], [b]) == InsertedAll([Handle(b, 0)], []) == [Handle(b, 0)];
    assert LocksIn([], 0, 0) == {};
    PairStep(map[], u, IDLE, t, IDLE, Begin([b]), blocked, map[]);
    PairStep(map[], u, blocked, t, IDLE, Acquire, Owning(b), map[b := u]);
  }

  lemma {:induction false} OwningReachable(t: Thread, u: Thread, b: Lock)
    requires t != u
    ensures Reachable(Pair(map[b := u], t, IDLE, u, Owning(b))) && Inv(Pair(map[b := u], t, IDLE, u, Owning(b)))
  {
    var s0 := Pair(map[], t, IDLE, u, IDLE);
    InitialInv(s0);
    BecomesOwning(t, u, b);
    RunStep(s0, u, Begin([b]), [(u, Acquire)] + []);
    RunStep(Next(s0, u, Begin([b])), u, Acquire, []);
    var steps := [(u, Begin([b]))] + ([(u, Acquire)] + []);
    assert StepsOf(s0, steps) && Run(s0, steps) == Pair(map[b := u], t, IDLE, u, Owning(b));
  }

  /** A thread that has called Lock() without holding anything; and one that, having failed to acquire the second lock
      of its pile, has released the first one. */
  ghost function Started(p: seq<Handle>): Local { Local(p, 0, Blocked, p, {}, true, {}) }

  ghost function BackedOff(p: seq<Handle>): Local
    requires |p| >= 2
  {
    Started(p).(pile := Swapped(p, 1), clean := false)
  }

  /** It has the first one, and is about to try the second one. */
  ghost function HalfWay(p: seq<Handle>): Local { Started(p).(acquired := 1, pc := Trying) }

  lemma {:induction false} GetsHalfWay(t: Thread, u: Thread, newLocks: seq<Lock>, p: seq<Handle>)
    requires t != u && p == InsertedAll([], newLocks) && Distinct(p) && |p| >= 2
    ensures var a, b, y := p[0].lock, p[1].lock, Owning(p[1].lock);
      && Next(Pair(map[b := u], t, IDLE, u, y), t, Begin(newLocks)) == Pair(map[b := u], t, Started(p), u, y)
      && Next(Pair(map[b := u], t, Started(p), u, y), t, Acquire) == Pair(map[b := u, a := t], t, HalfWay(p), u, y)
  {
    var a, b, y := p[0].lock, p[1].lock, Owning(p[1].lock);
    assert newLocks != [] && LocksIn([], 0, 0) == {};
    PairStep(map[b := u], t, IDLE, u, y, Begin(newLocks), Started(p), map[b := u]);
    PairStep(map[b := u], t, Started(p), u, y, Acquire, HalfWay(p), map[b := u, a := t]);
  }

  /** The second lock is taken, so the first one is given up for it. */
  lemma {:induction false} BacksOff(t: Thread, u: Thread, p: seq<Handle>)
    requires t != u && Distinct(p) && |p| >= 2
    ensures var a, b, y := p[0].lock, p[1].lock, Owning(p[1].lock);
      var x := HalfWay(p).(pc := Releasing(0), clean := false);
      && Next(Pair(map[b := u, a := t], t, HalfWay(p), u, y), t, Try) == Pair(map[b := u, a := t], t, x, u, y)
      && Next(Pair(map[b := u, a := t], t, x, u, y), t, Release) == Pair(map[b := u], t, BackedOff(p), u, y)
  {
    var a, b, y := p[0].lock, p[1].lock, Owning(p[1].lock);
    var x := HalfWay(p).(pc := Releasing(0), clean := false);
    PairStep(map[b := u, a := t], t, HalfWay(p), u, y, Try, x, map[b := u, a := t]);
    PairStep(map[b := u, a := t], t, x, u, y, Release, BackedOff(p), map[b := u]);
  }

  /** The other thread unlocks what it has, so that the lock can be acquired. */
  lemma {:induction false} GivesWay(t: Thread, u: Thread, p: seq<Handle>)
    requires t != u && Distinct(p) && |p| >= 2
    ensures var b, x, y := p[1].lock, BackedOff(p), Owning(p[1].lock); var gone := y.(pile := [], acquired := 0);
      && Next(Pair(map[b := u], t, x, u, y), u, UnlockAll) == Pair(map[b := u], t, x, u, y.(pc := Unlocking(0)))
      && Next(Pair(map[b := u], t, x, u, y.(pc := Unlocking(0))), u, Release) == Pair(map[], t, x, u, gone)
      && Next(Pair(map[], t, x, u, gone), t, Acquire) == Pair(map[b := t], t, x.(acquired := 1, pc := Trying), u, gone)
  {
    var b, x, y := p[1].lock, BackedOff(p), Owning(p[1].lock);
    var gone := y.(pile := [], acquired := 0);
    PairStep(map[b := u], u, y, t, x, UnlockAll, y.(pc := Unlocking(0)), map[b := u]);
    PairStep(map[b := u], u, y.(pc := Unlocking(0)), t, x, Release, gone, map[]);
    PairStep(map[], t, x, u, gone, Acquire, x.(acquired := 1, pc := Trying), map[b := t]);
  }

  /** What happens once the first lock has been released. */
  ghost function Afterwards(t: Thread, u: Thread, n: nat): seq<(Thread, Action)> {
    [(u, UnlockAll)] + ([(u, Release)] + ([(t, Acquire)] + Tries(t, n)))
  }

  lemma {:induction false} AllAcquired(t: Thread, u: Thread, p: seq<Handle>)
    requires t != u && Distinct(p) && |p| >= 2
    requires Inv(Pair(map[p[1].lock := u], t, BackedOff(p), u, Owning(p[1].lock)))
    ensures var r := Run(Pair(map[p[1].lock := u], t, BackedOff(p), u, Owning(p[1].lock)), Afterwards(t, u, |p| - 1));
      t in r.threads && r.threads[t] == BackedOff(p).(acquired := |p|, pc := Outside)
  {
    var n, s := |p| - 1, Pair(map[p[1].lock := u], t, BackedOff(p), u, Owning(p[1].lock));
    GivesWay(t, u, p);
    RunStep(s, u, UnlockAll, [(u, Release)] + ([(t, Acquire)] + Tries(t, n)));
    var s' := Next(s, u, UnlockAll);
    RunStep(s', u, Release, [(t, Acquire)] + Tries(t, n));
    var s'' := Next(s', u, Release);
    RunStep(s'', t, Acquire, Tries(t, n));
    AcquiresRest(Next(s'', t, Acquire), t, n);
  }

  /** The whole call. */
  ghost function WholeCall(t: Thread, u: Thread, newLocks: seq<Lock>, n: nat): seq<(Thread, Action)> {
    [(t, Begin(newLocks))] + ([(t, Acquire)] + ([(t, Try)] + ([(t, Release)] + Afterwards(t, u, n))))
  }

  lemma {:induction false} WholeCallIsCall(t: Thread, u: Thread, newLocks: seq<Lock>, n: nat)
    requires t != u
    ensures var steps := WholeCall(t, u, newLocks, n);
      IsCall(t, newLocks, steps) && forall k :: 0 <= k < |steps| ==> steps[k].0 == t || steps[k].0 == u
  {
  }

  lemma {:induction false} SecondHalfRuns(t: Thread, u: Thread, p: seq<Handle>)
    requires t != u && Distinct(p) && |p| >= 2
    requires Inv(Pair(map[p[1].lock := u, p[0].lock := t], t, HalfWay(p), u, Owning(p[1].lock)))
    ensures var s := Pair(map[p[1].lock := u, p[0].lock := t], t, HalfWay(p), u, Owning(p[1].lock));
      var r := Run(s, [(t, Try)] + ([(t, Release)] + Afterwards(t, u, |p| - 1)));
      t in r.threads && r.threads[t] == BackedOff(p).(acquired := |p|, pc := Outside)
  {
    var s := Pair(map[p[1].lock := u, p[0].lock := t], t, HalfWay(p), u, Owning(p[1].lock));
    var rest := Afterwards(t, u, |p| - 1);
    BacksOff(t, u, p);
    RunStep(s, t, Try, [(t, Release)] + rest);
    RunStep(Next(s, t, Try), t, Release, rest);
    AllAcquired(t, u, p);
  }

  lemma {:induction false} WholeCallRuns(t: Thread, u: Thread, newLocks: seq<Lock>, p: seq<Handle>)
    requires t != u && p == InsertedAll([], newLocks) && Distinct(p) && |p| >= 2
    requires Inv(Pair(map[p[1].lock := u], t, IDLE, u, Owning(p[1].lock)))
    requires StepsOf(Pair(map[p[1].lock := u], t, IDLE, u, Owning(p[1].lock)), WholeCall(t, u, newLocks, |p| - 1))
    ensures var s := Pair(map[p[1].lock := u], t, IDLE, u, Owning(p[1].lock));
      var r := Run(s, WholeCall(t, u, newLocks, |p| - 1));
      t in r.threads && r.threads[t] == BackedOff(p).(acquired := |p|, pc := Outside)
  {
    var s := Pair(map[p[1].lock := u], t, IDLE, u, Owning(p[1].lock));
    var rest := [(t, Try)] + ([(t, Release)] + Afterwards(t, u, |p| - 1));
    GetsHalfWay(t, u, newLocks, p);
    RunStep(s, t, Begin(newLocks), [(t, Acquire)] + rest);
    RunStep(Next(s, t, Begin(newLocks)), t, Acquire, rest);
    SecondHalfRuns(t, u, p);
  }

  /** The documentation says that the result is true if and only if none of the locks already owned was released. For
      any two or more locks, there is a run in which it is not: another thread has the second one when Lock() is called
      by a thread that owns nothing. The result is false, even though there was nothing to release. */
  lemma {:induction false} FalseWithoutRelease(t: Thread, u: Thread, newLocks: seq<Lock>)
    returns (s: State, steps: seq<(Thread, Action)>)
    requires t != u && |InsertedAll([], newLocks)| >= 2
    ensures Reachable(s) && Returns(s, t, [], newLocks, steps)
    ensures var y := Run(s, steps).threads[t]; !y.clean && y.entry == {} && y.released == {}
  {
    var p := InsertedAll([], newLocks);
    InsertedAllShape([], newLocks);
    s, steps := Pair(map[p[1].lock := u], t, IDLE, u, Owning(p[1].lock)), WholeCall(t, u, newLocks, |p| - 1);
    OwningReachable(t, u, p[1].lock);
    WholeCallIsCall(t, u, newLocks, |p| - 1);
    WholeCallRuns(t, u, newLocks, p);
  }

  /** Exactly when the documentation is right, for every pile and list of new locks, and whatever other threads do: if
      any lock is in the pile already, or there is only one new lock. */
  lemma {:induction false} ResultTellsRelease(pile: seq<Handle>, newLocks: seq<Lock>)
    requires pile != [] || newLocks != []
    ensures
      (forall s, t, steps :: Reachable(s) && Returns(s, t, pile, newLocks, steps) ==>
         var y := Run(s, steps).threads[t]; y.clean <==> y.released == {})
      <==> pile != [] || |InsertedAll([], newLocks)| <= 1
  {
    if pile != [] || |InsertedAll([], newLocks)| <= 1 {
      forall s, t, steps | Reachable(s) && Returns(s, t, pile, newLocks, steps)
        ensures var y := Run(s, steps).threads[t]; y.clean <==> y.released == {}
      {
        LockReturns(s, t, pile, newLocks, steps);
      }
    } else {
      var s, steps := FalseWithoutRelease(0, 1, newLocks);
    }
  }
}
