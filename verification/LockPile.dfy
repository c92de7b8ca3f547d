/**
 pkg/sync/lock_pile.go: a pile of locks held by one thread, while other threads lock and unlock.
 */
module LockPile {
  import opened Common

  type Lock = nat
  type Thread = nat

  datatype Handle = Handle(lock: Lock, recursion: nat)

  // ----- Piles -----

  ghost predicate Distinct(p: seq<Handle>) { forall i, j :: 0 <= i < j < |p| ==> p[i].lock != p[j].lock }

  ghost function LocksOf(p: seq<Handle>): set<Lock> { set i | 0 <= i < |p| :: p[i].lock }

  /** How many times a lock has been acquired through the pile. */
  ghost function Times(p: seq<Handle>, l: Lock): nat {
    if p == [] then 0 else (if p[0].lock == l then p[0].recursion + 1 else 0) + Times(p[1..], l)
  }

  function Occurrences(ls: seq<Lock>, l: Lock): nat {
    if ls == [] then 0 else (if ls[0] == l then 1 else 0) + Occurrences(ls[1..], l)
  }

  /** insert() */
  method Insert(p: seq<Handle>, l: Lock) returns (r: seq<Handle>)
    ensures r == Inserted(p, l)
  {
    var i := 0;
    while i < |p|
      invariant i <= |p| && forall k :: 0 <= k < i ==> p[k].lock != l
    {
      if p[i].lock == l {
        InsertedAt(p, l, i);
        return p[i := p[i].(recursion := p[i].recursion + 1)];
      }
      i := i + 1;
    }
    InsertedNew(p, l);
    r := p + [Handle(l, 0)];
  }

  ghost function Inserted(p: seq<Handle>, l: Lock): seq<Handle> {
    if p == [] then [Handle(l, 0)]
    else if p[0].lock == l then [p[0].(recursion := p[0].recursion + 1)] + p[1..]
    else [p[0]] + Inserted(p[1..], l)
  }

  lemma {:induction false} InsertedAt(p: seq<Handle>, l: Lock, i: nat)
    requires i < |p| && p[i].lock == l && forall k :: 0 <= k < i ==> p[k].lock != l
    ensures Inserted(p, l) == p[i := p[i].(recursion := p[i].recursion + 1)]
  {
    if i > 0 { InsertedAt(p[1..], l, i - 1); }
  }

  lemma {:induction false} InsertedNew(p: seq<Handle>, l: Lock)
    requires forall k :: 0 <= k < |p| ==> p[k].lock != l
    ensures Inserted(p, l) == p + [Handle(l, 0)]
  {
    if p != [] { InsertedNew(p[1..], l); }
  }

  ghost function InsertedAll(p: seq<Handle>, ls: seq<Lock>): seq<Handle>
    decreases ls
  {
    if ls == [] then p else InsertedAll(Inserted(p, ls[0]), ls[1..])
  }

  /** A new lock goes to the end, a known one is counted once more; the first ones stay where they are. */
  lemma {:induction false} InsertedShape(p: seq<Handle>, l: Lock)
    requires Distinct(p)
    ensures var r := Inserted(p, l);
      && Distinct(r) && |p| <= |r| && |r| > 0 && (forall k :: 0 <= k < |p| ==> r[k].lock == p[k].lock)
      && (forall x :: x in LocksOf(r) <==> x in LocksOf(p) || x == l)
  {
    if i :| 0 <= i < |p| && p[i].lock == l {
      forall k | 0 <= k < i ensures p[k].lock != l {}
      InsertedAt(p, l, i);
      var r := Inserted(p, l);
      forall x ensures x in LocksOf(r) <==> x in LocksOf(p) { SameLocks(p, r, x); }
    } else {
      InsertedNew(p, l);
      var r := Inserted(p, l);
      assert r[|p|].lock == l;
      forall x | x in LocksOf(p) ensures x in LocksOf(r) {
        var k :| 0 <= k < |p| && p[k].lock == x;
        assert r[k].lock == x;
      }
    }
  }

  lemma {:induction false} SameLocks(p: seq<Handle>, r: seq<Handle>, x: Lock)
    requires |p| == |r| && forall k :: 0 <= k < |p| ==> r[k].lock == p[k].lock
    ensures x in LocksOf(r) <==> x in LocksOf(p)
  {
    if x in LocksOf(p) {
      var k :| 0 <= k < |p| && p[k].lock == x;
      assert r[k].lock == x;
    }
    if x in LocksOf(r) {
      var k :| 0 <= k < |r| && r[k].lock == x;
      assert p[k].lock == x;
    }
  }

  lemma {:induction false} InsertedTimes(p: seq<Handle>, l: Lock, x: Lock)
    ensures Times(Inserted(p, l), x) == Times(p, x) + if x == l then 1 else 0
  {
    if p != [] && p[0].lock != l {
      InsertedTimes(p[1..], l, x);
      assert Inserted(p, l)[1..] == Inserted(p[1..], l);
    } else if p != [] {
      assert Inserted(p, l)[1..] == p[1..];
    }
  }

  lemma {:induction false} InsertedAllShape(p: seq<Handle>, ls: seq<Lock>)
    requires Distinct(p)
    ensures var r := InsertedAll(p, ls);
      && Distinct(r) && |p| <= |r| && (p != [] || ls != [] ==> |r| > 0)
      && (forall k :: 0 <= k < |p| ==> r[k].lock == p[k].lock)
    ensures forall x :: Times(InsertedAll(p, ls), x) == Times(p, x) + Occurrences(ls, x)
    decreases ls
  {
    if ls != [] {
      InsertedShape(p, ls[0]);
      InsertedAllShape(Inserted(p, ls[0]), ls[1..]);
      forall x ensures Times(InsertedAll(p, ls), x) == Times(p, x) + Occurrences(ls, x) { InsertedTimes(p, ls[0], x); }
    }
  }

  /** Swapping two handles, as Lock() does before it blocks. */
  ghost function Swapped(p: seq<Handle>, k: nat): seq<Handle>
    requires 0 < k < |p|
  {
    p[0 := p[k]][k := p[0]]
  }

  lemma {:induction false} TimesConcat(a: seq<Handle>, b: seq<Handle>, x: Lock)
    ensures Times(a + b, x) == Times(a, x) + Times(b, x)
  {
    if a == [] {
      assert a + b == b;
    } else {
      assert (a + b)[1..] == a[1..] + b;
      TimesConcat(a[1..], b, x);
    }
  }

  lemma {:induction false} SwappedTimes(p: seq<Handle>, k: nat, x: Lock)
    requires 0 < k < |p|
    ensures Times(Swapped(p, k), x) == Times(p, x)
  {
    var q, m, e := Swapped(p, k), p[1..k], p[k + 1..];
    assert p == [p[0]] + m + [p[k]] + e && q == [p[k]] + m + [p[0]] + e;
    TimesConcat([p[0]] + m + [p[k]], e, x);
    TimesConcat([p[0]] + m, [p[k]], x);
    TimesConcat([p[0]], m, x);
    TimesConcat([p[k]] + m + [p[0]], e, x);
    TimesConcat([p[k]] + m, [p[0]], x);
    TimesConcat([p[k]], m, x);
  }

  // ----- Parts of piles -----

  ghost function LocksIn(p: seq<Handle>, lo: int, hi: int): set<Lock>
    requires 0 <= lo && hi <= |p|
  {
    set i | lo <= i < hi :: p[i].lock
  }

  lemma {:induction false} LocksInSame(p: seq<Handle>, r: seq<Handle>, hi: nat)
    requires hi <= |p| && hi <= |r| && forall k :: 0 <= k < hi ==> r[k].lock == p[k].lock
    ensures LocksIn(p, 0, hi) == LocksIn(r, 0, hi)
  {
    forall l ensures l in LocksIn(p, 0, hi) <==> l in LocksIn(r, 0, hi) {
      if l in LocksIn(p, 0, hi) {
        var k :| 0 <= k < hi && p[k].lock == l;
        assert r[k].lock == l;
      }
      if l in LocksIn(r, 0, hi) {
        var k :| 0 <= k < hi && r[k].lock == l;
        assert p[k].lock == l;
      }
    }
  }

  lemma {:induction false} LocksInGrow(p: seq<Handle>, hi: nat)
    requires hi < |p|
    ensures LocksIn(p, 0, hi + 1) == LocksIn(p, 0, hi) + {p[hi].lock}
  {
    assert forall l :: l in LocksIn(p, 0, hi) ==> l in LocksIn(p, 0, hi + 1);
  }

  lemma {:induction false} LocksInShrink(p: seq<Handle>, lo: nat, hi: nat)
    requires Distinct(p) && lo < hi <= |p|
    ensures LocksIn(p, lo + 1, hi) == LocksIn(p, lo, hi) - {p[lo].lock}
  {
    forall l | l in LocksIn(p, lo, hi) && l != p[lo].lock ensures l in LocksIn(p, lo + 1, hi) {
      var k :| lo <= k < hi && p[k].lock == l;
    }
    forall l | l in LocksIn(p, lo + 1, hi) ensures l in LocksIn(p, lo, hi) && l != p[lo].lock {
      var k :| lo + 1 <= k < hi && p[k].lock == l;
    }
  }

  lemma {:induction false} LocksInRemoved(p: seq<Handle>, i: nat)
    requires Distinct(p) && i < |p|
    ensures var n := |p| - 1; var r := p[i := p[n]][..n];
      LocksIn(r, 0, n) == LocksIn(p, 0, |p|) - {p[i].lock}
  {
    var n := |p| - 1;
    var r := p[i := p[n]][..n];
    forall l | l in LocksIn(p, 0, |p|) && l != p[i].lock ensures l in LocksIn(r, 0, n) {
      var k :| 0 <= k < |p| && p[k].lock == l;
      assert r[if k == n then i else k].lock == l;
    }
    forall l | l in LocksIn(r, 0, n) ensures l in LocksIn(p, 0, |p|) && l != p[i].lock {
      var k :| 0 <= k < n && r[k].lock == l;
      assert p[if k == i then n else k].lock == l;
    }
  }

  // ----- One thread among others -----

  /** All locks there are. Whenever a thread touches one, others may have acquired and released theirs in the meantime;
      they never touch those of another thread. They get in the way of calls to TryLock() only so many times. */
  datatype Attempt = Tried(lock: Lock, ok: bool) | Waited(lock: Lock)

  /** From some point on: whoever is refused a lock goes on to wait for that one, and nobody waits for anything else,
      but for the very first lock. */
  ghost predicate WaitsForRefused(log: seq<Attempt>, from: nat, first: bool) {
    forall k: nat :: from <= k < |log| ==> FollowedUp(log, k) && HasCause(log, k, from, first)
  }

  ghost predicate FollowedUp(log: seq<Attempt>, k: nat)
    requires k < |log|
  {
    log[k].Tried? && !log[k].ok ==> k + 1 < |log| && log[k + 1] == Waited(log[k].lock)
  }

  ghost predicate HasCause(log: seq<Attempt>, k: nat, from: nat, first: bool)
    requires from <= k < |log|
  {
    log[k].Waited? ==> if k == from then first else log[k - 1] == Tried(log[k].lock, false)
  }

  lemma {:induction false} LogGranted(log: seq<Attempt>, from: nat, first: bool, l: Lock)
    requires WaitsForRefused(log, from, first) && from <= |log|
    ensures WaitsForRefused(log + [Tried(l, true)], from, first)
  {
    var r := log + [Tried(l, true)];
    forall k: nat | from <= k < |r| ensures FollowedUp(r, k) && HasCause(r, k, from, first) {
      if k < |log| { assert FollowedUp(log, k) && HasCause(log, k, from, first); }
    }
  }

  lemma {:induction false} LogRefused(log: seq<Attempt>, from: nat, first: bool, l: Lock)
    requires WaitsForRefused(log, from, first) && from <= |log|
    ensures WaitsForRefused(log + [Tried(l, false)] + [Waited(l)], from, first)
  {
    var r := log + [Tried(l, false)] + [Waited(l)];
    forall k: nat | from <= k < |r| ensures FollowedUp(r, k) && HasCause(r, k, from, first) {
      if k < |log| { assert FollowedUp(log, k) && HasCause(log, k, from, first); }
    }
  }

  lemma {:induction false} LogFirst(log: seq<Attempt>, l: Lock)
    ensures WaitsForRefused(log + [Waited(l)], |log|, true)
  {
  }

  class LockTable {
    var owner: map<Lock, Thread>
    var patience: nat
    ghost var log: seq<Attempt>         // what the thread has tried and waited for

    ghost function HeldBy(t: Thread): set<Lock>
      reads `owner
    {
      set l | l in owner && owner[l] == t
    }

    /** What other threads do. */
    method Interfere(t: Thread)
      modifies `owner
      ensures HeldBy(t) == old(HeldBy(t))
    {
      var other: map<Lock, Thread> := *;
      owner := (map l: Lock | l in other && other[l] != t && !(l in owner && owner[l] == t) :: other[l])
               + (map l: Lock | l in owner && owner[l] == t :: t);
    }

    /** TryLock() */
    method TryLock(t: Thread, l: Lock) returns (ok: bool)
      requires l !in HeldBy(t)
      modifies this
      ensures HeldBy(t) == if ok then old(HeldBy(t)) + {l} else old(HeldBy(t))
      ensures patience <= old(patience) && (!ok ==> patience < old(patience))
      ensures log == old(log) + [Tried(l, ok)]
    {
      Interfere(t);
      assert l !in HeldBy(t);
      if l in owner && patience == 0 {
        owner := owner - {l};
      }
      ok := l !in owner;
      if ok {
        owner := owner[l := t];
      } else {
        patience := patience - 1;
      }
      log := log + [Tried(l, ok)];
    }

    /** Lock(): waits for whoever holds the lock. A thread that holds locks itself must not do so. */
    method BlockingLock(t: Thread, l: Lock)
      requires HeldBy(t) == {}
      modifies `owner, `log
      ensures HeldBy(t) == {l}
      ensures log == old(log) + [Waited(l)]
    {
      Interfere(t);
      owner := (owner - {l})[l := t];
      log := log + [Waited(l)];
    }

    /** Unlock(), which panics for a lock that is not locked. */
    method Unlock(t: Thread, l: Lock)
      requires l in HeldBy(t)
      modifies `owner
      ensures HeldBy(t) == old(HeldBy(t)) - {l}
    {
      owner := owner - {l};
      Interfere(t);
    }
  }

  class Pile {
    const me: Thread
    const table: LockTable
    var handles: seq<Handle>
    ghost var released: set<Lock>     // the locks released during the last call to Lock()

    /** The thread holds exactly the locks in its pile. */
    ghost predicate Valid()
      reads this, table
    {
      Distinct(handles) && table.HeldBy(me) == LocksIn(handles, 0, |handles|)
    }

    constructor (me: Thread, table: LockTable)
      requires table.HeldBy(me) == {}
      ensures Valid() && handles == [] && this.me == me && this.table == table
    {
      this.me, this.table, handles := me, table, [];
    }

    /** Lock(): afterwards, the pile has the old and the new locks, each as often as it has been locked. A result of
        true means that no lock was released; a result of false that all old locks were. */
    method Lock(newLocks: seq<Lock>) returns (clean: bool)
      requires Valid() && (handles != [] || newLocks != [])
      modifies `handles, `released, table
      ensures Valid() && (forall l :: Times(handles, l) == Times(old(handles), l) + Occurrences(newLocks, l))
      ensures clean ==> released == {}
      ensures !clean ==> LocksIn(old(handles), 0, |old(handles)|) <= released && |handles| >= 2
      ensures old(table.log) <= table.log && WaitsForRefused(table.log, |old(table.log)|, old(handles) == [])
    {
      var acquired := |handles|;
      InsertedAllShape(handles, newLocks);
      InsertAll(newLocks);
      LocksInSame(old(handles), handles, acquired);
      released, clean := {}, true;
      while acquired < |handles|
        invariant 0 <= acquired <= |handles| && Distinct(handles) && table.HeldBy(me) == LocksIn(handles, 0, acquired)
        invariant forall l :: Times(handles, l) == Times(old(handles), l) + Occurrences(newLocks, l)
        invariant clean ==>
          released == {} && (acquired > 0 ==> LocksIn(old(handles), 0, |old(handles)|) <= LocksIn(handles, 0, acquired))
        invariant clean && acquired == 0 ==> old(handles) == [] && table.log == old(table.log)
        invariant old(table.log) <= table.log && WaitsForRefused(table.log, |old(table.log)|, old(handles) == [])
        invariant !clean ==> acquired > 0 && LocksIn(old(handles), 0, |old(handles)|) <= released && |handles| >= 2
        decreases table.patience, |handles| - acquired
      {
        if acquired > 0 {
          NotAmong(handles, acquired);
          ghost var log, l := table.log, handles[acquired].lock;
          var ok := table.TryLock(me, handles[acquired].lock);
          if ok {
            LogGranted(log, |old(table.log)|, old(handles) == [], l);
            LocksInGrow(handles, acquired);
            acquired := acquired + 1;
            continue;
          }
          clean := false;
          Backtrack(acquired);
          LogRefused(log, |old(table.log)|, old(handles) == [], l);
        } else {
          LogFirst(old(table.log), handles[0].lock);
        }
        table.BlockingLock(me, handles[0].lock);
        acquired := 1;
        assert LocksIn(handles, 0, 1) == {handles[0].lock};
      }
    }

    method InsertAll(newLocks: seq<Lock>)
      modifies `handles
      ensures handles == InsertedAll(old(handles), newLocks)
    {
      var k := 0;
      while k < |newLocks|
        invariant k <= |newLocks| && InsertedAll(old(handles), newLocks) == InsertedAll(handles, newLocks[k..])
      {
        handles := Insert(handles, newLocks[k]);
        assert newLocks[k..][1..] == newLocks[k + 1..];
        k := k + 1;
      }
    }

    /** Releases all locks, and moves the one that could not be acquired to the front. */
    method Backtrack(acquired: nat)
      requires 0 < acquired < |handles| && Distinct(handles) && table.HeldBy(me) == LocksIn(handles, 0, acquired)
      modifies `handles, `released, table`owner
      ensures table.HeldBy(me) == {} && released == old(released) + LocksIn(old(handles), 0, acquired)
      ensures Distinct(handles) && handles == Swapped(old(handles), acquired)
      ensures forall l :: Times(handles, l) == Times(old(handles), l)
    {
      var i := 0;
      while i < acquired
        invariant i <= acquired && handles == old(handles) && table.HeldBy(me) == LocksIn(handles, i, acquired)
        invariant released == old(released) + LocksIn(handles, 0, i)
      {
        assert handles[i].lock in LocksIn(handles, i, acquired);
        table.Unlock(me, handles[i].lock);
        LocksInShrink(handles, i, acquired);
        LocksInGrow(handles, i);
        released := released + {handles[i].lock};
        i := i + 1;
      }
      forall l ensures Times(Swapped(handles, acquired), l) == Times(handles, l) { SwappedTimes(handles, acquired, l); }
      handles := handles[0 := handles[acquired]][acquired := handles[0]];
    }

    /** Unlock(). The lock has to be in the pile. */
    method Unlock(oldLock: Lock)
      requires Valid() && oldLock in LocksIn(handles, 0, |handles|)
      modifies `handles, table`owner
      ensures Valid() && forall l :: Times(handles, l) == Times(old(handles), l) - if l == oldLock then 1 else 0
    {
      var i := 0;
      while handles[i].lock != oldLock
        invariant i < |handles| && forall k :: 0 <= k < i ==> handles[k].lock != oldLock
        decreases |handles| - i
      {
        i := i + 1;
      }
      if handles[i].recursion > 0 {
        ghost var r := handles[i := handles[i].(recursion := handles[i].recursion - 1)];
        LocksInSame(handles, r, |handles|);
        forall l ensures Times(r, l) == Times(handles, l) - if l == oldLock then 1 else 0 {
          LoweredTimes(handles, i, l);
        }
        handles := handles[i := handles[i].(recursion := handles[i].recursion - 1)];
      } else {
        var n := |handles| - 1;
        ghost var r := handles[i := handles[n]][..n];
        table.Unlock(me, handles[i].lock);
        LocksInRemoved(handles, i);
        forall l ensures Times(r, l) == Times(handles, l) - if l == oldLock then 1 else 0 {
          RemovedTimes(handles, i, l);
        }
        handles := handles[i := handles[n]][..n];
      }
    }

    /** UnlockAll() */
    method UnlockAll()
      requires Valid()
      modifies `handles, table`owner
      ensures Valid() && handles == [] && table.HeldBy(me) == {}
    {
      var i := 0;
      while i < |handles|
        invariant i <= |handles| && handles == old(handles) && table.HeldBy(me) == LocksIn(handles, i, |handles|)
      {
        assert handles[i].lock in LocksIn(handles, i, |handles|);
        table.Unlock(me, handles[i].lock);
        LocksInShrink(handles, i, |handles|);
        i := i + 1;
      }
      handles := [];
    }
  }

  lemma {:induction false} NotAmong(p: seq<Handle>, k: nat)
    requires Distinct(p) && k < |p|
    ensures p[k].lock !in LocksIn(p, 0, k)
  {
  }

  lemma {:induction false} TimesAt(p: seq<Handle>, i: nat, l: Lock)
    requires i < |p|
    ensures Times(p, l) == Times(p[..i], l) + (if p[i].lock == l then p[i].recursion + 1 else 0) + Times(p[i + 1..], l)
  {
    assert p == p[..i] + [p[i]] + p[i + 1..];
    TimesConcat(p[..i] + [p[i]], p[i + 1..], l);
    TimesConcat(p[..i], [p[i]], l);
  }

  lemma {:induction false} LoweredTimes(p: seq<Handle>, i: nat, l: Lock)
    requires i < |p| && p[i].recursion > 0
    ensures Times(p[i := p[i].(recursion := p[i].recursion - 1)], l) == Times(p, l) - if l == p[i].lock then 1 else 0
  {
    var r := p[i := p[i].(recursion := p[i].recursion - 1)];
    TimesAt(p, i, l);
    TimesAt(r, i, l);
    assert r[..i] == p[..i] && r[i + 1..] == p[i + 1..];
  }

  lemma {:induction false} RemovedTimes(p: seq<Handle>, i: nat, l: Lock)
    requires i < |p| && p[i].recursion == 0
    ensures Times(p[i := p[|p| - 1]][..|p| - 1], l) == Times(p, l) - if l == p[i].lock then 1 else 0
  {
    var n := |p| - 1;
    var r := p[i := p[n]][..n];
    TimesAt(p, n, l);
    assert p[n + 1..] == [];
    if i < n {
      TimesAt(p[..n], i, l);
      TimesAt(r, i, l);
      assert r[..i] == p[..n][..i] && r[i + 1..] == p[..n][i + 1..];
    } else {
      assert r == p[..n];
    }
  }
}
