/**
 pkg/clock/suspendable_clock.go: a clock that can be suspended, and timers that run while it is not.
 Times and durations are integers; time starts at the epoch.
 */
module SuspendableClock {
  /** The clock is suspended once more, or once less. */
  datatype Change = Change(at: int, suspend: bool)

  // ----- What time is spent on -----

  /** How many times the clock is suspended. */
  ghost function Suspensions(changes: seq<Change>): int {
    if changes == [] then 0
    else Suspensions(changes[..|changes| - 1]) + if changes[|changes| - 1].suspend then 1 else -1
  }

  ghost function LastChange(changes: seq<Change>): int { if changes == [] then 0 else changes[|changes| - 1].at }

  /** Changes happen one after another, and there is never more to resume than was suspended. */
  ghost predicate History(changes: seq<Change>) {
    changes == [] || (
      var n := |changes| - 1;
      History(changes[..n]) && LastChange(changes[..n]) <= changes[n].at && Suspensions(changes) >= 0)
  }

  /** The summed length of all intervals up to a point in time during which the clock is not suspended. */
  ghost function Unsuspended(changes: seq<Change>, t: int): int {
    if changes == [] then t
    else
      var n := |changes| - 1;
      if t < changes[n].at then Unsuspended(changes[..n], t)
      else Unsuspended(changes[..n], changes[n].at) + if Suspensions(changes) == 0 then t - changes[n].at else 0
  }

  /** It never decreases, and never grows faster than time. */
  lemma {:induction false} UnsuspendedGrows(changes: seq<Change>, t: int, u: int)
    requires History(changes) && t <= u
    ensures Unsuspended(changes, t) <= Unsuspended(changes, u) <= Unsuspended(changes, t) + (u - t)
  {
    if changes != [] {
      var n := |changes| - 1;
      if u < changes[n].at {
        UnsuspendedGrows(changes[..n], t, u);
      } else if t < changes[n].at {
        UnsuspendedGrows(changes[..n], t, changes[n].at);
      }
    }
  }

  /** It grows as fast as time while the clock is not suspended, and not at all while it is. */
  lemma {:induction false} UnsuspendedRate(changes: seq<Change>, k: nat, t: int, u: int)
    requires History(changes) && k <= |changes| && t <= u
    requires (k > 0 ==> changes[k - 1].at <= t) && (k < |changes| ==> u < changes[k].at)
    ensures Unsuspended(changes, u) - Unsuspended(changes, t) == if Suspensions(changes[..k]) == 0 then u - t else 0
    decreases |changes|
  {
    if k < |changes| {
      var n := |changes| - 1;
      InOrder(changes, k);
      assert changes[..n][..k] == changes[..k];
      UnsuspendedRate(changes[..n], k, t, u);
    } else {
      assert changes[..k] == changes;
    }
  }

  lemma {:induction false} InOrder(changes: seq<Change>, k: nat)
    requires History(changes) && k < |changes|
    ensures changes[k].at <= changes[|changes| - 1].at
  {
    var n := |changes| - 1;
    if k < n { InOrder(changes[..n], k); }
  }

  /** What happens later does not matter. */
  lemma {:induction false} UnsuspendedBefore(changes: seq<Change>, c: Change, t: int)
    requires t <= c.at && LastChange(changes) <= c.at
    ensures Unsuspended(changes + [c], t) == Unsuspended(changes, t)
  {
    assert (changes + [c])[..|changes|] == changes;
  }

  // ----- The clock -----

  class Clock {
    const maximumSuspension: int
    const timeoutThreshold: int
    var suspensionCount: nat
    var unsuspensionStart: int
    var totalUnsuspended: int
    ghost var changes: seq<Change>

    ghost predicate Valid()
      reads this
    {
      && History(changes) && suspensionCount == Suspensions(changes)
      && (if suspensionCount == 0 then
            unsuspensionStart == LastChange(changes) && totalUnsuspended == Unsuspended(changes, unsuspensionStart)
          else totalUnsuspended == Unsuspended(changes, LastChange(changes)))
    }

    constructor (maximumSuspension: int, timeoutThreshold: int)
      ensures Valid() && changes == [] && this.maximumSuspension == maximumSuspension
      ensures this.timeoutThreshold == timeoutThreshold
    {
      this.maximumSuspension, this.timeoutThreshold := maximumSuspension, timeoutThreshold;
      suspensionCount, unsuspensionStart, totalUnsuspended, changes := 0, 0, 0, [];
    }

    /** Suspend() */
    method Suspend(now: int)
      requires Valid() && LastChange(changes) <= now
      modifies this
      ensures Valid() && changes == old(changes) + [Change(now, true)]
    {
      if suspensionCount == 0 {
        totalUnsuspended := totalUnsuspended + (now - unsuspensionStart);
      }
      suspensionCount := suspensionCount + 1;
      Continued(changes, Change(now, true));
      changes := changes + [Change(now, true)];
    }

    /** Resume(), which panics if the clock is not suspended. */
    method Resume(now: int)
      requires Valid() && LastChange(changes) <= now && suspensionCount > 0
      modifies this
      ensures Valid() && changes == old(changes) + [Change(now, false)]
    {
      suspensionCount := suspensionCount - 1;
      if suspensionCount == 0 {
        unsuspensionStart := now;
      }
      Continued(changes, Change(now, false));
      changes := changes + [Change(now, false)];
    }

    /** getTotalUnsuspendedNow() */
    method TotalUnsuspendedNow(now: int) returns (total: int)
      requires Valid() && LastChange(changes) <= now
      ensures total == Unsuspended(changes, now)
    {
      total := totalUnsuspended;
      if suspensionCount == 0 {
        total := total + (now - unsuspensionStart);
      }
      if changes != [] { AfterLast(changes, now); }
    }

    /** getTotalUnsuspendedWithTime(): the given time may be older than the last change. */
    method TotalUnsuspendedWithTime(now: int) returns (total: int)
      requires Valid()
      ensures total == Unsuspended(changes, if now < LastChange(changes) then LastChange(changes) else now)
    {
      total := totalUnsuspended;
      if suspensionCount == 0 && now > unsuspensionStart {
        total := total + (now - unsuspensionStart);
      }
      if changes != [] { AfterLast(changes, if now < LastChange(changes) then LastChange(changes) else now); }
    }
  }

  lemma {:induction false} AfterLast(changes: seq<Change>, t: int)
    requires History(changes) && changes != [] && LastChange(changes) <= t
    ensures Unsuspended(changes, t) ==
      Unsuspended(changes, LastChange(changes)) + if Suspensions(changes) == 0 then t - LastChange(changes) else 0
  {
  }

  lemma {:induction false} Continued(changes: seq<Change>, c: Change)
    requires History(changes) && LastChange(changes) <= c.at && (c.suspend || Suspensions(changes) > 0)
    ensures var r := changes + [c];
      && History(r) && LastChange(r) == c.at && Suspensions(r) == Suspensions(changes) + (if c.suspend then 1 else -1)
      && Unsuspended(r, c.at) == Unsuspended(changes, c.at)
    ensures var grown := if Suspensions(changes) == 0 then c.at - LastChange(changes) else 0;
      changes != [] ==> Unsuspended(changes, c.at) == Unsuspended(changes, LastChange(changes)) + grown
  {
    var r := changes + [c];
    assert r[..|changes|] == changes;
    if changes != [] { AfterLast(changes, c.at); }
  }

  // ----- Timers -----

  /** What a timer waits for: its base timer expires, and it gets hold of the lock some time later; the timer that
      bounds the suspension expires; or it is stopped. In the meantime, others suspend and resume the clock. */
  datatype Outcome = Expired(at: int, locked: int) | MaximumReached(at: int) | StopCalled
  datatype Wait = Wait(changes: seq<Change>, outcome: Outcome)

  /** What becomes of a timer. For a context, `unsuspended` is what it reports as the duration. */
  datatype Result = Fired(at: int, unsuspended: int) | FiredAtMaximum(at: int) | Stopped | Pending

  /** The history, and the time, after others have done what is possible of the given changes. */
  ghost function Changed(changes: seq<Change>, more: seq<Change>, now: int): (seq<Change>, int)
    decreases more
  {
    if more == [] then (changes, now)
    else if now <= more[0].at && (more[0].suspend || Suspensions(changes) > 0) then
      Changed(changes + [more[0]], more[1..], more[0].at)
    else Changed(changes, more[1..], now)
  }

  /** If all of the changes are possible, that is all of them. */
  lemma {:induction false} ChangedByAll(changes: seq<Change>, more: seq<Change>, now: int)
    requires History(changes + more) && LastChange(changes) <= now && (more != [] ==> now <= more[0].at)
    ensures Changed(changes, more, now) == (changes + more, if more == [] then now else more[|more| - 1].at)
    decreases more
  {
    if more == [] {
      assert changes + more == changes;
    } else {
      var c := changes + [more[0]];
      assert changes + more == c + more[1..];
      HistoryPrefix(c, more[1..]);
      if |more| > 1 {
        var d := c + [more[1]];
        assert c + more[1..] == d + more[2..];
        HistoryPrefix(d, more[2..]);
        assert d[..|c|] == c;
      }
      assert c[..|changes|] == changes;
      ChangedByAll(c, more[1..], more[0].at);
    }
  }

  lemma {:induction false} HistoryPrefix(changes: seq<Change>, more: seq<Change>)
    requires History(changes + more)
    ensures History(changes)
    decreases more
  {
    if more == [] {
      assert changes + more == changes;
    } else {
      var n := |more| - 1;
      assert (changes + more)[..|changes| + n] == changes + more[..n];
      HistoryPrefix(changes, more[..n]);
    }
  }

  /** What others do from a point in time on, as far as it is possible. */
  method Apply(c: Clock, changes: seq<Change>, from: int, ghost start: int) returns (now: int)
    requires c.Valid() && LastChange(c.changes) <= from && start <= from
    modifies c
    ensures c.Valid() && from <= now && LastChange(c.changes) <= now
    ensures (c.changes, now) == Changed(old(c.changes), changes, from)
    ensures Unsuspended(c.changes, start) == Unsuspended(old(c.changes), start)
  {
    now := from;
    var k := 0;
    while k < |changes|
      invariant k <= |changes| && c.Valid() && from <= now && LastChange(c.changes) <= now
      invariant Changed(c.changes, changes[k..], now) == Changed(old(c.changes), changes, from)
      invariant Unsuspended(c.changes, start) == Unsuspended(old(c.changes), start)
    {
      var change := changes[k];
      assert changes[k..][0] == change && changes[k..][1..] == changes[k + 1..];
      if now <= change.at && (change.suspend || c.suspensionCount > 0) {
        UnsuspendedBefore(c.changes, change, start);
        if change.suspend { c.Suspend(change.at); } else { c.Resume(change.at); }
        assert change == Change(change.at, change.suspend);
        now := change.at;
      }
      k := k + 1;
    }
  }

  /** A timer as it was requested: for how long, when the timer that bounds it was created, and when it got the lock. */
  datatype Request = Request(duration: int, created: int, start: int, maximumSuspension: int, threshold: int) {
    function Bound(): int { created + duration + maximumSuspension }
  }

  /** A timer while it waits: the history and the time, when it was armed last and for how long, how often it was armed
      once more, and because of an expiry at which time. */
  datatype Timer = Timer(
    changes: seq<Change>, now: int, armed: int, left: int, rearms: nat, expired: int, result: Result)

  /** How much of the requested time is left, when the base timer has expired at a given time. */
  ghost function Left(q: Request, changes: seq<Change>, at: int): int {
    var last := if at < LastChange(changes) then LastChange(changes) else at;
    q.duration - (Unsuspended(changes, last) - Unsuspended(changes, q.start))
  }

  /** What a timer does upon an expiry: it fires if less than the threshold is left, and is armed once more if not. */
  ghost function Expiry(q: Request, t: Timer, at: int, locked: int): Timer {
    var left := Left(q, t.changes, at);
    if left < q.threshold then t.(now := locked, left := left, result := Fired(at, q.duration - left))
    else t.(now := locked, armed := locked, left := left, rearms := t.rearms + 1, expired := at)
  }

  /** Waits whose outcome is not possible, such as a timer that expires early, are skipped. */
  ghost function Waited(q: Request, t: Timer, w: Wait): Timer {
    if !t.result.Pending? then t
    else
      var (changes, now) := Changed(t.changes, w.changes, t.now);
      var u := t.(changes := changes, now := now);
      match w.outcome
      case Expired(at, locked) =>
        if at >= t.armed + t.left && locked >= at && locked >= now && at >= q.start then Expiry(q, u, at, locked) else u
      case MaximumReached(at) => if at >= q.Bound() then u.(result := FiredAtMaximum(at)) else u
      case StopCalled => u.(result := Stopped)
  }

  ghost function WaitedAll(q: Request, changes: seq<Change>, waits: seq<Wait>): Timer {
    if waits == [] then Timer(changes, q.start, q.start, q.duration, 0, q.start, Pending)
    else
      var n := |waits| - 1;
      Waited(q, WaitedAll(q, changes, waits[..n]), waits[n])
  }

  lemma {:induction false} Decided(q: Request, changes: seq<Change>, waits: seq<Wait>, k: nat)
    requires k <= |waits| && !WaitedAll(q, changes, waits[..k]).result.Pending?
    ensures WaitedAll(q, changes, waits) == WaitedAll(q, changes, waits[..k])
    decreases |waits|
  {
    var n := |waits| - 1;
    if k <= n {
      assert waits[..n][..k] == waits[..k];
      Decided(q, changes, waits[..n], k);
    } else {
      assert waits[..k] == waits;
    }
  }

  // ----- What becomes of a timer -----

  /** The timer before a wait. */
  ghost function At(q: Request, changes: seq<Change>, waits: seq<Wait>, k: nat): Timer
    requires k <= |waits|
  {
    WaitedAll(q, changes, waits[..k])
  }

  /** The base timer has expired no sooner than it was to, and the lock was free by then. */
  ghost predicate Expires(q: Request, t: Timer, w: Wait) {
    && w.outcome.Expired? && t.armed + t.left <= w.outcome.at <= w.outcome.locked && q.start <= w.outcome.at
    && Changed(t.changes, w.changes, t.now).1 <= w.outcome.locked
  }

  /** How long the clock has not been suspended since the timer was started, according to an expiry. */
  ghost function Passed(q: Request, t: Timer, w: Wait): int
    requires w.outcome.Expired?
  {
    var changes := Changed(t.changes, w.changes, t.now).0;
    var last := if w.outcome.at < LastChange(changes) then LastChange(changes) else w.outcome.at;
    Unsuspended(changes, last) - Unsuspended(changes, q.start)
  }

  /** A timer is done once it is stopped, or once enough time has passed, with or without suspensions. */
  ghost predicate Decides(q: Request, t: Timer, w: Wait) {
    match w.outcome
    case StopCalled => true
    case MaximumReached(at) => at >= q.created + q.duration + q.maximumSuspension
    case Expired(_, _) => Expires(q, t, w) && Passed(q, t, w) > q.duration - q.threshold
  }

  ghost predicate FirstToDecide(q: Request, changes: seq<Change>, waits: seq<Wait>, k: nat) {
    && k < |waits| && Decides(q, At(q, changes, waits, k), waits[k])
    && forall j :: 0 <= j < k ==> !Decides(q, At(q, changes, waits, j), waits[j])
  }

  /** The first wait that decides tells what becomes of the timer; as long as none does, it is pending. */
  ghost predicate ResultExact(q: Request, changes: seq<Change>, waits: seq<Wait>, r: Result) {
    && (r.Pending? <==> forall k :: 0 <= k < |waits| ==> !Decides(q, At(q, changes, waits, k), waits[k]))
    && (r.Stopped? <==> exists k: nat :: FirstToDecide(q, changes, waits, k) && waits[k].outcome.StopCalled?)
    && (forall at :: r == FiredAtMaximum(at) <==>
          exists k: nat :: FirstToDecide(q, changes, waits, k) && waits[k].outcome == MaximumReached(at))
    && (forall at, d :: r == Fired(at, d) <==>
          exists k: nat ::
            FirstToDecide(q, changes, waits, k) && FiresWith(q, At(q, changes, waits, k), waits[k], at, d))
  }

  ghost predicate FiresWith(q: Request, t: Timer, w: Wait, at: int, unsuspended: int) {
    w.outcome.Expired? && w.outcome.at == at && Passed(q, t, w) == unsuspended
  }

  lemma {:induction false} OneWait(q: Request, t: Timer, w: Wait)
    requires t.result.Pending?
    ensures var r := Waited(q, t, w).result;
      && (r.Pending? <==> !Decides(q, t, w)) && (r.Stopped? <==> w.outcome.StopCalled?)
      && (r.FiredAtMaximum? <==> Decides(q, t, w) && w.outcome.MaximumReached?)
      && (r.FiredAtMaximum? ==> w.outcome == MaximumReached(r.at))
      && (r.Fired? <==> Decides(q, t, w) && w.outcome.Expired?)
      && (r.Fired? ==> w.outcome.at == r.at && r.unsuspended == Passed(q, t, w))
  {
  }

  lemma {:induction false} PendingUntil(q: Request, changes: seq<Change>, waits: seq<Wait>, k: nat)
    requires k <= |waits| && forall j :: 0 <= j < k ==> !Decides(q, At(q, changes, waits, j), waits[j])
    ensures At(q, changes, waits, k).result.Pending?
  {
    if k > 0 {
      PendingUntil(q, changes, waits, k - 1);
      assert waits[..k][..k - 1] == waits[..k - 1];
      OneWait(q, At(q, changes, waits, k - 1), waits[k - 1]);
    }
  }

  lemma {:induction false} FirstDecider(q: Request, changes: seq<Change>, waits: seq<Wait>, n: nat) returns (k: nat)
    requires n < |waits| && Decides(q, At(q, changes, waits, n), waits[n])
    ensures FirstToDecide(q, changes, waits, k)
  {
    if j: nat :| j < n && Decides(q, At(q, changes, waits, j), waits[j]) {
      k := FirstDecider(q, changes, waits, j);
    } else {
      k := n;
    }
  }

  lemma {:induction false} DecidedBy(q: Request, changes: seq<Change>, waits: seq<Wait>, k: nat)
    requires FirstToDecide(q, changes, waits, k)
    ensures At(q, changes, waits, k).result.Pending?
    ensures WaitedAll(q, changes, waits) == Waited(q, At(q, changes, waits, k), waits[k])
    ensures forall j :: FirstToDecide(q, changes, waits, j) ==> j == k
  {
    PendingUntil(q, changes, waits, k);
    OneWait(q, At(q, changes, waits, k), waits[k]);
    assert waits[..k + 1][..k] == waits[..k];
    Decided(q, changes, waits, k + 1);
  }

  lemma {:induction false} TimerResult(q: Request, changes: seq<Change>, waits: seq<Wait>)
    ensures ResultExact(q, changes, waits, WaitedAll(q, changes, waits).result)
  {
    var r := WaitedAll(q, changes, waits).result;
    if n: nat :| n < |waits| && Decides(q, At(q, changes, waits, n), waits[n]) {
      var k := FirstDecider(q, changes, waits, n);
      var t, w := At(q, changes, waits, k), waits[k];
      DecidedBy(q, changes, waits, k);
      OneWait(q, t, w);
      forall at ensures r == FiredAtMaximum(at) <==>
        exists k: nat :: FirstToDecide(q, changes, waits, k) && waits[k].outcome == MaximumReached(at) {}
      forall at, d ensures r == Fired(at, d) <==>
        exists k: nat :: FirstToDecide(q, changes, waits, k) && FiresWith(q, At(q, changes, waits, k), waits[k], at, d)
      {
        assert r == Fired(at, d) <==> FiresWith(q, t, w, at, d);
      }
    } else {
      PendingUntil(q, changes, waits, |waits|);
      assert waits[..|waits|] == waits;
      forall k: nat ensures !FirstToDecide(q, changes, waits, k) {
        assert k < |waits| ==> !Decides(q, At(q, changes, waits, k), waits[k]);
      }
    }
  }

  ghost predicate NoExpiry(q: Request, changes: seq<Change>, waits: seq<Wait>, from: nat, to: nat)
    requires to <= |waits|
  {
    forall j :: from <= j < to ==> !Expires(q, At(q, changes, waits, j), waits[j])
  }

  /** The last expiry before wait `k` is that of wait `j`, and has left the timer as it is. */
  ghost predicate ArmedBy(q: Request, changes: seq<Change>, waits: seq<Wait>, k: nat, j: nat)
    requires k <= |waits|
  {
    && j < k && Expires(q, At(q, changes, waits, j), waits[j]) && NoExpiry(q, changes, waits, j + 1, k)
    && var s, t := At(q, changes, waits, j), At(q, changes, waits, k);
       t.rearms == s.rearms + 1 && t.armed == waits[j].outcome.locked && t.left == q.duration - Passed(q, s, waits[j])
  }

  /** One more wait that does not decide. */
  lemma {:induction false} ArmedNext(q: Request, t: Timer, w: Wait)
    requires t.result.Pending? && Waited(q, t, w).result.Pending?
    ensures var u := Waited(q, t, w);
      if Expires(q, t, w) then
        u.rearms == t.rearms + 1 && u.armed == w.outcome.locked && u.left == q.duration - Passed(q, t, w)
      else u.rearms == t.rearms && u.armed == t.armed && u.left == t.left
  {
  }

  lemma {:induction false} PendingBefore(q: Request, changes: seq<Change>, waits: seq<Wait>, k: nat)
    requires k < |waits| && At(q, changes, waits, k + 1).result.Pending?
    ensures At(q, changes, waits, k).result.Pending?
    ensures At(q, changes, waits, k + 1) == Waited(q, At(q, changes, waits, k), waits[k])
  {
    assert waits[..k + 1][..k] == waits[..k];
  }

  /** While it is pending, a timer is armed since its last expiry, for the time that was left by then; or if there was
      none, since its start. */
  lemma {:induction false} TimerArmed(q: Request, changes: seq<Change>, waits: seq<Wait>, k: nat) returns (j: nat)
    requires k <= |waits| && At(q, changes, waits, k).result.Pending?
    ensures var t := At(q, changes, waits, k);
      if t.rearms > 0 then ArmedBy(q, changes, waits, k, j)
      else t.armed == q.start && t.left == q.duration && NoExpiry(q, changes, waits, 0, k)
  {
    j := 0;
    if k > 0 {
      PendingBefore(q, changes, waits, k - 1);
      j := TimerArmed(q, changes, waits, k - 1);
      j := ArmedOnce(q, changes, waits, k - 1, j);
    }
  }

  lemma {:induction false} ArmedOnce(q: Request, changes: seq<Change>, waits: seq<Wait>, k: nat, i: nat)
    returns (j: nat)
    requires k < |waits| && At(q, changes, waits, k).result.Pending? && At(q, changes, waits, k + 1).result.Pending?
    requires At(q, changes, waits, k + 1) == Waited(q, At(q, changes, waits, k), waits[k])
    requires var t := At(q, changes, waits, k);
      if t.rearms > 0 then ArmedBy(q, changes, waits, k, i)
      else t.armed == q.start && t.left == q.duration && NoExpiry(q, changes, waits, 0, k)
    ensures var t := At(q, changes, waits, k + 1);
      if t.rearms > 0 then ArmedBy(q, changes, waits, k + 1, j)
      else t.armed == q.start && t.left == q.duration && NoExpiry(q, changes, waits, 0, k + 1)
  {
    var t, w := At(q, changes, waits, k), waits[k];
    ArmedNext(q, t, w);
    j := if Expires(q, t, w) then k else i;
  }

  /** What others do during a wait is part of the history, and the time is when the wait is over. */
  lemma {:induction false} TimerMoves(q: Request, changes: seq<Change>, waits: seq<Wait>, k: nat)
    requires k < |waits| && At(q, changes, waits, k).result.Pending?
    ensures var t, u := At(q, changes, waits, k), At(q, changes, waits, k + 1);
      && u.changes == Changed(t.changes, waits[k].changes, t.now).0
      && u.now ==
         if Expires(q, t, waits[k]) then waits[k].outcome.locked else Changed(t.changes, waits[k].changes, t.now).1
  {
    assert waits[..k + 1][..k] == waits[..k];
  }

  /** The timer fires only once more than the requested time, less the threshold, has passed without suspension; or once
      the requested time and the maximum suspension have passed. */
  ghost predicate FiresInTime(c: Clock, d: int, created: int, start: int, r: Result, now: int)
    reads c
  {
    match r
    case Fired(at, unsuspended) =>
      && unsuspended > d - c.timeoutThreshold
      && var before := Unsuspended(c.changes, start);
         Unsuspended(c.changes, at) - before <= unsuspended <= Unsuspended(c.changes, now) - before
    case FiredAtMaximum(at) => at >= created + d + c.maximumSuspension
    case _ => true
  }

  /** NewTimer() and NewContextWithTimeout(): a timer, with what happens while it waits. It fires at the first expiry
      with less than the threshold left. Each time it is armed once more, the expiry is at least a threshold later; so
      if none is after the bound on the suspension, this happens only so often. */
  method RunTimer(c: Clock, q: Request, waits: seq<Wait>) returns (r: Result, rearms: nat, now: int)
    requires c.Valid() && LastChange(c.changes) <= q.start && q.created <= q.start
    requires q.maximumSuspension == c.maximumSuspension && q.threshold == c.timeoutThreshold
    modifies c
    ensures c.Valid() && FiresInTime(c, q.duration, q.created, q.start, r, now) && q.start <= now
    ensures var t := WaitedAll(q, old(c.changes), waits);
      c.changes == t.changes && now == t.now && rearms == t.rearms && r == t.result
    ensures ResultExact(q, old(c.changes), waits, r)
    ensures q.threshold > 0 && NoneAfterBound(q, waits) && rearms > 0 ==>
      rearms <= 1 + q.maximumSuspension / q.threshold
  {
    r, rearms, now := RunWaits(c, q, waits);
    RearmsBounded(q, old(c.changes), waits);
    TimerResult(q, old(c.changes), waits);
  }

  /** Once the timer that bounds the suspension has expired, no other expiry is acted upon. */
  ghost predicate NoneAfterBound(q: Request, waits: seq<Wait>) {
    forall k :: 0 <= k < |waits| && waits[k].outcome.Expired? ==> waits[k].outcome.at <= q.Bound()
  }

  /** Each time the timer is armed once more, the expiry that leads to it is at least a threshold later. */
  ghost predicate Spaced(q: Request, t: Timer) {
    && (t.rearms == 0 ==> t.armed == q.start && (t.result.Pending? ==> t.left == q.duration))
    && (t.rearms > 0 ==> q.start + q.duration + (t.rearms - 1) * q.threshold <= t.expired <= t.armed)
    && (t.rearms > 0 && t.result.Pending? ==> t.left >= q.threshold)
  }

  lemma {:induction false} StillSpaced(q: Request, t: Timer, w: Wait)
    requires Spaced(q, t)
    ensures Spaced(q, Waited(q, t, w))
  {
    MoreThreshold(t.rearms, q.threshold);
  }

  lemma {:induction false} AllSpaced(q: Request, changes: seq<Change>, waits: seq<Wait>)
    ensures Spaced(q, WaitedAll(q, changes, waits))
    ensures var t := WaitedAll(q, changes, waits); t.rearms > 0 && NoneAfterBound(q, waits) ==> t.expired <= q.Bound()
    decreases |waits|
  {
    if waits != [] {
      var n := |waits| - 1;
      AllSpaced(q, changes, waits[..n]);
      StillSpaced(q, WaitedAll(q, changes, waits[..n]), waits[n]);
      assert NoneAfterBound(q, waits) ==> NoneAfterBound(q, waits[..n]);
    }
  }

  /** If no expiry is after the bound on the suspension, a timer is armed once more only so often. */
  lemma {:induction false} RearmsBounded(q: Request, changes: seq<Change>, waits: seq<Wait>)
    ensures var rearms := WaitedAll(q, changes, waits).rearms;
      q.threshold > 0 && q.created <= q.start && NoneAfterBound(q, waits) && rearms > 0 ==>
      rearms <= 1 + q.maximumSuspension / q.threshold
  {
    var rearms := WaitedAll(q, changes, waits).rearms;
    AllSpaced(q, changes, waits);
    if q.threshold > 0 && q.created <= q.start && NoneAfterBound(q, waits) && rearms > 0 {
      RearmBound(rearms, q.maximumSuspension, q.threshold);
    }
  }

  method RunWaits(c: Clock, q: Request, waits: seq<Wait>) returns (r: Result, rearms: nat, now: int)
    requires c.Valid() && LastChange(c.changes) <= q.start && q.created <= q.start
    requires q.maximumSuspension == c.maximumSuspension && q.threshold == c.timeoutThreshold
    modifies c
    ensures c.Valid() && FiresInTime(c, q.duration, q.created, q.start, r, now) && q.start <= now
    ensures var t := WaitedAll(q, old(c.changes), waits);
      c.changes == t.changes && now == t.now && rearms == t.rearms && r == t.result
  {
    var armed, d := q.start, q.duration;
    ghost var expired := q.start;
    now, rearms, r := q.start, 0, Pending;
    var initial := c.TotalUnsuspendedNow(q.start);
    var k := 0;
    while k < |waits| && r.Pending?
      invariant k <= |waits| && c.Valid() && LastChange(c.changes) <= now && q.start <= now
      invariant initial == Unsuspended(c.changes, q.start) && FiresInTime(c, q.duration, q.created, q.start, r, now)
      invariant Timer(c.changes, now, armed, d, rearms, expired, r) == WaitedAll(q, old(c.changes), waits[..k])
    {
      assert waits[..k + 1][..k] == waits[..k];
      now := Apply(c, waits[k].changes, now, q.start);
      match waits[k].outcome {
        case Expired(at, locked) =>
          if at >= armed + d && locked >= at && locked >= now && at >= q.start {
            r, d := Check(c, q, initial, at, locked);
            now := locked;
            if r.Pending? {
              armed, rearms, expired := locked, rearms + 1, at;
            }
          }
        case MaximumReached(at) =>
          if at >= q.Bound() { r := FiredAtMaximum(at); }
        case StopCalled =>
          r := Stopped;
      }
      k := k + 1;
    }
    if k < |waits| {
      Decided(q, old(c.changes), waits, k);
    } else {
      assert waits[..k] == waits;
    }
  }

  /** What a timer does when its base timer has expired: it fires if the time that remains is below the threshold. */
  method Check(c: Clock, q: Request, initial: int, at: int, locked: int) returns (r: Result, d: int)
    requires c.Valid() && LastChange(c.changes) <= locked && q.start <= at <= locked
    requires initial == Unsuspended(c.changes, q.start) && q.threshold == c.timeoutThreshold
    ensures d == Left(q, c.changes, at)
    ensures r == if d < q.threshold then Fired(at, q.duration - d) else Pending
    ensures r.Fired? ==> FiresInTime(c, q.duration, q.created, q.start, r, locked)
    ensures d >= q.duration - (Unsuspended(c.changes, locked) - initial)
    ensures d <= q.duration - (Unsuspended(c.changes, at) - initial)
  {
    var current := c.TotalUnsuspendedWithTime(at);
    ghost var last := if at < LastChange(c.changes) then LastChange(c.changes) else at;
    UnsuspendedGrows(c.changes, at, last);
    UnsuspendedGrows(c.changes, last, locked);
    d := initial + q.duration - current;
    r := if d < q.threshold then Fired(at, current - initial) else Pending;
  }

  lemma {:induction false} MoreThreshold(rearms: nat, threshold: int)
    ensures rearms > 0 ==> rearms * threshold == (rearms - 1) * threshold + threshold
  {
  }

  /** What the threshold fits into this many times is no shorter. */
  lemma {:induction false} RearmBound(rearms: nat, length: int, threshold: int)
    requires threshold > 0 && rearms > 0 && length >= (rearms - 1) * threshold
    ensures rearms <= 1 + length / threshold
  {
    var q := length / threshold;
    if rearms - 1 > q {
      Multiples(rearms - 1, q + 1, threshold);
    }
  }

  lemma {:induction false} Multiples(a: int, b: int, t: int)
    requires a >= b && t > 0
    ensures a * t >= b * t
  {
  }
}
