/**
 pkg/filesystem/virtual/byte_range_lock_set.go: the sentinel-based doubly linked
 list behind `Set` and `Test`.
 */
module ByteRangeLockSet {
  import opened Common
  import opened ByteRangeLocks

  class Entry<Owner> {
    var previous: Entry?<Owner>
    var next: Entry?<Owner>
    var lock: Lock<Owner>

    constructor (lock: Lock<Owner>)
      ensures this.lock == lock && previous == null && next == null
    {
      this.lock, previous, next := lock, null, null;
    }
  }

  class LockSet<Owner(==)> {
    const list: Entry<Owner>               // the sentinel
    ghost var nodes: seq<Entry<Owner>>     // the entries, in order
    ghost var locks: seq<Lock<Owner>>      // the locks they hold

    ghost predicate Distinct(s: seq<Entry<Owner>>) {
      forall i, j :: 0 <= i < j < |s| ==> s[i] != s[j]
    }

    /** Node `i` of the ring; the sentinel comes before the first and after the last one. */
    ghost function At(s: seq<Entry<Owner>>, i: int): Entry<Owner>
      requires -1 <= i <= |s|
    {
      if 0 <= i < |s| then s[i] else list
    }

    /** The links of node `i` to node `i + 1`, and back. */
    ghost predicate Linked(s: seq<Entry<Owner>>, i: int)
      requires -1 <= i < |s|
      reads list`next, list`previous, s`next, s`previous
    {
      At(s, i).next == At(s, i + 1) && At(s, i + 1).previous == At(s, i)
    }

    ghost predicate Links()
      reads `nodes, list`next, list`previous, nodes`next, nodes`previous
    {
      && Distinct(nodes) && list !in nodes
      && (forall i :: -1 <= i < |nodes| ==> Linked(nodes, i))
    }

    ghost predicate Contents()
      reads `nodes, `locks, nodes`lock
    {
      |locks| == |nodes| && forall i :: 0 <= i < |nodes| ==> nodes[i].lock == locks[i]
    }

    ghost predicate Valid()
      reads this, list`next, list`previous, nodes
    {
      Links() && Contents()
    }

    /** `Initialize`; what the sentinel holds does not matter. */
    constructor (unused: Lock<Owner>)
      ensures Valid() && locks == [] && fresh(list) && nodes == []
    {
      list := new Entry(unused);
      nodes, locks := [], [];
      new;
      list.previous, list.next := list, list;
    }

    ghost function Inserted<T>(s: seq<T>, k: nat, x: T): seq<T>
      requires k <= |s|
    {
      s[..k] + [x] + s[k..]
    }

    lemma {:induction false} InsertedAt(s: seq<Entry<Owner>>, k: nat, x: Entry<Owner>)
      requires k <= |s| && Distinct(s) && x !in s && list !in s && x != list
      ensures var r := Inserted(s, k, x);
        && |r| == |s| + 1 && Distinct(r) && list !in r
        && (forall i :: -1 <= i < k ==> At(r, i) == At(s, i)) && At(r, k) == x
        && (forall i :: k < i <= |r| ==> At(r, i) == At(s, i - 1))
    {
    }

    method InsertBefore(le: Entry<Owner>, leNew: Entry<Owner>, ghost k: nat)
      requires Valid() && k <= |nodes| && le == At(nodes, k) && leNew !in nodes && leNew != list
      modifies `nodes, `locks, list`next, list`previous, nodes`next, nodes`previous, leNew`next, leNew`previous
      ensures Valid() && nodes == Inserted(old(nodes), k, leNew) && locks == Inserted(old(locks), k, leNew.lock)
    {
      ghost var s := nodes;
      SpliceIn(le, leNew, k);
      nodes, locks := Inserted(s, k, leNew), Inserted(locks, k, leNew.lock);
      InsertedAt(s, k, leNew);
      forall i | -1 <= i < |nodes| ensures Linked(nodes, i) {
        if i < k - 1 {
          assert Linked(s, i);
        } else if i > k {
          assert Linked(s, i - 1);
        }
      }
    }

    /** The pointers of `insertBefore()`. */
    method SpliceIn(le: Entry<Owner>, leNew: Entry<Owner>, ghost k: nat)
      requires Links() && k <= |nodes| && le == At(nodes, k) && leNew !in nodes && leNew != list
      modifies list`next, list`previous, nodes`next, nodes`previous, leNew`next, leNew`previous
      ensures leNew.previous == At(nodes, k - 1) && leNew.next == At(nodes, k)
      ensures At(nodes, k - 1).next == leNew && At(nodes, k).previous == leNew
      ensures forall i :: -1 <= i < |nodes| && i != k - 1 ==> Linked(nodes, i)
    {
      assert Linked(nodes, k - 1);
      leNew.previous := le.previous;
      leNew.next := le;
      leNew.previous.next := leNew;
      le.previous := leNew;
      forall i | -1 <= i < |nodes| && i != k - 1 ensures Linked(nodes, i) {
        assert old(Linked(nodes, i));
      }
    }

    lemma {:induction false} RemovedAt(s: seq<Entry<Owner>>, k: nat)
      requires k < |s| && Distinct(s) && list !in s
      ensures var r := s[..k] + s[k + 1..];
        && |r| == |s| - 1 && Distinct(r) && list !in r && s[k] !in r
        && (forall i :: -1 <= i < k ==> At(r, i) == At(s, i))
        && (forall i :: k <= i <= |r| ==> At(r, i) == At(s, i + 1))
    {
    }

    method Remove(le: Entry<Owner>, ghost k: nat)
      requires Valid() && k < |nodes| && le == nodes[k]
      modifies `nodes, `locks, list`next, list`previous, nodes`next, nodes`previous
      ensures Valid() && nodes == old(nodes[..k] + nodes[k + 1..]) && locks == old(locks[..k] + locks[k + 1..])
      ensures le !in nodes
    {
      ghost var s := nodes;
      assert Linked(s, k - 1) && Linked(s, k);
      le.previous.next := le.next;
      le.next.previous := le.previous;
      le.previous := null;
      le.next := null;
      nodes, locks := s[..k] + s[k + 1..], locks[..k] + locks[k + 1..];
      RemovedAt(s, k);
      forall i | -1 <= i < |nodes| ensures Linked(nodes, i) {
        if i < k - 1 {
          assert old(Linked(s, i));
        } else if i >= k {
          assert old(Linked(s, i + 1));
        }
      }
    }

    /** Test whether a lock conflicts with one in the set. */
    method Test(lTest: Lock<Owner>) returns (r: Option<Lock<Owner>>)
      requires Valid()
      ensures r == TestLock(locks, lTest)
    {
      ghost var k := 0;
      assert Linked(nodes, -1);
      var leSearch := list.next;
      while true
        invariant 0 <= k <= |nodes| && leSearch == At(nodes, k)
        invariant TestLock(locks, lTest) == TestLock(locks[k..], lTest)
        decreases |nodes| - k
      {
        if leSearch == list || leSearch.lock.start >= lTest.end {
          return None;
        }
        if leSearch.lock.owner != lTest.owner && leSearch.lock.end > lTest.start &&
           (leSearch.lock.typ == Exclusive || lTest.typ == Exclusive) {
          return Some(leSearch.lock);
        }
        assert Linked(nodes, k);
        assert locks[k..][1..] == locks[k + 1..];
        leSearch := leSearch.next;
        k := k + 1;
      }
    }

    ghost function OptLock(e: Entry?<Owner>): Option<Lock<Owner>>
      reads (if e == null then {} else {e})`lock
    {
      if e == null then None else Some(e.lock)
    }

    /** The first loop of `Set`, up to the entry at which it stops. */
    method PassEntries(leNew: Entry<Owner>)
      returns (leSearch: Entry<Owner>, leTrailing: Entry?<Owner>, ghost done: seq<Lock<Owner>>,
        ghost rest: seq<Lock<Owner>>)
      requires Valid() && leNew !in nodes && leNew != list && !Find(locks, leNew.lock, None).panics
      modifies `locks, nodes`lock
      ensures Valid() && locks == done + rest && leSearch == At(nodes, |done|)
      ensures Finding(Find(old(locks), leNew.lock, None), done, rest, leNew.lock, OptLock(leTrailing))
      ensures rest == [] || !Passes(rest[0], leNew.lock)
      ensures leTrailing != null ==> fresh(leTrailing)
    {
      var l := leNew.lock;
      ghost var found := Find(locks, l, None);
      FindingStarts(locks, l);
      assert Linked(nodes, -1);
      leSearch, leTrailing, done, rest := list.next, null, [], locks;
      while leSearch != list && Passes(leSearch.lock, l)
        invariant |done| <= |nodes| && leSearch == At(nodes, |done|)
        invariant Valid() && locks == done + rest
        invariant Finding(found, done, rest, l, OptLock(leTrailing))
        invariant leTrailing != null ==> fresh(leTrailing)
        decreases |rest|
      {
        EntryAt(done, rest);
        leSearch, leTrailing, done, rest := PassOne(leSearch, leNew, leTrailing, found, done, rest);
      }
      EntryAt(done, rest);
    }

    lemma {:induction false} EntryAt(done: seq<Lock<Owner>>, rest: seq<Lock<Owner>>)
      requires Valid() && locks == done + rest
      ensures |done| <= |nodes| && (At(nodes, |done|) == list <==> rest == [])
      ensures rest != [] ==> At(nodes, |done|) == nodes[|done|] && nodes[|done|].lock == rest[0]
    {
      assert rest != [] ==> rest[0] == locks[|done|];
    }

    /** One iteration of the first loop. */
    method PassOne(
      leSearch0: Entry<Owner>, leNew: Entry<Owner>, leTrailing0: Entry?<Owner>,
      ghost found: Search<Owner>, ghost done0: seq<Lock<Owner>>, ghost rest0: seq<Lock<Owner>>)
      returns (leSearch: Entry<Owner>, leTrailing: Entry?<Owner>, ghost done: seq<Lock<Owner>>,
        ghost rest: seq<Lock<Owner>>)
      requires Valid() && locks == done0 + rest0 && rest0 != [] && leSearch0 == nodes[|done0|] && leNew !in nodes
      requires Passes(leSearch0.lock, leNew.lock) && !found.panics
      requires Finding(found, done0, rest0, leNew.lock, OptLock(leTrailing0)) && leTrailing0 !in nodes
      modifies `locks, leSearch0`lock
      ensures Valid() && locks == done + rest && rest == rest0[1..] && |done| == |done0| + 1
      ensures leSearch == At(nodes, |done|)
      ensures Finding(found, done, rest, leNew.lock, OptLock(leTrailing))
      ensures leTrailing == leTrailing0 || (leTrailing != null && fresh(leTrailing))
    {
      assert rest0[0] == locks[|done0|];
      FindingNext(found, done0, rest0, leNew.lock, OptLock(leTrailing0));
      leTrailing := PassEntry(leSearch0, leNew, leTrailing0, done0, rest0);
      assert Linked(nodes, |done0|);
      leSearch := leSearch0.next;
      done, rest := done0 + [Truncated(rest0[0], leNew.lock)], rest0[1..];
    }

    /** The first loop of `Set`. */
    method FindPlace(leNew: Entry<Owner>) returns (leSearch: Entry<Owner>, leTrailing: Entry?<Owner>, ghost k: nat)
      requires Valid() && leNew !in nodes && leNew != list
      requires !Find(locks, leNew.lock, None).panics
      modifies `locks, nodes`lock, leNew`lock
      ensures Valid()
      ensures var f := Find(old(locks), old(leNew.lock), None);
        && k == |f.before| <= |nodes| && leSearch == At(nodes, k)
        && locks == f.before + f.rest && leNew.lock == f.new_ && OptLock(leTrailing) == f.trailing
      ensures leTrailing != null ==> fresh(leTrailing)
    {
      ghost var done, rest;
      leSearch, leTrailing, done, rest := PassEntries(leNew);
      FindStops(Find(old(locks), leNew.lock, None), done, rest, leNew.lock, OptLock(leTrailing));
      k := |done|;
      assert rest != [] ==> rest[0] == locks[k];
      if leSearch != list && leSearch.lock.start < leNew.lock.start {
        leNew.lock := leNew.lock.(start := leSearch.lock.start);
      }
    }

    /** The new entry is in the list, right behind `before`, except when unlocking. */
    ghost predicate Placed(leNew: Entry<Owner>, before: seq<Lock<Owner>>)
      reads `nodes, leNew`lock
    {
      && leNew != list
      && (if leNew.lock.typ == Unlocked then leNew !in nodes else |before| < |nodes| && nodes[|before|] == leNew)
    }

    ghost predicate Detached(e: Entry?<Owner>, leNew: Entry<Owner>)
      reads `nodes
    {
      e != null ==> e !in nodes && e != list && e != leNew
    }

    ghost predicate Within(region: set<Entry?<Owner>>)
      reads `nodes
    {
      forall i :: 0 <= i < |nodes| ==> nodes[i] in region
    }

    /** The second loop of `Set`. */
    method MergeEntries(
      leSearch0: Entry<Owner>, leNew: Entry<Owner>, leTrailing0: Entry?<Owner>,
      ghost region: set<Entry?<Owner>>, ghost result: seq<Lock<Owner>>, ghost before: seq<Lock<Owner>>,
      ghost front0: seq<Lock<Owner>>, ghost rest0: seq<Lock<Owner>>)
      returns (leSearch: Entry<Owner>, leTrailing: Entry?<Owner>, delta: int, ghost front: seq<Lock<Owner>>,
        ghost rest: seq<Lock<Owner>>)
      requires Valid() && locks == front0 + rest0 && leSearch0 == At(nodes, |front0|)
      requires Within(region) && leNew in region && (leTrailing0 != null ==> leTrailing0 in region)
      requires Placed(leNew, before) && Detached(leTrailing0, leNew)
      requires Merging(result, before, [], front0, rest0, leNew.lock, OptLock(leTrailing0))
      modifies `nodes, `locks, list`next, list`previous, region
      ensures Valid() && locks == front + rest && leSearch == At(nodes, |front|)
      ensures Detached(leTrailing, leNew) && delta == |locks| - |old(locks)|
      ensures result == front + ToSeq(OptLock(leTrailing)) + rest
      ensures Within(region) && (leTrailing != null ==> leTrailing in region)
    {
      ghost var kept := [];
      leSearch, leTrailing, delta, front, rest := leSearch0, leTrailing0, 0, front0, rest0;
      while !(leSearch == list || leNew.lock.end < leSearch.lock.start)
        invariant Valid() && locks == front + rest && leSearch == At(nodes, |front|)
        invariant Placed(leNew, before) && Detached(leTrailing, leNew) && delta == |locks| - |old(locks)|
        invariant Merging(result, before, kept, front, rest, leNew.lock, OptLock(leTrailing))
        invariant Within(region) && (leTrailing != null ==> leTrailing in region)
        decreases |rest|
      {
        var d;
        leSearch, leTrailing, d, kept, front, rest := MergeOne(leSearch, leNew, leTrailing, region, result, before,
          kept, front, rest);
        delta := delta + d;
      }
      assert rest != [] ==> rest[0] == locks[|front|];
      MergingEnds(result, before, kept, front, rest, leNew.lock, OptLock(leTrailing));
    }

    /** One iteration of the second loop. */
    method MergeOne(
      leSearch0: Entry<Owner>, leNew: Entry<Owner>, leTrailing0: Entry?<Owner>, ghost region: set<Entry?<Owner>>,
      ghost result: seq<Lock<Owner>>,
      ghost before: seq<Lock<Owner>>, ghost kept0: seq<Lock<Owner>>, ghost front0: seq<Lock<Owner>>,
      ghost rest0: seq<Lock<Owner>>)
      returns (
        leSearch: Entry<Owner>, leTrailing: Entry?<Owner>, delta: int,
        ghost kept: seq<Lock<Owner>>, ghost front: seq<Lock<Owner>>, ghost rest: seq<Lock<Owner>>)
      requires Valid() && locks == front0 + rest0 && rest0 != [] && leSearch0 == nodes[|front0|]
      requires Within(region) && leNew in region && (leTrailing0 != null ==> leTrailing0 in region)
      requires Placed(leNew, before) && Detached(leTrailing0, leNew) && leSearch0.lock.start <= leNew.lock.end
      requires Merging(result, before, kept0, front0, rest0, leNew.lock, OptLock(leTrailing0))
      modifies `nodes, `locks, list`next, list`previous, region
      ensures Valid() && locks == front + rest && leSearch == At(nodes, |front|) && rest == rest0[1..]
      ensures Placed(leNew, before) && Detached(leTrailing, leNew) && delta == |locks| - |old(locks)|
      ensures Merging(result, before, kept, front, rest, leNew.lock, OptLock(leTrailing))
      ensures Within(region) && (leTrailing != null ==> leTrailing in region)
    {
      assert Linked(nodes, |front0|);
      assert rest0[0] == locks[|front0|];
      MergingNext(result, before, kept0, front0, rest0, leNew.lock, OptLock(leTrailing0));
      leSearch, leTrailing, delta, kept, front, rest := leSearch0.next, leTrailing0, 0, kept0, front0, rest0[1..];
      if leSearch0.lock.owner != leNew.lock.owner {
        kept, front := kept + [rest0[0]], front + [rest0[0]];
      } else {
        delta := -1;
        RemoveAt(leSearch0, front0, rest0);
        if leNew.lock.end < leSearch0.lock.end {
          if leNew.lock.typ == leSearch0.lock.typ {
            front := front0[|before| := leNew.lock.(end := leSearch0.lock.end)];
            Grow(leNew, leSearch0.lock.end, before, front0, rest);
          } else {
            assert leTrailing == null;
            leTrailing := leSearch0;
            leTrailing.lock := leTrailing.lock.(start := leNew.lock.end);
          }
        }
      }
    }

    /** Takes the entry at which the second loop stands out of the list. */
    method RemoveAt(le: Entry<Owner>, ghost front: seq<Lock<Owner>>, ghost rest: seq<Lock<Owner>>)
      requires Valid() && locks == front + rest && rest != [] && le == nodes[|front|]
      modifies `nodes, `locks, list`next, list`previous, nodes`next, nodes`previous
      ensures Valid() && locks == front + rest[1..] && le !in nodes
      ensures |nodes| == |old(nodes)| - 1
      ensures forall i :: 0 <= i < |front| ==> nodes[i] == old(nodes)[i]
      ensures forall i :: |front| <= i < |nodes| ==> nodes[i] == old(nodes)[i + 1]
    {
      Remove(le, |front|);
    }

    /** Moves the end of the new entry. */
    method Grow(
      leNew: Entry<Owner>, end: nat, ghost before: seq<Lock<Owner>>, ghost front: seq<Lock<Owner>>,
      ghost rest: seq<Lock<Owner>>)
      requires Valid() && locks == front + rest && |before| < |front| && nodes[|before|] == leNew
      modifies `locks, leNew`lock
      ensures Valid() && leNew.lock == old(leNew.lock).(end := end) && locks == front[|before| := leNew.lock] + rest
    {
      leNew.lock := leNew.lock.(end := end);
      locks := locks[|before| := leNew.lock];
    }

    /** Inserts the new entry, except if unlocking. */
    method InsertNew(
      leSearch: Entry<Owner>, leNew: Entry<Owner>, ghost before: seq<Lock<Owner>>, ghost rest: seq<Lock<Owner>>)
      returns (delta: int)
      requires Valid() && locks == before + rest && leSearch == At(nodes, |before|) && leNew !in nodes && leNew != list
      modifies `nodes, `locks, list`next, list`previous, nodes`next, nodes`previous, leNew`next, leNew`previous
      ensures Valid() && locks == before + Insertable(leNew.lock) + rest && delta == |locks| - |old(locks)|
      ensures leSearch == At(nodes, |before| + |Insertable(leNew.lock)|) && Placed(leNew, before)
      ensures forall i :: 0 <= i < |nodes| ==> nodes[i] in old(nodes) || nodes[i] == leNew
    {
      delta := 0;
      if leNew.lock.typ != Unlocked {
        InsertBefore(leSearch, leNew, |before|);
        delta := 1;
      }
    }

    /** Inserts the trailing part of an entry that lost its leading part, or in which a hole got punched. */
    method InsertTrailing(
      leSearch: Entry<Owner>, leNew: Entry<Owner>, leTrailing: Entry?<Owner>, ghost front: seq<Lock<Owner>>,
      ghost rest: seq<Lock<Owner>>)
      returns (delta: int)
      requires Valid() && locks == front + rest && leSearch == At(nodes, |front|) && Detached(leTrailing, leNew)
      modifies `nodes, `locks, list`next, list`previous, nodes`next, nodes`previous
      modifies (if leTrailing == null then {} else {leTrailing})`next
      modifies (if leTrailing == null then {} else {leTrailing})`previous
      ensures Valid() && locks == front + ToSeq(OptLock(leTrailing)) + rest && delta == |locks| - |old(locks)|
      ensures forall i :: 0 <= i < |nodes| ==> nodes[i] in old(nodes) || nodes[i] == leTrailing
    {
      delta := 0;
      if leTrailing != null {
        InsertBefore(leSearch, leTrailing, |front|);
        delta := 1;
      }
    }

    /** Sets a byte range to a given lock, and returns by how much the number of entries changed. */
    method Set(lProvided: Lock<Owner>) returns (delta: int)
      requires Valid() && WellFormed(locks) && lProvided.start < lProvided.end
      modifies this, list, nodes
      ensures Valid() && WellFormed(locks) && locks == SetLocks(old(locks), lProvided)
      ensures delta == |locks| - |old(locks)|
      ensures forall i :: 0 <= i < |nodes| ==> nodes[i] in old(nodes) || fresh(nodes[i])
    {
      SetNeverPanics(locks, lProvided);
      SetKeepsWellFormed(locks, lProvided);
      MergingStarts(locks, lProvided);
      delta := Replace(lProvided, Find(locks, lProvided, None), SetLocks(locks, lProvided));
    }

    method Replace(lProvided: Lock<Owner>, ghost f: Search<Owner>, ghost result: seq<Lock<Owner>>) returns (delta: int)
      requires Valid() && f == Find(locks, lProvided, None) && !f.panics
      requires Merging(result, f.before, [], f.before + Insertable(f.new_), f.rest, f.new_, f.trailing)
      modifies this, list, nodes
      ensures Valid() && locks == result && delta == |locks| - |old(locks)|
      ensures forall i :: 0 <= i < |nodes| ==> nodes[i] in old(nodes) || fresh(nodes[i])
    {
      ghost var region: set<Entry?<Owner>> := set e | e in nodes;
      var leNew := new Entry(lProvided);
      var leSearch, leTrailing;
      leSearch, leTrailing, delta := Place(leNew, f, region);
      ghost var front := f.before + Insertable(f.new_);
      var d := FinishSet(leSearch, leNew, leTrailing, region + {leNew, leTrailing}, result, f.before, front, f.rest);
      delta := delta + d;
    }

    /** Finds the place of the new entry, and puts it there. */
    method Place(leNew: Entry<Owner>, ghost f: Search<Owner>, ghost region: set<Entry?<Owner>>)
      returns (leSearch: Entry<Owner>, leTrailing: Entry?<Owner>, delta: int)
      requires Valid() && leNew !in nodes && leNew != list
      requires f == Find(locks, leNew.lock, None) && !f.panics && Within(region)
      modifies `nodes, `locks, list`next, list`previous, nodes, leNew
      ensures Valid() && locks == f.before + Insertable(f.new_) + f.rest && delta == |locks| - |old(locks)|
      ensures leNew.lock == f.new_ && OptLock(leTrailing) == f.trailing && Placed(leNew, f.before)
      ensures leSearch == At(nodes, |f.before| + |Insertable(f.new_)|)
      ensures Detached(leTrailing, leNew) && (leTrailing != null ==> fresh(leTrailing))
      ensures Within(region + {leNew, leTrailing})
    {
      ghost var k;
      leSearch, leTrailing, k := FindPlace(leNew);
      delta := InsertNew(leSearch, leNew, f.before, f.rest);
    }

    /** What `Set` does once the new entry is in its place. */
    method FinishSet(
      leSearch0: Entry<Owner>, leNew: Entry<Owner>, leTrailing0: Entry?<Owner>, ghost region: set<Entry?<Owner>>,
      ghost result: seq<Lock<Owner>>, ghost before: seq<Lock<Owner>>, ghost front0: seq<Lock<Owner>>,
      ghost rest0: seq<Lock<Owner>>)
      returns (delta: int)
      requires Valid() && locks == front0 + rest0 && leSearch0 == At(nodes, |front0|)
      requires Within(region) && leNew in region && (leTrailing0 != null ==> leTrailing0 in region)
      requires Placed(leNew, before) && Detached(leTrailing0, leNew)
      requires Merging(result, before, [], front0, rest0, leNew.lock, OptLock(leTrailing0))
      modifies `nodes, `locks, list`next, list`previous, region
      ensures Valid() && locks == result && delta == |locks| - |old(locks)| && Within(region)
    {
      var leSearch, leTrailing;
      ghost var front, rest;
      leSearch, leTrailing, delta, front, rest := MergeEntries(leSearch0, leNew, leTrailing0, region, result, before,
        front0, rest0);
      var d := InsertTrailing(leSearch, leNew, leTrailing, front, rest);
      delta := delta + d;
    }

    /** An entry in front of the new one: cut it off, or split it, if it is in the way. */
    method PassEntry(
      leSearch: Entry<Owner>, leNew: Entry<Owner>, leTrailing0: Entry?<Owner>,
      ghost done: seq<Lock<Owner>>, ghost rest: seq<Lock<Owner>>) returns (leTrailing: Entry?<Owner>)
      requires Valid() && locks == done + rest && rest != [] && leSearch == nodes[|done|] && leNew !in nodes
      requires Passes(leSearch.lock, leNew.lock) && (Splits(leSearch.lock, leNew.lock) ==> leTrailing0 == null)
      modifies `locks, leSearch`lock
      ensures Valid() && locks == done + [Truncated(rest[0], leNew.lock)] + rest[1..]
      ensures if Splits(rest[0], leNew.lock)
        then leTrailing != null && fresh(leTrailing) && leTrailing.lock == Behind(rest[0], leNew.lock)
        else leTrailing == leTrailing0
    {
      leTrailing := leTrailing0;
      var same := leSearch.lock.owner == leNew.lock.owner;
      if same && leNew.lock.typ != leSearch.lock.typ && leNew.lock.start < leSearch.lock.end {
        if leNew.lock.end < leSearch.lock.end {
          assert leTrailing == null;
          leTrailing := new Entry(Lock(leNew.lock.end, leSearch.lock.end, leSearch.lock.owner, leSearch.lock.typ));
        }
        leSearch.lock := leSearch.lock.(end := leNew.lock.start);
      }
      locks := done + [leSearch.lock] + rest[1..];
    }
  }

  /** A search that has already passed some entries. */
  ghost function Prepend<Owner>(p: seq<Lock<Owner>>, s: Search<Owner>): Search<Owner> {
    s.(before := p + s.before)
  }

  /** The outcome of a search that has passed `done` and has yet to see `rest`. */
  ghost predicate IsFinding<Owner>(
    found: Search<Owner>, done: seq<Lock<Owner>>, rest: seq<Lock<Owner>>, l: Lock<Owner>, tr: Option<Lock<Owner>>)
  {
    found == Prepend(done, Find(rest, l, tr))
  }

  /** `IsFinding`, kept away from proofs that need not look into it. */
  ghost predicate Finding<Owner>(
    found: Search<Owner>, done: seq<Lock<Owner>>, rest: seq<Lock<Owner>>, l: Lock<Owner>, tr: Option<Lock<Owner>>,
    layers: nat := 3)
    decreases found, layers
  {
    if layers == 0 then IsFinding(found, done, rest, l, tr) else Finding(found, done, rest, l, tr, layers - 1)
  }

  lemma {:induction false} OpenFinding<Owner>(
    found: Search<Owner>, done: seq<Lock<Owner>>, rest: seq<Lock<Owner>>, l: Lock<Owner>, tr: Option<Lock<Owner>>)
    ensures Finding(found, done, rest, l, tr) <==> IsFinding(found, done, rest, l, tr)
  {
    assert Finding(found, done, rest, l, tr) == Finding(found, done, rest, l, tr, 2);
    assert Finding(found, done, rest, l, tr, 2) == Finding(found, done, rest, l, tr, 1);
    assert Finding(found, done, rest, l, tr, 1) == Finding(found, done, rest, l, tr, 0);
  }

  lemma {:induction false} FindingStarts<Owner>(ls: seq<Lock<Owner>>, l: Lock<Owner>)
    ensures Finding(Find(ls, l, None), [], ls, l, None)
  {
    assert [] + Find(ls, l, None).before == Find(ls, l, None).before;
    OpenFinding(Find(ls, l, None), [], ls, l, None);
  }

  lemma {:induction false} FindingNext<Owner>(
    found: Search<Owner>, done: seq<Lock<Owner>>, rest: seq<Lock<Owner>>, l: Lock<Owner>, tr: Option<Lock<Owner>>)
    requires Finding(found, done, rest, l, tr) && !found.panics && rest != [] && Passes(rest[0], l)
    ensures Splits(rest[0], l) ==> tr.None?
    ensures Finding(found, done + [Truncated(rest[0], l)], rest[1..], l,
              if Splits(rest[0], l) then Some(Behind(rest[0], l)) else tr)
  {
    var tr' := if Splits(rest[0], l) then Some(Behind(rest[0], l)) else tr;
    var r := Find(rest[1..], l, tr');
    OpenFinding(found, done, rest, l, tr);
    OpenFinding(found, done + [Truncated(rest[0], l)], rest[1..], l, tr');
    assert done + ([Truncated(rest[0], l)] + r.before) == done + [Truncated(rest[0], l)] + r.before;
  }

  /** The first loop stops. */
  lemma {:induction false} FindStops<Owner>(
    found: Search<Owner>, done: seq<Lock<Owner>>, ls: seq<Lock<Owner>>, l: Lock<Owner>, tr: Option<Lock<Owner>>)
    requires Finding(found, done, ls, l, tr) && (ls == [] || !Passes(ls[0], l))
    ensures var new_ := if ls == [] || l.start <= ls[0].start then l else l.(start := ls[0].start);
      found == Search(done, ls, new_, tr, false)
  {
    assert done + [] == done;
    OpenFinding(found, done, ls, l, tr);
  }

  // ----- The second loop, on values -----

  /** `result` is what `Set` leaves, with `front` and `rest` on both sides of where its second loop stands. */
  ghost predicate IsMerging<Owner>(
    result: seq<Lock<Owner>>, before: seq<Lock<Owner>>, kept: seq<Lock<Owner>>, front: seq<Lock<Owner>>,
    rest: seq<Lock<Owner>>, l: Lock<Owner>, tr: Option<Lock<Owner>>)
  {
    var m := Merge(rest, l, tr);
    && !m.panics && front == before + Insertable(l) + kept && (forall i :: 0 <= i < |rest| ==> rest[i].typ != Unlocked)
    && result == before + Insertable(m.new_) + (kept + m.before) + ToSeq(m.trailing) + m.rest
  }

  /** `IsMerging`, kept away from proofs that need not look into it. */
  ghost predicate Merging<Owner>(
    result: seq<Lock<Owner>>, before: seq<Lock<Owner>>, kept: seq<Lock<Owner>>, front: seq<Lock<Owner>>,
    rest: seq<Lock<Owner>>, l: Lock<Owner>, tr: Option<Lock<Owner>>, layers: nat := 3)
    decreases l, layers
  {
    if layers == 0 then IsMerging(result, before, kept, front, rest, l, tr)
    else Merging(result, before, kept, front, rest, l, tr, layers - 1)
  }

  lemma {:induction false} OpenMerging<Owner>(
    result: seq<Lock<Owner>>, before: seq<Lock<Owner>>, kept: seq<Lock<Owner>>, front: seq<Lock<Owner>>,
    rest: seq<Lock<Owner>>, l: Lock<Owner>, tr: Option<Lock<Owner>>)
    ensures Merging(result, before, kept, front, rest, l, tr) <==> IsMerging(result, before, kept, front, rest, l, tr)
  {
    assert Merging(result, before, kept, front, rest, l, tr) == Merging(result, before, kept, front, rest, l, tr, 2);
    assert Merging(result, before, kept, front, rest, l, tr, 2) == Merging(result, before, kept, front, rest, l, tr, 1);
    assert Merging(result, before, kept, front, rest, l, tr, 1) == Merging(result, before, kept, front, rest, l, tr, 0);
  }

  lemma {:induction false} MergingStarts<Owner>(ls: seq<Lock<Owner>>, l: Lock<Owner>)
    requires WellFormed(ls) && l.start < l.end
    ensures var f := Find(ls, l, None);
      Merging(SetLocks(ls, l), f.before, [], f.before + Insertable(f.new_), f.rest, f.new_, f.trailing)
  {
    SetNeverPanics(ls, l);
    var f := Find(ls, l, None);
    var m := Merge(f.rest, f.new_, f.trailing);
    FindInOrder(ls, l);
    WellFormedPairs(f.rest);
    assert [] + m.before == m.before;
    assert f.before + Insertable(f.new_) + [] == f.before + Insertable(f.new_);
    OpenMerging(SetLocks(ls, l), f.before, [], f.before + Insertable(f.new_), f.rest, f.new_, f.trailing);
  }

  lemma {:induction false} MergingNext<Owner>(
    result: seq<Lock<Owner>>, before: seq<Lock<Owner>>, kept: seq<Lock<Owner>>, front: seq<Lock<Owner>>,
    rest: seq<Lock<Owner>>, l: Lock<Owner>, tr: Option<Lock<Owner>>)
    requires Merging(result, before, kept, front, rest, l, tr) && rest != [] && rest[0].start <= l.end
    ensures front == before + Insertable(l) + kept && rest[0].typ != Unlocked
    ensures var e := rest[0]; e.owner != l.owner ==>
      Merging(result, before, kept + [e], front + [e], rest[1..], l, tr)
    ensures var e := rest[0]; e.owner == l.owner && l.end >= e.end ==>
      Merging(result, before, kept, front, rest[1..], l, tr)
    ensures var e := rest[0]; e.owner == l.owner && l.end < e.end && l.typ == e.typ ==>
      |before| < |front| && Merging(result, before, kept, front[|before| := l.(end := e.end)], rest[1..],
        l.(end := e.end), tr)
    ensures var e := rest[0]; e.owner == l.owner && l.end < e.end && l.typ != e.typ ==>
      tr.None? && Merging(result, before, kept, front, rest[1..], l, Some(e.(start := l.end)))
  {
    var e, l' := rest[0], l.(end := rest[0].end);
    OpenMerging(result, before, kept, front, rest, l, tr);
    if e.owner != l.owner {
      var m := Merge(rest[1..], l, tr);
      assert kept + ([e] + m.before) == kept + [e] + m.before;
      OpenMerging(result, before, kept + [e], front + [e], rest[1..], l, tr);
    } else if l.end >= e.end {
      OpenMerging(result, before, kept, front, rest[1..], l, tr);
    } else if l.typ == e.typ {
      assert front[|before| := l'] == before + [l'] + kept;
      OpenMerging(result, before, kept, front[|before| := l'], rest[1..], l', tr);
    } else {
      OpenMerging(result, before, kept, front, rest[1..], l, Some(e.(start := l.end)));
    }
  }

  lemma {:induction false} MergingEnds<Owner>(
    result: seq<Lock<Owner>>, before: seq<Lock<Owner>>, kept: seq<Lock<Owner>>, front: seq<Lock<Owner>>,
    rest: seq<Lock<Owner>>, l: Lock<Owner>, tr: Option<Lock<Owner>>)
    requires Merging(result, before, kept, front, rest, l, tr) && (rest == [] || l.end < rest[0].start)
    ensures result == front + ToSeq(tr) + rest
  {
    assert kept + [] == kept;
    OpenMerging(result, before, kept, front, rest, l, tr);
  }
}
