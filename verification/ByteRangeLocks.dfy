/**
 pkg/filesystem/virtual/byte_range_lock_set.go on values: the list of locks as a
 sequence, `Set` as a function of it, and what that function means for every byte.
 */
module ByteRangeLocks {
  import opened Common

  datatype LockType = Unlocked | Exclusive | Shared

  /** A lock on the bytes `start <= b < end`. */
  datatype Lock<Owner> = Lock(start: nat, end: nat, owner: Owner, typ: LockType)

  // ----- The state -----

  predicate Covers<Owner(==)>(l: Lock<Owner>, o: Owner, b: nat, t: LockType) {
    l.owner == o && l.start <= b < l.end && l.typ == t
  }

  /** Owner `o` holds a lock of type `t` on byte `b`. */
  ghost predicate Held<Owner>(ls: seq<Lock<Owner>>, o: Owner, b: nat, t: LockType) {
    ls != [] && (Covers(ls[0], o, b, t) || Held(ls[1..], o, b, t))
  }

  /** What the list promises of an entry and any later one: sorted by start, and locks of one owner are
      disjoint, and do not even touch when they are of the same type. */
  ghost predicate InOrder<Owner>(a: Lock<Owner>, b: Lock<Owner>) {
    && a.start <= b.start
    && (a.owner == b.owner ==> a.end <= b.start && (a.typ == b.typ ==> a.end < b.start))
  }

  ghost predicate Proper<Owner>(l: Lock<Owner>) { l.start < l.end && l.typ != Unlocked }

  ghost predicate AllInOrder<Owner>(as_: seq<Lock<Owner>>, bs: seq<Lock<Owner>>) {
    forall a, b :: a in as_ && b in bs ==> InOrder(a, b)
  }

  ghost predicate WellFormed<Owner>(ls: seq<Lock<Owner>>) {
    ls == [] || (Proper(ls[0]) && AllInOrder(ls[..1], ls[1..]) && WellFormed(ls[1..]))
  }

  // ----- Set -----

  datatype Search<Owner> = Search(
    before: seq<Lock<Owner>>, rest: seq<Lock<Owner>>, new_: Lock<Owner>, trailing: Option<Lock<Owner>>, panics: bool)

  /** The first loop: truncates entries in front of the new one and finds the place to insert it. */
  function Find<Owner(==)>(ls: seq<Lock<Owner>>, l: Lock<Owner>, trailing: Option<Lock<Owner>>): Search<Owner> {
    if ls == [] || l.start <= ls[0].start then Search([], ls, l, trailing, false)
    else
      var e := ls[0];
      if e.owner == l.owner && e.typ == l.typ && l.start <= e.end then
        Search([], ls, l.(start := e.start), trailing, false)
      else if e.owner == l.owner && e.typ != l.typ && l.start < e.end then
        var split := l.end < e.end;
        var r := Find(ls[1..], l, if split then Some(Lock(l.end, e.end, e.owner, e.typ)) else trailing);
        r.(before := [e.(end := l.start)] + r.before, panics := r.panics || (split && trailing.Some?))
      else
        var r := Find(ls[1..], l, trailing);
        r.(before := [e] + r.before)
  }

  /** The second loop: merges or removes the owner's entries that the new one reaches. */
  function Merge<Owner(==)>(ls: seq<Lock<Owner>>, l: Lock<Owner>, trailing: Option<Lock<Owner>>): Search<Owner> {
    if ls == [] || l.end < ls[0].start then Search([], ls, l, trailing, false)
    else
      var e := ls[0];
      if e.owner != l.owner then
        var r := Merge(ls[1..], l, trailing);
        r.(before := [e] + r.before)
      else if l.end >= e.end then Merge(ls[1..], l, trailing)
      else if l.typ == e.typ then Merge(ls[1..], l.(end := e.end), trailing)
      else
        var r := Merge(ls[1..], l, Some(e.(start := l.end)));
        r.(panics := r.panics || trailing.Some?)
  }

  function ToSeq<T>(o: Option<T>): seq<T> { if o.Some? then [o.value] else [] }

  function Insertable<Owner>(l: Lock<Owner>): seq<Lock<Owner>> { if l.typ == Unlocked then [] else [l] }

  /** The list after `Set`. */
  function SetLocks<Owner(==)>(ls: seq<Lock<Owner>>, l: Lock<Owner>): seq<Lock<Owner>> {
    var f := Find(ls, l, None);
    var m := Merge(f.rest, f.new_, f.trailing);
    f.before + Insertable(m.new_) + m.before + ToSeq(m.trailing) + m.rest
  }

  // ----- Lists -----

  lemma {:induction false} HeldConcat<Owner>(as_: seq<Lock<Owner>>, bs: seq<Lock<Owner>>, o: Owner, b: nat, t: LockType)
    ensures Held(as_ + bs, o, b, t) <==> Held(as_, o, b, t) || Held(bs, o, b, t)
  {
    if as_ == [] {
      assert as_ + bs == bs;
    } else {
      assert (as_ + bs)[1..] == as_[1..] + bs;
      HeldConcat(as_[1..], bs, o, b, t);
    }
  }

  lemma {:induction false} HeldBy<Owner>(ls: seq<Lock<Owner>>, o: Owner, b: nat, t: LockType)
    ensures Held(ls, o, b, t) <==> exists l :: l in ls && Covers(l, o, b, t)
  {
    if ls != [] {
      HeldBy(ls[1..], o, b, t);
      assert forall l :: l in ls <==> l == ls[0] || l in ls[1..];
    }
  }

  lemma {:induction false} WellFormedConcat<Owner>(as_: seq<Lock<Owner>>, bs: seq<Lock<Owner>>)
    ensures WellFormed(as_ + bs) <==> WellFormed(as_) && WellFormed(bs) && AllInOrder(as_, bs)
  {
    if as_ == [] {
      assert as_ + bs == bs;
    } else {
      assert (as_ + bs)[1..] == as_[1..] + bs && (as_ + bs)[..1] == as_[..1];
      WellFormedConcat(as_[1..], bs);
      assert forall a :: a in as_ <==> a in as_[..1] || a in as_[1..];
    }
  }

  lemma {:induction false} NotHeldAgain<Owner>(ls: seq<Lock<Owner>>, o: Owner, b: nat, t: LockType)
    requires WellFormed(ls) && ls != [] && Covers(ls[0], o, b, ls[0].typ)
    ensures !Held(ls[1..], o, b, t)
  {
    HeldBy(ls[1..], o, b, t);
    assert ls[0] in ls[..1];
  }

  /** At most one type of lock per owner and byte. */
  lemma {:induction false} HeldOnce<Owner>(ls: seq<Lock<Owner>>, o: Owner, b: nat, t: LockType, u: LockType)
    requires WellFormed(ls) && Held(ls, o, b, u)
    ensures Held(ls, o, b, t) <==> t == u && u != Unlocked
  {
    if Covers(ls[0], o, b, ls[0].typ) {
      NotHeldAgain(ls, o, b, t);
      NotHeldAgain(ls, o, b, u);
    } else {
      HeldOnce(ls[1..], o, b, t, u);
    }
  }

  // ----- The first loop -----

  ghost predicate HeldOpt<Owner>(tr: Option<Lock<Owner>>, o: Owner, b: nat, t: LockType) {
    tr.Some? && Covers(tr.value, o, b, t)
  }

  /** A trailing part starts where the new lock ends, belongs to its owner, and has a different type. */
  ghost predicate TrailingOf<Owner>(tr: Option<Lock<Owner>>, l: Lock<Owner>) {
    tr.Some? ==> Proper(tr.value) && tr.value.owner == l.owner && tr.value.typ != l.typ && tr.value.start == l.end
  }

  /** An entry in front of the new lock, cut off where the new lock starts. */
  ghost function Truncated<Owner>(e: Lock<Owner>, l: Lock<Owner>): Lock<Owner> {
    if e.owner == l.owner && e.typ != l.typ && l.start < e.end then e.(end := l.start) else e
  }

  /** The new lock punches a hole into the entry. */
  ghost predicate Splits<Owner>(e: Lock<Owner>, l: Lock<Owner>) {
    e.owner == l.owner && e.typ != l.typ && l.start < e.end && l.end < e.end
  }

  /** The loop goes on past an entry. */
  predicate Passes<Owner(==)>(e: Lock<Owner>, l: Lock<Owner>) {
    e.start < l.start && !(e.owner == l.owner && e.typ == l.typ && l.start <= e.end)
  }

  ghost function TruncatedAll<Owner>(ls: seq<Lock<Owner>>, l: Lock<Owner>): (r: seq<Lock<Owner>>)
    ensures |r| == |ls| && forall i :: 0 <= i < |ls| ==> r[i] == Truncated(ls[i], l)
  {
    if ls == [] then [] else [Truncated(ls[0], l)] + TruncatedAll(ls[1..], l)
  }

  /** The number of entries that the first loop passes. */
  ghost function Passed<Owner>(ls: seq<Lock<Owner>>, l: Lock<Owner>): (m: nat)
    ensures m <= |ls| && (forall i :: 0 <= i < m ==> Passes(ls[i], l)) && (m < |ls| ==> !Passes(ls[m], l))
  {
    if ls != [] && Passes(ls[0], l) then 1 + Passed(ls[1..], l) else 0
  }

  /** The first loop in terms of indices: it truncates the entries it passes, and may grow the new lock. */
  lemma {:induction false} FindPasses<Owner>(ls: seq<Lock<Owner>>, l: Lock<Owner>, tr: Option<Lock<Owner>>)
    ensures var f, m := Find(ls, l, tr), Passed(ls, l);
      && f.before == TruncatedAll(ls[..m], l) && f.rest == ls[m..]
      && f.new_ == if m == |ls| || l.start <= ls[m].start then l else l.(start := ls[m].start)
  {
    if ls != [] && Passes(ls[0], l) {
      var e, m := ls[0], Passed(ls, l);
      FindPasses(ls[1..], l, if Splits(e, l) then Some(Lock(l.end, e.end, e.owner, e.typ)) else tr);
      assert m == 1 + Passed(ls[1..], l);
      assert ls[..m][1..] == ls[1..][..m - 1] && ls[m..] == ls[1..][m - 1..];
      assert TruncatedAll(ls[..m], l) == [Truncated(e, l)] + TruncatedAll(ls[1..][..m - 1], l);
    }
  }

  /** Without entries of its owner to the left, a new lock splits nothing. */
  lemma {:induction false} FindSplitsNothing<Owner>(ls: seq<Lock<Owner>>, l: Lock<Owner>, tr: Option<Lock<Owner>>)
    requires forall e :: e in ls && e.owner == l.owner ==> l.start <= e.start
    ensures var f := Find(ls, l, tr); f.trailing == tr && !f.panics
  {
    if ls != [] && l.start > ls[0].start {
      assert ls[0] in ls;
      FindSplitsNothing(ls[1..], l, tr);
    }
  }

  /** The first panic is unreachable, as the new lock splits at most one entry. */
  lemma {:induction false} FindTrailing<Owner>(ls: seq<Lock<Owner>>, l: Lock<Owner>)
    requires WellFormed(ls)
    ensures var f := Find(ls, l, None);
      && !f.panics
      && (forall e :: e in ls && e.start < l.start && Splits(e, l) ==>
            f.trailing == Some(Lock(l.end, e.end, e.owner, e.typ)))
      && (f.trailing.Some? ==> exists e :: e in ls && e.start < l.start && Splits(e, l))
  {
    if ls != [] && Passes(ls[0], l) {
      var e := ls[0];
      assert e in ls[..1];
      assert forall x :: x in ls <==> x == e || x in ls[1..];
      if Splits(e, l) {
        FindSplitsNothing(ls[1..], l, Some(Lock(l.end, e.end, e.owner, e.typ)));
      } else {
        FindTrailing(ls[1..], l);
      }
    } else if ls != [] {
      NoSplitAhead(ls, l);
    }
  }

  lemma {:induction false} NoSplitAhead<Owner>(ls: seq<Lock<Owner>>, l: Lock<Owner>)
    requires WellFormed(ls) && ls != [] && !Passes(ls[0], l)
    ensures forall e :: e in ls && e.start < l.start ==> !Splits(e, l)
  {
    assert ls[0] in ls[..1];
    assert forall x :: x in ls <==> x == ls[0] || x in ls[1..];
  }

  lemma {:induction false} WellFormedPairs<Owner>(ls: seq<Lock<Owner>>)
    ensures WellFormed(ls) <==>
      (forall i :: 0 <= i < |ls| ==> Proper(ls[i])) && (forall i, j :: 0 <= i < j < |ls| ==> InOrder(ls[i], ls[j]))
  {
    if ls != [] {
      WellFormedPairs(ls[1..]);
      assert ls[..1] == [ls[0]];
      if WellFormed(ls) {
        forall i, j | 0 <= i < j < |ls| ensures InOrder(ls[i], ls[j]) {
          assert ls[j] == ls[1..][j - 1];
          if i > 0 { assert ls[i] == ls[1..][i - 1]; }
        }
        assert forall i :: 0 < i < |ls| ==> ls[i] == ls[1..][i - 1];
      }
    }
  }

  lemma {:induction false} TruncatedInOrder<Owner>(a: Lock<Owner>, b: Lock<Owner>, l: Lock<Owner>)
    requires InOrder(a, b) && a.start < l.start
    ensures InOrder(Truncated(a, l), b) && InOrder(Truncated(a, l), Truncated(b, l))
  {
  }

  lemma {:induction false} TruncatedAllInOrder<Owner>(ls: seq<Lock<Owner>>, l: Lock<Owner>)
    requires WellFormed(ls) && forall e :: e in ls ==> e.start < l.start
    ensures WellFormed(TruncatedAll(ls, l))
  {
    if ls != [] {
      var r := TruncatedAll(ls[1..], l);
      TruncatedAllInOrder(ls[1..], l);
      forall i | 0 <= i < |r| ensures InOrder(Truncated(ls[0], l), r[i]) {
        assert ls[0] in ls[..1] && ls[1..][i] in ls[1..];
        TruncatedInOrder(ls[0], ls[1..][i], l);
      }
      assert TruncatedAll(ls, l)[1..] == r;
    }
  }

  /** Entries that were passed are in order with anything they were in order with. */
  lemma {:induction false} TruncatedBefore<Owner>(as_: seq<Lock<Owner>>, bs: seq<Lock<Owner>>, l: Lock<Owner>)
    requires AllInOrder(as_, bs) && forall e :: e in as_ ==> e.start < l.start
    ensures AllInOrder(TruncatedAll(as_, l), bs)
  {
    var r := TruncatedAll(as_, l);
    forall a, b | a in r && b in bs ensures InOrder(a, b) {
      var i :| 0 <= i < |r| && r[i] == a;
      assert as_[i] in as_;
      TruncatedInOrder(as_[i], b, l);
    }
  }

  lemma {:induction false} PassedBeforeNew<Owner>(e: Lock<Owner>, l: Lock<Owner>)
    requires Passes(e, l) && Proper(e)
    ensures InOrder(Truncated(e, l), l)
  {
  }

  /** The entries in front of the new lock are in order, with one another and with everything that follows. */
  lemma {:induction false} FindInOrder<Owner>(ls: seq<Lock<Owner>>, l: Lock<Owner>)
    requires WellFormed(ls) && l.start < l.end
    ensures var f := Find(ls, l, None);
      WellFormed(f.before) && WellFormed(f.rest) && AllInOrder(f.before, f.rest) && AllInOrder(f.before, [f.new_])
  {
    var m := Passed(ls, l);
    FindPasses(ls, l, None);
    assert ls == ls[..m] + ls[m..];
    WellFormedConcat(ls[..m], ls[m..]);
    TruncatedAllInOrder(ls[..m], l);
    TruncatedBefore(ls[..m], ls[m..], l);
    BeforeNew(ls, l, m);
  }

  lemma {:induction false} BeforeNew<Owner>(ls: seq<Lock<Owner>>, l: Lock<Owner>, m: nat)
    requires WellFormed(ls) && m == Passed(ls, l)
    ensures var new_ := if m == |ls| || l.start <= ls[m].start then l else l.(start := ls[m].start);
            AllInOrder(TruncatedAll(ls[..m], l), [new_])
  {
    var new_ := if m == |ls| || l.start <= ls[m].start then l else l.(start := ls[m].start);
    var r := TruncatedAll(ls[..m], l);
    WellFormedPairs(ls);
    forall i | 0 <= i < m ensures InOrder(r[i], new_) {
      assert r[i] == Truncated(ls[i], l);
      PassedBeforeNew(ls[i], l);
      if m < |ls| {
        TruncatedInOrder(ls[i], ls[m], l);
      }
    }
  }

  /** What follows the place of insertion starts at or after the new lock. */
  lemma {:induction false} RestAfterNew<Owner>(ls: seq<Lock<Owner>>, l: Lock<Owner>)
    requires WellFormed(ls)
    ensures var f := Find(ls, l, None); forall e :: e in f.rest ==> f.new_.start <= e.start
  {
    var m := Passed(ls, l);
    FindPasses(ls, l, None);
    WellFormedPairs(ls);
    forall i | m <= i < |ls| ensures ls[m].start <= ls[i].start {
      if i > m { assert InOrder(ls[m], ls[i]); }
    }
  }

  /** The part of an entry behind the new lock. */
  ghost function Behind<Owner>(e: Lock<Owner>, l: Lock<Owner>): Lock<Owner> { Lock(l.end, e.end, e.owner, e.typ) }

  /** Byte `b` is held by a part of an entry that lies behind the new lock. */
  ghost predicate HeldBehind<Owner>(ls: seq<Lock<Owner>>, l: Lock<Owner>, o: Owner, b: nat, t: LockType) {
    ls != [] && ((Splits(ls[0], l) && Covers(Behind(ls[0], l), o, b, t)) || HeldBehind(ls[1..], l, o, b, t))
  }

  lemma {:induction false} HeldTruncated<Owner>(ls: seq<Lock<Owner>>, l: Lock<Owner>, o: Owner, b: nat, t: LockType)
    requires l.start < l.end && !(o == l.owner && l.start <= b < l.end) && forall e :: e in ls ==> e.start < l.start
    ensures Held(ls, o, b, t) <==> Held(TruncatedAll(ls, l), o, b, t) || HeldBehind(ls, l, o, b, t)
  {
    if ls != [] {
      assert ls[0] in ls;
      HeldTruncated(ls[1..], l, o, b, t);
      assert TruncatedAll(ls, l)[1..] == TruncatedAll(ls[1..], l);
    }
  }

  lemma {:induction false} HeldBehindBy<Owner>(ls: seq<Lock<Owner>>, l: Lock<Owner>, o: Owner, b: nat, t: LockType)
    ensures HeldBehind(ls, l, o, b, t) <==> exists e :: e in ls && Splits(e, l) && Covers(Behind(e, l), o, b, t)
  {
    if ls != [] {
      HeldBehindBy(ls[1..], l, o, b, t);
      assert forall e :: e in ls <==> e == ls[0] || e in ls[1..];
    }
  }

  lemma {:induction false} HeldTrailing<Owner>(ls: seq<Lock<Owner>>, l: Lock<Owner>, o: Owner, b: nat, t: LockType)
    requires WellFormed(ls)
    ensures HeldBehind(ls[..Passed(ls, l)], l, o, b, t) <==> HeldOpt(Find(ls, l, None).trailing, o, b, t)
  {
    var f, m := Find(ls, l, None), Passed(ls, l);
    FindTrailing(ls, l);
    HeldBehindBy(ls[..m], l, o, b, t);
    if f.trailing.Some? {
      var e :| e in ls && e.start < l.start && Splits(e, l);
      var k :| 0 <= k < |ls| && ls[k] == e;
      if k >= m { NoSplitAfter(ls, l, m, k); }
      assert e in ls[..m] && f.trailing.value == Behind(e, l);
    }
  }

  /** Outside of the new lock, the first loop changes nothing: a cut off part comes back as the trailing part. */
  lemma {:induction false} FindHeld<Owner>(ls: seq<Lock<Owner>>, l: Lock<Owner>, o: Owner, b: nat, t: LockType)
    requires WellFormed(ls) && l.start < l.end && !(o == l.owner && l.start <= b < l.end)
    ensures var f := Find(ls, l, None);
      Held(ls, o, b, t) <==> Held(f.before, o, b, t) || Held(f.rest, o, b, t) || HeldOpt(f.trailing, o, b, t)
  {
    var m := Passed(ls, l);
    FindPasses(ls, l, None);
    assert ls == ls[..m] + ls[m..];
    HeldConcat(ls[..m], ls[m..], o, b, t);
    HeldTruncated(ls[..m], l, o, b, t);
    HeldTrailing(ls, l, o, b, t);
  }

  /** Where the new lock grew to the left, its owner already held a lock of the same type. */
  lemma {:induction false} FindHeldGrown<Owner>(ls: seq<Lock<Owner>>, l: Lock<Owner>, b: nat)
    requires Find(ls, l, None).new_.start <= b < l.start
    ensures Held(Find(ls, l, None).rest, l.owner, b, l.typ)
  {
    FindPasses(ls, l, None);
  }

  /** The trailing part follows the new lock and everything in front of it; nothing else of its owner is near. */
  lemma {:induction false} FindTrailingInOrder<Owner>(ls: seq<Lock<Owner>>, l: Lock<Owner>)
    requires WellFormed(ls) && l.start < l.end
    ensures var f := Find(ls, l, None);
      && TrailingOf(f.trailing, l) && AllInOrder(f.before, ToSeq(f.trailing))
      && (f.trailing.Some? ==> f.new_ == l)
      && (f.trailing.Some? ==> forall e :: e in f.rest && e.owner == l.owner ==>
            && l.end < e.start && f.trailing.value.end <= e.start
            && (f.trailing.value.typ == e.typ ==> f.trailing.value.end < e.start))
  {
    var f, m := Find(ls, l, None), Passed(ls, l);
    FindPasses(ls, l, None);
    FindTrailing(ls, l);
    WellFormedPairs(ls);
    if f.trailing.Some? {
      var e :| e in ls && e.start < l.start && Splits(e, l);
      var k :| 0 <= k < |ls| && ls[k] == e;
      assert Proper(e);
      assert k < m by { if k >= m { NoSplitAfter(ls, l, m, k); } }
      forall i | 0 <= i < m ensures InOrder(f.before[i], f.trailing.value) {
        assert f.before[i] == Truncated(ls[i], l) && Passes(ls[i], l);
        assert i < k ==> InOrder(ls[i], ls[k]);
        assert k < i ==> InOrder(ls[k], ls[i]);
      }
      forall j | m <= j < |ls| && ls[j].owner == l.owner
        ensures e.end <= ls[j].start && (e.typ == ls[j].typ ==> e.end < ls[j].start)
      {
        assert InOrder(ls[k], ls[j]);
      }
    }
  }

  lemma {:induction false} NoSplitAfter<Owner>(ls: seq<Lock<Owner>>, l: Lock<Owner>, m: nat, k: nat)
    requires WellFormed(ls) && m == Passed(ls, l) && m <= k < |ls| && ls[k].start < l.start
    ensures !Splits(ls[k], l)
  {
    WellFormedPairs(ls);
    if k > m { assert InOrder(ls[m], ls[k]); }
  }

  // ----- The second loop -----

  /** What holds whenever the second loop looks at an entry. */
  ghost predicate Mergeable<Owner>(ls: seq<Lock<Owner>>, l: Lock<Owner>, tr: Option<Lock<Owner>>) {
    && WellFormed(ls) && l.start < l.end && TrailingOf(tr, l)
    && (forall e :: e in ls ==> l.start <= e.start)
    && (tr.Some? ==> forall e :: e in ls && e.owner == l.owner ==> l.end < e.start && InOrder(tr.value, e))
  }

  /** The new lock, the trailing part and the rest of the list after looking at the first entry. */
  ghost function MergeOne<Owner>(
    e: Lock<Owner>, l: Lock<Owner>, tr: Option<Lock<Owner>>): (Lock<Owner>, Option<Lock<Owner>>)
  {
    if e.owner != l.owner || l.end >= e.end then (l, tr)
    else if l.typ == e.typ then (l.(end := e.end), tr)
    else (l, Some(e.(start := l.end)))
  }

  lemma {:induction false} MergeableTail<Owner>(ls: seq<Lock<Owner>>, l: Lock<Owner>, tr: Option<Lock<Owner>>)
    requires Mergeable(ls, l, tr) && ls != [] && ls[0].start <= l.end
    ensures var (l', tr') := MergeOne(ls[0], l, tr); Mergeable(ls[1..], l', tr')
    ensures tr.Some? ==> ls[0].owner != l.owner
  {
    var e := ls[0];
    assert e in ls && e in ls[..1];
    assert forall x :: x in ls <==> x == e || x in ls[1..];
    forall x | x in ls[1..] ensures InOrder(e, x) {}
  }

  /** The second panic is unreachable, and the new lock only grows to the right. */
  lemma {:induction false} MergeShape<Owner>(ls: seq<Lock<Owner>>, l: Lock<Owner>, tr: Option<Lock<Owner>>)
    requires Mergeable(ls, l, tr)
    ensures var r := Merge(ls, l, tr);
      && !r.panics && r.new_ == l.(end := r.new_.end) && l.end <= r.new_.end
      && (tr.Some? ==> r.trailing == tr && r.new_ == l) && TrailingOf(r.trailing, r.new_)
      && (forall e :: e in r.before ==> e in ls && e.owner != l.owner && e.start <= r.new_.end)
      && (forall e :: e in r.rest ==> e in ls && r.new_.end < e.start)
  {
    if ls == [] {
    } else if l.end < ls[0].start {
      assert ls[0] in ls[..1];
      assert forall x :: x in ls <==> x == ls[0] || x in ls[1..];
    } else {
      var (l', tr') := MergeOne(ls[0], l, tr);
      MergeableTail(ls, l, tr);
      MergeShape(ls[1..], l', tr');
    }
  }

  /** What is left of the list is in order, and so is the trailing part in front of the rest. */
  lemma {:induction false} MergeInOrder<Owner>(ls: seq<Lock<Owner>>, l: Lock<Owner>, tr: Option<Lock<Owner>>)
    requires Mergeable(ls, l, tr)
    ensures var r := Merge(ls, l, tr);
      && WellFormed(r.before) && WellFormed(r.rest)
      && AllInOrder(r.before, r.rest) && AllInOrder(ToSeq(r.trailing), r.rest)
  {
    MergeShape(ls, l, tr);
    if ls != [] && l.end >= ls[0].start {
      var e := ls[0];
      var (l', tr') := MergeOne(e, l, tr);
      MergeableTail(ls, l, tr);
      MergeInOrder(ls[1..], l', tr');
      MergeShape(ls[1..], l', tr');
      var r := Merge(ls[1..], l', tr');
      assert e in ls[..1];
      if e.owner != l.owner {
        assert ([e] + r.before)[1..] == r.before && ([e] + r.before)[..1] == [e];
      }
    }
  }

  /** Outside of the grown lock, the second loop changes nothing. */
  lemma {:induction false} MergeHeld<Owner>(
    ls: seq<Lock<Owner>>, l: Lock<Owner>, tr: Option<Lock<Owner>>, o: Owner, b: nat, t: LockType)
    requires Mergeable(ls, l, tr) && !(o == l.owner && l.start <= b < Merge(ls, l, tr).new_.end)
    ensures var r := Merge(ls, l, tr);
      Held(ls, o, b, t) || HeldOpt(tr, o, b, t) <==>
      Held(r.before, o, b, t) || Held(r.rest, o, b, t) || HeldOpt(r.trailing, o, b, t)
  {
    if ls != [] && l.end >= ls[0].start {
      var (l', tr') := MergeOne(ls[0], l, tr);
      assert ls[0] in ls;
      MergeableTail(ls, l, tr);
      MergeShape(ls[1..], l', tr');
      MergeHeld(ls[1..], l', tr', o, b, t);
    }
  }

  /** Where the new lock grew to the right, its owner already held a lock of the same type. */
  lemma {:induction false} MergeHeldGrown<Owner>(ls: seq<Lock<Owner>>, l: Lock<Owner>, tr: Option<Lock<Owner>>, b: nat)
    requires Mergeable(ls, l, tr) && l.end <= b < Merge(ls, l, tr).new_.end
    ensures Held(ls, l.owner, b, l.typ)
  {
    if ls != [] && l.end >= ls[0].start {
      var (l', tr') := MergeOne(ls[0], l, tr);
      assert ls[0] in ls;
      MergeableTail(ls, l, tr);
      if b >= l'.end {
        MergeHeldGrown(ls[1..], l', tr', b);
      }
    }
  }

  // ----- Set as a whole -----

  lemma {:induction false} SetMergeable<Owner>(ls: seq<Lock<Owner>>, l: Lock<Owner>)
    requires WellFormed(ls) && l.start < l.end
    ensures var f := Find(ls, l, None); Mergeable(f.rest, f.new_, f.trailing) && f.new_ == l.(start := f.new_.start)
  {
    FindPasses(ls, l, None);
    FindInOrder(ls, l);
    RestAfterNew(ls, l);
    FindTrailingInOrder(ls, l);
  }

  /** Neither of the "impossible" panics of `Set` is reachable. */
  lemma {:induction false} SetNeverPanics<Owner>(ls: seq<Lock<Owner>>, l: Lock<Owner>)
    requires WellFormed(ls) && l.start < l.end
    ensures var f := Find(ls, l, None); !f.panics && !Merge(f.rest, f.new_, f.trailing).panics
  {
    FindTrailing(ls, l);
    SetMergeable(ls, l);
    var f := Find(ls, l, None);
    MergeShape(f.rest, f.new_, f.trailing);
  }

  lemma {:induction false} ConcatInOrder<Owner>(as_: seq<Lock<Owner>>, bs: seq<Lock<Owner>>, cs: seq<Lock<Owner>>)
    requires AllInOrder(as_, cs) && AllInOrder(bs, cs)
    ensures AllInOrder(as_ + bs, cs)
  {
  }

  lemma {:induction false} WellFormedThree<Owner>(as_: seq<Lock<Owner>>, bs: seq<Lock<Owner>>, cs: seq<Lock<Owner>>)
    requires WellFormed(as_) && WellFormed(bs) && WellFormed(cs)
    requires AllInOrder(as_, bs) && AllInOrder(as_, cs) && AllInOrder(bs, cs)
    ensures WellFormed(as_ + bs + cs)
  {
    WellFormedConcat(as_, bs);
    ConcatInOrder(as_, bs, cs);
    WellFormedConcat(as_ + bs, cs);
  }

  lemma {:induction false} WellFormedFive<Owner>(
    a: seq<Lock<Owner>>, n: seq<Lock<Owner>>, b: seq<Lock<Owner>>, t: seq<Lock<Owner>>, r: seq<Lock<Owner>>)
    requires WellFormed(a) && WellFormed(n) && WellFormed(b) && WellFormed(t) && WellFormed(r)
    requires AllInOrder(a, n) && AllInOrder(a, b) && AllInOrder(a, t) && AllInOrder(a, r)
    requires AllInOrder(n, b) && AllInOrder(n, t) && AllInOrder(n, r)
    requires AllInOrder(b, t) && AllInOrder(b, r) && AllInOrder(t, r)
    ensures WellFormed(a + n + b + t + r)
  {
    WellFormedThree(a, n, b);
    ConcatInOrder(a, n, t);
    ConcatInOrder(a + n, b, t);
    ConcatInOrder(a, n, r);
    ConcatInOrder(a + n, b, r);
    WellFormedThree(a + n + b, t, r);
  }

  /** The new lock, and what the second loop leaves behind. */
  lemma {:induction false} NewInOrder<Owner>(ls: seq<Lock<Owner>>, l: Lock<Owner>, tr: Option<Lock<Owner>>)
    requires Mergeable(ls, l, tr)
    ensures var r := Merge(ls, l, tr); var n, t := Insertable(r.new_), ToSeq(r.trailing);
      && WellFormed(n) && WellFormed(t)
      && AllInOrder(n, r.before) && AllInOrder(n, t) && AllInOrder(n, r.rest) && AllInOrder(r.before, t)
  {
    MergeShape(ls, l, tr);
  }

  /** The entries in front of the new lock. */
  lemma {:induction false} FrontInOrder<Owner>(
    before: seq<Lock<Owner>>, ls: seq<Lock<Owner>>, l: Lock<Owner>, tr: Option<Lock<Owner>>)
    requires Mergeable(ls, l, tr)
    requires AllInOrder(before, ls) && AllInOrder(before, [l]) && AllInOrder(before, ToSeq(tr))
    ensures var r := Merge(ls, l, tr);
      && AllInOrder(before, Insertable(r.new_)) && AllInOrder(before, r.before)
      && AllInOrder(before, ToSeq(r.trailing)) && AllInOrder(before, r.rest)
  {
    MergeShape(ls, l, tr);
    MergeTrailingSource(ls, l, tr);
    assert l in [l];
  }

  /** `Set` keeps the list sorted, and each owner's locks disjoint and merged. */
  lemma {:induction false} SetKeepsWellFormed<Owner>(ls: seq<Lock<Owner>>, l: Lock<Owner>)
    requires WellFormed(ls) && l.start < l.end
    ensures WellFormed(SetLocks(ls, l))
  {
    var f := Find(ls, l, None);
    SetMergeable(ls, l);
    FindInOrder(ls, l);
    FindTrailingInOrder(ls, l);
    MergeInOrder(f.rest, f.new_, f.trailing);
    NewInOrder(f.rest, f.new_, f.trailing);
    FrontInOrder(f.before, f.rest, f.new_, f.trailing);
    var m := Merge(f.rest, f.new_, f.trailing);
    WellFormedFive(f.before, Insertable(m.new_), m.before, ToSeq(m.trailing), m.rest);
  }

  ghost predicate EndOf<Owner>(l: Lock<Owner>, e: Lock<Owner>) { l == e.(start := l.start) && e.start <= l.start }

  /** A trailing part is the one of the first loop, or the end of an entry of the list. */
  lemma {:induction false} MergeTrailingSource<Owner>(ls: seq<Lock<Owner>>, l: Lock<Owner>, tr: Option<Lock<Owner>>)
    requires Mergeable(ls, l, tr)
    ensures var r := Merge(ls, l, tr);
      r.trailing == tr || (r.trailing.Some? && exists e :: e in ls && EndOf(r.trailing.value, e))
  {
    if ls != [] && l.end >= ls[0].start {
      var (l', tr') := MergeOne(ls[0], l, tr);
      assert ls[0] in ls;
      MergeableTail(ls, l, tr);
      MergeShape(ls[1..], l', tr');
      MergeTrailingSource(ls[1..], l', tr');
    }
  }

  /** `Set` sets the type of lock of this owner on exactly these bytes, and changes nothing else. */
  lemma {:induction false} SetRefines<Owner>(ls: seq<Lock<Owner>>, l: Lock<Owner>, o: Owner, b: nat, t: LockType)
    requires WellFormed(ls) && l.start < l.end
    ensures Held(SetLocks(ls, l), o, b, t) <==>
      if o == l.owner && l.start <= b < l.end then t == l.typ && t != Unlocked else Held(ls, o, b, t)
  {
    var f := Find(ls, l, None);
    SetMergeable(ls, l);
    var m := Merge(f.rest, f.new_, f.trailing);
    MergeShape(f.rest, f.new_, f.trailing);
    FindPasses(ls, l, None);
    HeldInResult(ls, l, o, b, t);
    if o == l.owner && m.new_.start <= b < m.new_.end {
      InsideNewLock(ls, l, b, t);
    } else {
      FindHeld(ls, l, o, b, t);
      MergeHeld(f.rest, f.new_, f.trailing, o, b, t);
    }
  }

  lemma {:induction false} HeldInResult<Owner>(ls: seq<Lock<Owner>>, l: Lock<Owner>, o: Owner, b: nat, t: LockType)
    ensures var f := Find(ls, l, None); var m := Merge(f.rest, f.new_, f.trailing);
      Held(SetLocks(ls, l), o, b, t) <==>
      || Held(f.before, o, b, t) || (Covers(m.new_, o, b, t) && m.new_.typ != Unlocked)
      || Held(m.before, o, b, t) || HeldOpt(m.trailing, o, b, t) || Held(m.rest, o, b, t)
  {
    var f := Find(ls, l, None);
    var m := Merge(f.rest, f.new_, f.trailing);
    var new_, trailing := Insertable(m.new_), ToSeq(m.trailing);
    HeldConcat(f.before + new_ + m.before + trailing, m.rest, o, b, t);
    HeldConcat(f.before + new_ + m.before, trailing, o, b, t);
    HeldConcat(f.before + new_, m.before, o, b, t);
    HeldConcat(f.before, new_, o, b, t);
  }

  /** Within the grown lock its owner holds that lock and no other, before (where it grew) and after. */
  lemma {:induction false} InsideNewLock<Owner>(ls: seq<Lock<Owner>>, l: Lock<Owner>, b: nat, t: LockType)
    requires WellFormed(ls) && l.start < l.end
    requires var f := Find(ls, l, None);
      f.new_.start <= b && Mergeable(f.rest, f.new_, f.trailing) && b < Merge(f.rest, f.new_, f.trailing).new_.end
    ensures Held(SetLocks(ls, l), l.owner, b, t) <==> t == l.typ && t != Unlocked
    ensures !(l.start <= b < l.end) ==> (Held(ls, l.owner, b, t) <==> t == l.typ && t != Unlocked)
  {
    var f := Find(ls, l, None);
    var m := Merge(f.rest, f.new_, f.trailing);
    FindPasses(ls, l, None);
    MergeShape(f.rest, f.new_, f.trailing);
    HeldInResult(ls, l, l.owner, b, t);
    NotElsewhere(ls, l, b, t);
    if !(l.start <= b < l.end) {
      GrownWhereHeld(ls, l, b, t);
    }
  }

  /** The new lock grows only where its owner holds such a lock already. */
  lemma {:induction false} GrownWhereHeld<Owner>(ls: seq<Lock<Owner>>, l: Lock<Owner>, b: nat, t: LockType)
    requires WellFormed(ls) && l.start < l.end && !(l.start <= b < l.end)
    requires var f := Find(ls, l, None);
      f.new_.start <= b && Mergeable(f.rest, f.new_, f.trailing) && b < Merge(f.rest, f.new_, f.trailing).new_.end
    ensures Held(ls, l.owner, b, t) <==> t == l.typ && t != Unlocked
  {
    var f := Find(ls, l, None);
    FindPasses(ls, l, None);
    if b < l.start {
      FindHeldGrown(ls, l, b);
    } else {
      MergeHeldGrown(f.rest, f.new_, f.trailing, b);
    }
    var k := Passed(ls, l);
    HeldConcat(ls[..k], ls[k..], l.owner, b, l.typ);
    assert ls == ls[..k] + ls[k..];
    HeldOnce(ls, l.owner, b, t, l.typ);
  }

  /** Nothing else in the result covers a byte of the grown lock for its owner. */
  lemma {:induction false} NotElsewhere<Owner>(ls: seq<Lock<Owner>>, l: Lock<Owner>, b: nat, t: LockType)
    requires WellFormed(ls) && l.start < l.end
    requires var f := Find(ls, l, None);
      f.new_.start <= b && Mergeable(f.rest, f.new_, f.trailing) && b < Merge(f.rest, f.new_, f.trailing).new_.end
    ensures var f := Find(ls, l, None); var m := Merge(f.rest, f.new_, f.trailing);
      && !Held(f.before, l.owner, b, t) && !Held(m.before, l.owner, b, t)
      && !Held(m.rest, l.owner, b, t) && !HeldOpt(m.trailing, l.owner, b, t)
  {
    var f := Find(ls, l, None);
    FindInOrder(ls, l);
    NotInFront(f.before, f.new_, b, t);
    FindPasses(ls, l, None);
    NotAfterMerge(f.rest, f.new_, f.trailing, b, t);
  }

  lemma {:induction false} NotInFront<Owner>(before: seq<Lock<Owner>>, l: Lock<Owner>, b: nat, t: LockType)
    requires AllInOrder(before, [l]) && l.start <= b
    ensures !Held(before, l.owner, b, t)
  {
    HeldBy(before, l.owner, b, t);
    assert l in [l];
  }

  lemma {:induction false} NotAfterMerge<Owner>(
    ls: seq<Lock<Owner>>, l: Lock<Owner>, tr: Option<Lock<Owner>>, b: nat, t: LockType)
    requires Mergeable(ls, l, tr) && b < Merge(ls, l, tr).new_.end
    ensures var m := Merge(ls, l, tr);
      !Held(m.before, l.owner, b, t) && !Held(m.rest, l.owner, b, t) && !HeldOpt(m.trailing, l.owner, b, t)
  {
    var m := Merge(ls, l, tr);
    MergeShape(ls, l, tr);
    HeldBy(m.before, l.owner, b, t);
    HeldBy(m.rest, l.owner, b, t);
  }

  // ----- Test -----

  /** An entry of another owner overlaps with the lock, and one of the two is exclusive. */
  predicate Conflicts<Owner(==)>(e: Lock<Owner>, l: Lock<Owner>) {
    e.owner != l.owner && e.start < l.end && l.start < e.end && (e.typ == Exclusive || l.typ == Exclusive)
  }

  /** The entry that `Test` returns: its scan stops at the first entry that starts behind the lock. */
  function TestLock<Owner(==)>(ls: seq<Lock<Owner>>, l: Lock<Owner>): Option<Lock<Owner>> {
    if ls == [] || ls[0].start >= l.end then None
    else if ls[0].owner != l.owner && ls[0].end > l.start && (ls[0].typ == Exclusive || l.typ == Exclusive) then
      Some(ls[0])
    else TestLock(ls[1..], l)
  }

  /** The early exit misses nothing: a result is a conflicting entry, and without one there is no conflict. */
  lemma {:induction false} TestFindsConflict<Owner>(ls: seq<Lock<Owner>>, l: Lock<Owner>)
    requires WellFormed(ls)
    ensures var r := TestLock(ls, l);
      && (r.Some? ==> r.value in ls && Conflicts(r.value, l))
      && (r.None? ==> forall e :: e in ls ==> !Conflicts(e, l))
  {
    if ls != [] {
      assert ls[0] in ls[..1];
      assert forall x :: x in ls <==> x == ls[0] || x in ls[1..];
      TestFindsConflict(ls[1..], l);
    }
  }

  /** `Test` in terms of bytes: it returns nil exactly if no byte of the lock is held by another owner in a
      type that excludes it. */
  lemma {:induction false} TestIsExact<Owner(!new)>(ls: seq<Lock<Owner>>, l: Lock<Owner>)
    requires WellFormed(ls) && l.start < l.end
    ensures TestLock(ls, l).None? <==>
      forall o, b: nat, t :: o != l.owner && l.start <= b < l.end && (t == Exclusive || l.typ == Exclusive) ==>
        !Held(ls, o, b, t)
  {
    TestFindsConflict(ls, l);
    if TestLock(ls, l).None? {
      forall o, b: nat, t | o != l.owner && l.start <= b < l.end && (t == Exclusive || l.typ == Exclusive)
        ensures !Held(ls, o, b, t)
      {
        HeldBy(ls, o, b, t);
      }
    } else {
      var e := TestLock(ls, l).value;
      var b := if e.start < l.start then l.start else e.start;
      HeldBy(ls, e.owner, b, e.typ);
      assert Covers(e, e.owner, b, e.typ) by { WellFormedPairs(ls); }
    }
  }

  /** No byte is held exclusively by one owner and in any type by another. */
  ghost predicate MutuallyExclusive<Owner(!new)>(ls: seq<Lock<Owner>>) {
    forall o, o', b: nat, t :: o != o' && Held(ls, o, b, Exclusive) ==> !Held(ls, o', b, t)
  }

  /** Setting a lock keeps mutual exclusion exactly if the lock passes `Test`, or is an unlock. */
  lemma {:induction false} SetKeepsMutualExclusion<Owner(!new)>(ls: seq<Lock<Owner>>, l: Lock<Owner>)
    requires WellFormed(ls) && l.start < l.end && MutuallyExclusive(ls)
    ensures MutuallyExclusive(SetLocks(ls, l)) <==> TestLock(ls, l).None? || l.typ == Unlocked
  {
    if TestLock(ls, l).None? || l.typ == Unlocked {
      TestIsExact(ls, l);
      forall o, o', b: nat, t | o != o' && Held(SetLocks(ls, l), o, b, Exclusive)
        ensures !Held(SetLocks(ls, l), o', b, t)
      {
        SetRefines(ls, l, o, b, Exclusive);
        SetRefines(ls, l, o', b, t);
      }
    } else {
      ConflictBreaksExclusion(ls, l);
    }
  }

  lemma {:induction false} ConflictBreaksExclusion<Owner(!new)>(ls: seq<Lock<Owner>>, l: Lock<Owner>)
    requires WellFormed(ls) && l.start < l.end && TestLock(ls, l).Some? && l.typ != Unlocked
    ensures !MutuallyExclusive(SetLocks(ls, l))
  {
    TestFindsConflict(ls, l);
    WellFormedPairs(ls);
    var e := TestLock(ls, l).value;
    var b := if e.start < l.start then l.start else e.start;
    HeldBy(ls, e.owner, b, e.typ);
    assert Covers(e, e.owner, b, e.typ);
    SetRefines(ls, l, e.owner, b, e.typ);
    SetRefines(ls, l, l.owner, b, l.typ);
  }

  // ----- Any number of calls -----

  /** The list after a series of calls to `Set` on an empty one. */
  ghost function SetAll<Owner>(calls: seq<Lock<Owner>>): seq<Lock<Owner>> {
    if calls == [] then [] else SetLocks(SetAll(calls[..|calls| - 1]), calls[|calls| - 1])
  }

  /** What `fcntl()` prescribes: the type that an owner's last call covering a byte asked for. */
  ghost function LastType<Owner>(calls: seq<Lock<Owner>>, o: Owner, b: nat): LockType {
    if calls == [] then Unlocked
    else
      var l := calls[|calls| - 1];
      if l.owner == o && l.start <= b < l.end then l.typ else LastType(calls[..|calls| - 1], o, b)
  }

  lemma {:induction false} SetAllWellFormed<Owner>(calls: seq<Lock<Owner>>)
    requires forall l :: l in calls ==> l.start < l.end
    ensures WellFormed(SetAll(calls))
  {
    if calls != [] {
      var n := |calls| - 1;
      SetAllWellFormed(calls[..n]);
      assert calls[n] in calls;
      SetKeepsWellFormed(SetAll(calls[..n]), calls[n]);
    }
  }

  /** After any series of calls the list says of every byte and owner what the last call covering it asked for. */
  lemma {:induction false} SetAllRefines<Owner>(calls: seq<Lock<Owner>>, o: Owner, b: nat, t: LockType)
    requires forall l :: l in calls ==> l.start < l.end
    ensures Held(SetAll(calls), o, b, t) <==> t != Unlocked && LastType(calls, o, b) == t
  {
    if calls != [] {
      var n := |calls| - 1;
      SetAllRefines(calls[..n], o, b, t);
      SetAllWellFormed(calls[..n]);
      assert calls[n] in calls;
      SetRefines(SetAll(calls[..n]), calls[n], o, b, t);
    }
  }
}
