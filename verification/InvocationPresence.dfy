/**
 pkg/scheduler/in_memory_build_queue.go: how queued operations and parked workers are found from
 the root. Every invocation has a list of its own items, and a heap of the child invocations that
 have items somewhere below them. Items and children record their position in their container.
 */
module InvocationPresence {
  import opened Common
  import opened InvocationTree
  import opened IndexedHeap

  function ListAt<T>(lists: map<Invocation, seq<T>>, n: Invocation): seq<T> { if n in lists then lists[n] else [] }

  datatype Presence<!Item(==)> = Presence(
    direct: map<Invocation, seq<Item>>, index: map<Item, int>,
    kids: map<Invocation, seq<Invocation>>, kidIndex: map<Invocation, int>)
  {
    function Direct(n: Invocation): seq<Item> { ListAt(direct, n) }

    function Kids(n: Invocation): seq<Invocation> { ListAt(kids, n) }

    /** isQueued(), and its counterpart for parked workers. */
    predicate Present(n: Invocation) { |Direct(n)| > 0 || |Kids(n)| > 0 }
  }

  function Empty<Item>(): Presence<Item> { Presence(map[], map[], map[], map[]) }

  /** Exactly the items of `place` are listed, each at its own invocation and at its recorded position. */
  ghost predicate Listed<Item(!new)>(
    lists: map<Invocation, seq<Item>>, index: map<Item, int>, place: map<Item, Invocation>)
  {
    && (forall n :: Indexed(ListAt(lists, n), index))
    && (forall n, x :: x in ListAt(lists, n) <==> x in place && place[x] == n)
    && (forall x :: x !in place ==> IndexOf(index, x) == -1)
  }

  /** Whether a child is in the heap of its parent; the one that an update has yet to reach may be out of date. */
  ghost predicate Shown<Item>(p: Presence<Item>, c: Invocation, late: Option<Invocation>) {
    if late == Some(c) then IndexOf(p.kidIndex, c) != -1 else p.Present(c)
  }

  /** Heaps hold exactly the children that have items, at their recorded positions. */
  ghost predicate KidsOk<Item>(p: Presence<Item>, late: Option<Invocation>) {
    && (forall n :: Indexed(p.Kids(n), p.kidIndex))
    && (forall n, c :: c in p.Kids(n) <==> c.Child? && c.parent == n && Shown(p, c, late))
    && (forall c :: IndexOf(p.kidIndex, c) != -1 ==> c.Child? && Shown(p, c, late))
  }

  ghost predicate Valid<Item(!new)>(p: Presence<Item>, place: map<Item, Invocation>) {
    Listed(p.direct, p.index, place) && KidsOk(p, None)
  }

  // ----- Updates of one level -----

  /** The heap of a parent is brought up to date with child `i`; next is the parent's own place in a heap. */
  lemma {:induction false} UpdateKids<Item>(
    p0: Presence<Item>, i: Invocation, h: seq<Invocation>, idx: map<Invocation, int>)
    requires i.Child? && KidsOk(p0, Some(i)) && Indexed(h, idx)
    requires forall c :: c != i ==> (c in h <==> c in p0.Kids(i.parent))
    requires i in h <==> p0.Present(i)
    requires forall c :: c !in h && c != i ==> IndexOf(idx, c) == IndexOf(p0.kidIndex, c)
    requires i !in h ==> IndexOf(idx, i) == -1
    ensures KidsOk(p0.(kids := p0.kids[i.parent := h], kidIndex := idx), Some(i.parent))
  {
    var p := p0.(kids := p0.kids[i.parent := h], kidIndex := idx);
    assert forall c :: c in h ==> c.Child? && c.parent == i.parent;
    forall n ensures Indexed(p.Kids(n), idx) {
      if n != i.parent {
        forall k | 0 <= k < |p.Kids(n)| ensures IndexOf(idx, p.Kids(n)[k]) == k {
          assert Indexed(p0.Kids(n), p0.kidIndex);
          assert p.Kids(n)[k] in p0.Kids(n);
        }
      }
    }
    forall c ensures Shown(p, c, Some(i.parent)) == if c == i.parent then IndexOf(idx, c) != -1 else p0.Present(c) {}
    forall n, c ensures c in p.Kids(n) <==> c.Child? && c.parent == n && Shown(p, c, Some(i.parent)) {
      assert c in p0.Kids(n) <==> c.Child? && c.parent == n && Shown(p0, c, Some(i));
      if c == i.parent {
        assert c !in h;
      }
    }
    forall c | IndexOf(idx, c) != -1 ensures c.Child? && Shown(p, c, Some(i.parent)) {
      if c != i && c in h {
        assert c in p0.Kids(i.parent);
      }
    }
  }

  /** The elements that an invocation has of its own. */
  ghost function PlacedAt<Item(!new)>(place: map<Item, Invocation>, n: Invocation): set<Item> {
    set x | x in place && place[x] == n
  }

  lemma {:induction false} DirectCount<Item(!new)>(p: Presence<Item>, place: map<Item, Invocation>, n: Invocation)
    requires Valid(p, place)
    ensures |p.Direct(n)| == |PlacedAt(place, n)|
  {
    assert Indexed(p.Direct(n), p.index);
    Distinct(p.Direct(n), p.index);
    assert (set x | x in p.Direct(n)) == PlacedAt(place, n) by {
      forall x ensures x in p.Direct(n) <==> x in place && place[x] == n {
        assert x in ListAt(p.direct, n) <==> x in p.Direct(n);
      }
    }
  }

  /** heapPushOrFix() */
  method PushOrFix<Item(==, !new)>(p0: Presence<Item>, i: Invocation) returns (p: Presence<Item>)
    requires i.Child? && KidsOk(p0, Some(i)) && p0.Present(i)
    ensures KidsOk(p, Some(i.parent)) && p.Present(i.parent)
    ensures p.direct == p0.direct && p.index == p0.index
  {
    var h, idx;
    assert i in p0.Kids(i.parent) <==> IndexOf(p0.kidIndex, i) != -1;
    if IndexOf(p0.kidIndex, i) < 0 {
      h, idx := Push(p0.Kids(i.parent), p0.kidIndex, i);
    } else {
      h, idx := Fix(p0.Kids(i.parent), p0.kidIndex, IndexOf(p0.kidIndex, i));
    }
    UpdateKids(p0, i, h, idx);
    p := p0.(kids := p0.kids[i.parent := h], kidIndex := idx);
  }

  /** heapRemoveOrFix() */
  method RemoveOrFix<Item(==, !new)>(p0: Presence<Item>, i: Invocation) returns (p: Presence<Item>)
    requires i.Child? && KidsOk(p0, Some(i)) && IndexOf(p0.kidIndex, i) != -1
    ensures KidsOk(p, Some(i.parent)) && IndexOf(p.kidIndex, i.parent) == IndexOf(p0.kidIndex, i.parent)
    ensures p.direct == p0.direct && p.index == p0.index
  {
    var h, idx;
    assert i in p0.Kids(i.parent);
    var k := IndexOf(p0.kidIndex, i);
    assert 0 <= k < |p0.Kids(i.parent)| && p0.Kids(i.parent)[k] == i;
    if |p0.Kids(i)| + |p0.Direct(i)| > 0 {
      h, idx := Fix(p0.Kids(i.parent), p0.kidIndex, k);
    } else {
      h, idx := Remove(p0.Kids(i.parent), p0.kidIndex, k);
    }
    UpdateKids(p0, i, h, idx);
    p := p0.(kids := p0.kids[i.parent := h], kidIndex := idx);
  }

  /** heapMaybeFix() */
  method MaybeFix<Item(==, !new)>(p0: Presence<Item>, i: Invocation, ghost place: map<Item, Invocation>)
    returns (p: Presence<Item>)
    requires i.Child? && Valid(p0, place)
    ensures Valid(p, place) && forall n :: p.Present(n) == p0.Present(n)
  {
    p := p0;
    if IndexOf(p0.kidIndex, i) >= 0 {
      assert i in p0.Kids(i.parent);
      assert Indexed(p0.Kids(i.parent), p0.kidIndex);
      var h, idx := Fix(p0.Kids(i.parent), p0.kidIndex, IndexOf(p0.kidIndex, i));
      LateOrNot(p0, i);
      UpdateKids(p0, i, h, idx);
      p := p0.(kids := p0.kids[i.parent := h], kidIndex := idx);
      FixKeepsPresent(p0, i, h, idx);
    }
  }

  /** What is up to date may also be treated as if it were not. */
  lemma {:induction false} LateOrNot<Item>(p: Presence<Item>, i: Invocation)
    requires KidsOk(p, None)
    ensures KidsOk(p, Some(i))
  {
    OnlyDirectChanged(p, p.(direct := p.direct[i := p.Direct(i)]), i);
    var p' := p.(direct := p.direct[i := p.Direct(i)]);
    forall n ensures p.Present(n) == p'.Present(n) && p.Kids(n) == p'.Kids(n) {}
    forall c ensures Shown(p, c, Some(i)) == Shown(p', c, Some(i)) {}
    forall n, c ensures c in p.Kids(n) <==> c.Child? && c.parent == n && Shown(p, c, Some(i)) {
      assert c in p'.Kids(n) <==> c.Child? && c.parent == n && Shown(p', c, Some(i));
    }
  }

  lemma {:induction false} FixKeepsPresent<Item>(
    p0: Presence<Item>, i: Invocation, h: seq<Invocation>, idx: map<Invocation, int>)
    requires i.Child? && KidsOk(p0, None) && i in p0.Kids(i.parent) && |h| == |p0.Kids(i.parent)|
    requires var p := p0.(kids := p0.kids[i.parent := h], kidIndex := idx);
      KidsOk(p, Some(i.parent)) && (i.parent !in h) && (i.parent !in p0.Kids(i.parent))
    requires forall c :: c !in h ==> IndexOf(idx, c) == IndexOf(p0.kidIndex, c)
    ensures var p := p0.(kids := p0.kids[i.parent := h], kidIndex := idx);
      KidsOk(p, None) && forall n :: p.Present(n) == p0.Present(n)
  {
    var p := p0.(kids := p0.kids[i.parent := h], kidIndex := idx);
    forall n ensures p.Present(n) == p0.Present(n) && p.Direct(n) == p0.Direct(n) {}
    var u := i.parent;
    assert u.Child? && p0.Present(u) ==> u in p0.Kids(u.parent) && Indexed(p0.Kids(u.parent), p0.kidIndex);
    forall c: Invocation | c.Child? ensures Shown(p, c, Some(u)) == Shown(p, c, None) {}
    forall n, c ensures c in p.Kids(n) <==> c.Child? && c.parent == n && Shown(p, c, None) {
      assert c in p.Kids(n) <==> c.Child? && c.parent == n && Shown(p, c, Some(u));
    }
  }

  // ----- Adding and removing items -----

  /** operation.enqueue(), and the part of worker.getNextTask() that parks a worker. */
  method Add<Item(==, !new)>(p0: Presence<Item>, x: Item, n: Invocation, ghost place: map<Item, Invocation>)
    returns (p: Presence<Item>)
    requires Valid(p0, place) && x !in place
    ensures Valid(p, place[x := n])
  {
    p := AddDirect(p0, x, n, place);
    var i := n;
    while i.Child?
      invariant Listed(p.direct, p.index, place[x := n]) && KidsOk(p, Some(i)) && p.Present(i)
      decreases i
    {
      p := PushOrFix(p, i);
      i := i.parent;
    }
  }

  method AddDirect<Item(==, !new)>(p0: Presence<Item>, x: Item, n: Invocation, ghost place: map<Item, Invocation>)
    returns (p: Presence<Item>)
    requires Valid(p0, place) && x !in place
    ensures Listed(p.direct, p.index, place[x := n]) && KidsOk(p, Some(n)) && p.Present(n)
  {
    var h, idx := Push(p0.Direct(n), p0.index, x);
    p := p0.(direct := p0.direct[n := h], index := idx);
    DirectUpdated(p0, p, n, place, place[x := n]);
    OnlyDirectChanged(p0, p, n);
  }

  /** operation.removeQueuedFromInvocation(), and worker.dequeue(). */
  method Take<Item(==, !new)>(p0: Presence<Item>, x: Item, ghost place: map<Item, Invocation>, n: Invocation)
    returns (p: Presence<Item>)
    requires Valid(p0, place) && x in place && place[x] == n
    ensures Valid(p, place - {x})
  {
    p := TakeDirect(p0, x, place, n);
    var i := n;
    while i.Child?
      invariant Listed(p.direct, p.index, place - {x}) && KidsOk(p, Some(i))
      invariant i.Child? ==> IndexOf(p.kidIndex, i) != -1
      decreases i
    {
      InParentsHeap(p, i);
      p := RemoveOrFix(p, i);
      i := i.parent;
    }
  }

  method TakeDirect<Item(==, !new)>(p0: Presence<Item>, x: Item, ghost place: map<Item, Invocation>, n: Invocation)
    returns (p: Presence<Item>)
    requires Valid(p0, place) && x in place && place[x] == n
    ensures Listed(p.direct, p.index, place - {x}) && KidsOk(p, Some(n)) && (n.Child? ==> IndexOf(p.kidIndex, n) != -1)
  {
    assert x in p0.Direct(n);
    assert n.Child? ==> n in p0.Kids(n.parent);
    // The "Invalid queue index" panics.
    assert 0 <= IndexOf(p0.index, x) < |p0.Direct(n)| && p0.Direct(n)[IndexOf(p0.index, x)] == x;
    var h, idx := Remove(p0.Direct(n), p0.index, IndexOf(p0.index, x));
    p := p0.(direct := p0.direct[n := h], index := idx);
    DirectUpdated(p0, p, n, place, place - {x});
    OnlyDirectChanged(p0, p, n);
  }

  lemma {:induction false} DirectUpdated<Item(!new)>(
    p0: Presence<Item>, p: Presence<Item>, n: Invocation, place: map<Item, Invocation>, place': map<Item, Invocation>)
    requires Listed(p0.direct, p0.index, place) && p.direct == p0.direct[n := p.Direct(n)]
    requires Indexed(p.Direct(n), p.index)
    requires forall x :: x in p.Direct(n) <==> x in place' && place'[x] == n
    requires forall x :: x in place && place[x] != n ==> x in place' && place'[x] == place[x]
    requires forall x :: x in place' && place'[x] != n ==> x in place && place[x] == place'[x]
    requires forall x :: x !in p.Direct(n) && x !in p0.Direct(n) ==> IndexOf(p.index, x) == IndexOf(p0.index, x)
    requires forall x :: x in p0.Direct(n) && x !in p.Direct(n) ==> IndexOf(p.index, x) == -1
    ensures Listed(p.direct, p.index, place')
  {
    forall m ensures Indexed(ListAt(p.direct, m), p.index) {
      if m != n {
        var l := ListAt(p0.direct, m);
        assert Indexed(l, p0.index);
        forall k | 0 <= k < |l| ensures IndexOf(p.index, l[k]) == k {
          assert l[k] in l;
        }
      }
    }
    forall m, x ensures x in ListAt(p.direct, m) <==> x in place' && place'[x] == m {
      if m != n {
        assert x in ListAt(p0.direct, m) <==> x in place && place[x] == m;
      }
    }
    forall x | x !in place' ensures IndexOf(p.index, x) == -1 {
      if x in place {
        assert x in p0.Direct(place[x]);
      }
    }
  }

  lemma {:induction false} OnlyDirectChanged<Item>(p0: Presence<Item>, p: Presence<Item>, n: Invocation)
    requires KidsOk(p0, None) && p.direct == p0.direct[n := p.Direct(n)] && p.kids == p0.kids
    requires p.kidIndex == p0.kidIndex
    ensures KidsOk(p, Some(n))
  {
    forall c ensures Shown(p, c, Some(n)) == if c == n then IndexOf(p0.kidIndex, n) != -1 else Shown(p0, c, None) {}
    forall m ensures p.Kids(m) == p0.Kids(m) && Indexed(p.Kids(m), p.kidIndex) {}
    forall m, c ensures c in p.Kids(m) <==> c.Child? && c.parent == m && Shown(p, c, Some(n)) {
      assert c in p0.Kids(m) <==> c.Child? && c.parent == m && Shown(p0, c, None);
      if c == n && c in p0.Kids(m) {
        assert Indexed(p0.Kids(m), p0.kidIndex);
      }
    }
  }

  /** A child that is in a heap makes its parent present, and thus a member of a heap as well. */
  lemma {:induction false} InParentsHeap<Item>(p: Presence<Item>, i: Invocation)
    requires i.Child? && KidsOk(p, Some(i)) && IndexOf(p.kidIndex, i) != -1
    ensures i.parent.Child? ==> IndexOf(p.kidIndex, i.parent) != -1
  {
    assert i in p.Kids(i.parent);
    if i.parent.Child? {
      assert i.parent in p.Kids(i.parent.parent);
      assert Indexed(p.Kids(i.parent.parent), p.kidIndex);
    }
  }

  // ----- What it is for -----

  lemma {:induction false} PresentAbove<Item(!new)>(p: Presence<Item>, m: Invocation, n: Invocation)
    requires KidsOk(p, None) && p.Present(m) && Under(m, n)
    ensures p.Present(n)
  {
    if m != n {
      assert m in p.Kids(m.parent);
      PresentAbove(p, m.parent, n);
    }
  }

  ghost function KeysBelow<Item>(p: Presence<Item>, n: Invocation): set<Invocation> {
    set m | m in p.kids && Under(m, n)
  }

  lemma {:induction false} KeysShrink<Item>(p: Presence<Item>, c: Invocation)
    requires c.Child? && c.parent in p.kids
    ensures |KeysBelow(p, c)| < |KeysBelow(p, c.parent)|
  {
    var a, b := KeysBelow(p, c), KeysBelow(p, c.parent);
    NotUnderItself(c);
    forall m | m in a ensures m in b { UnderTransitive(m, c, c.parent); }
    assert c.parent in b - a;
    assert b == a + (b - a);
  }

  /** Follows the best child, or any other one that has items, down to an invocation that has items of its own. */
  method Descend<Item(==, !new)>(p: Presence<Item>, n: Invocation, ghost place: map<Item, Invocation>)
    returns (i: Invocation)
    requires Valid(p, place) && p.Present(n)
    ensures Under(i, n) && p.Direct(i) != []
  {
    i := n;
    while |p.Direct(i)| == 0
      invariant Under(i, n) && p.Present(i)
      decreases |KeysBelow(p, i)|
    {
      assert p.Kids(i)[0] in p.Kids(i);
      var c :| c in p.Kids(i);
      KeysShrink(p, c);
      UnderTransitive(c, i, n);
      i := c;
    }
  }

  lemma {:induction false} PresentHasItem<Item(!new)>(p: Presence<Item>, place: map<Item, Invocation>, n: Invocation)
    returns (x: Item)
    requires Valid(p, place) && p.Present(n)
    ensures x in place && Under(place[x], n)
    decreases |KeysBelow(p, n)|
  {
    if p.Direct(n) != [] {
      x := p.Direct(n)[0];
    } else {
      var c := p.Kids(n)[0];
      assert c in p.Kids(n);
      KeysShrink(p, c);
      x := PresentHasItem(p, place, c);
      UnderTransitive(place[x], c, n);
    }
  }

  /** An invocation is in its parent's heap, or is a root with something to offer, exactly if there is an item below
      it. */
  lemma {:induction false} PresentIff<Item(!new)>(p: Presence<Item>, place: map<Item, Invocation>, n: Invocation)
    requires Valid(p, place)
    ensures p.Present(n) <==> exists x :: x in place && Under(place[x], n)
  {
    if p.Present(n) {
      var x := PresentHasItem(p, place, n);
    }
    if x :| x in place && Under(place[x], n) {
      assert x in p.Direct(place[x]);
      PresentAbove(p, place[x], n);
    }
  }

  /** From the root, one sees whether a size class queue has any items. */
  lemma {:induction false} PresentAtRoot<Item(!new)>(p: Presence<Item>, place: map<Item, Invocation>, q: nat)
    requires Valid(p, place)
    ensures p.Present(Root(q)) <==> exists x :: x in place && QueueOf(place[x]) == q
  {
    PresentIff(p, place, Root(q));
    forall x | x in place ensures Under(place[x], Root(q)) <==> QueueOf(place[x]) == q {
      UnderRoot(place[x]);
      if Under(place[x], Root(q)) { UnderDepth(place[x], Root(q)); }
    }
  }
}
