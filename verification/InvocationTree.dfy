/**
 pkg/scheduler/in_memory_build_queue.go: invocations, how they nest, and how many of a set of
 them lie below another one. An invocation is identified by its size class queue and its keys.
 */
module InvocationTree {
  type Key = string

  datatype Invocation = Root(queue: nat) | Child(parent: Invocation, key: Key)

  /** `n` is `m`, or one that `m` is nested in. */
  predicate Under(m: Invocation, n: Invocation) {
    m == n || (m.Child? && Under(m.parent, n))
  }

  function Depth(n: Invocation): nat { if n.Root? then 0 else 1 + Depth(n.parent) }

  function QueueOf(n: Invocation): nat { if n.Root? then n.queue else QueueOf(n.parent) }

  lemma {:induction false} UnderDepth(m: Invocation, n: Invocation)
    requires Under(m, n)
    ensures Depth(n) <= Depth(m) && (Depth(n) == Depth(m) ==> m == n) && QueueOf(m) == QueueOf(n)
  {
    if m != n { UnderDepth(m.parent, n); }
  }

  lemma {:induction false} NotUnderItself(n: Invocation)
    requires n.Child?
    ensures !Under(n.parent, n)
  {
    if Under(n.parent, n) { UnderDepth(n.parent, n); }
  }

  lemma {:induction false} UnderTransitive(a: Invocation, b: Invocation, c: Invocation)
    requires Under(a, b) && Under(b, c)
    ensures Under(a, c)
  {
    if a != b { UnderTransitive(a.parent, b, c); }
  }

  lemma {:induction false} UnderRoot(m: Invocation)
    ensures Under(m, Root(QueueOf(m)))
  {
    if m.Child? { UnderRoot(m.parent); }
  }

  /** Invocations that `m` is nested in form a chain. */
  lemma {:induction false} UnderChain(m: Invocation, a: Invocation, b: Invocation)
    requires Under(m, a) && Under(m, b)
    ensures Under(a, b) || Under(b, a)
  {
    if m != a && m != b { UnderChain(m.parent, a, b); }
  }

  /** The invocation that `n` is nested in, some levels up. */
  ghost function Ancestor(n: Invocation, levels: nat): Invocation {
    if levels == 0 || n.Root? then n else Ancestor(n.parent, levels - 1)
  }

  lemma {:induction false} NextAncestor(n: Invocation, levels: nat)
    ensures QueueOf(Ancestor(n, levels)) == QueueOf(n)
    ensures var a := Ancestor(n, levels); Ancestor(n, levels + 1) == if a.Root? then a else a.parent
  {
    if levels > 0 && n.Child? { NextAncestor(n.parent, levels - 1); }
  }

  // ----- Counting -----

  ghost function Below(s: set<Invocation>, n: Invocation): set<Invocation> { set m | m in s && Under(m, n) }

  /** How many of `s` lie in the subtree of `n`. */
  ghost function Count(s: set<Invocation>, n: Invocation): nat { |Below(s, n)| }

  lemma {:induction false} CountAdd(s: set<Invocation>, m: Invocation, n: Invocation)
    requires m !in s
    ensures Count(s + {m}, n) == Count(s, n) + if Under(m, n) then 1 else 0
  {
    if Under(m, n) {
      assert Below(s + {m}, n) == Below(s, n) + {m};
    } else {
      assert Below(s + {m}, n) == Below(s, n);
    }
  }

  lemma {:induction false} SubsetSize<T>(a: set<T>, b: set<T>)
    requires a <= b
    ensures |a| <= |b|
  {
    assert b == a + (b - a);
  }

  lemma {:induction false} CountParent(s: set<Invocation>, n: Invocation)
    requires n.Child?
    ensures Count(s, n) <= Count(s, n.parent)
  {
    forall m | m in Below(s, n) ensures m in Below(s, n.parent) {
      UnderTransitive(m, n, n.parent);
    }
    SubsetSize(Below(s, n), Below(s, n.parent));
  }

  lemma {:induction false} CountZero(s: set<Invocation>, n: Invocation)
    ensures Count(s, n) == 0 <==> forall m :: m in s ==> !Under(m, n)
  {
    if Count(s, n) == 0 {
      forall m | m in s ensures !Under(m, n) {
        assert m !in Below(s, n);
      }
    } else {
      var m :| m in Below(s, n);
    }
  }

  // ----- Lowest common ancestor -----

  /** `r` contains both, and lies in everything else that does. */
  ghost predicate IsLowestCommonAncestor(r: Invocation, s: set<Invocation>) {
    && (forall m :: m in s ==> Under(m, r))
    && (forall n {:trigger Under(r, n)} :: (forall m :: m in s ==> Under(m, n)) ==> Under(r, n))
  }

  /** The body of the loop over the operations of a task: the lowest ancestor of two invocations. */
  method LowestOfTwo(a: Invocation, b: Invocation) returns (r: Invocation)
    requires QueueOf(a) == QueueOf(b)
    ensures Under(a, r) && Under(b, r) && forall n :: Under(a, n) && Under(b, n) ==> Under(r, n)
  {
    var i, j := a, b;
    while Depth(i) > Depth(j)
      invariant Under(a, i) && QueueOf(i) == QueueOf(j)
      invariant forall n :: Under(a, n) && Under(j, n) ==> Under(i, n)
      decreases i
    {
      forall n | Under(a, n) && Under(j, n) ensures Under(i.parent, n) {
        if i == n { UnderDepth(j, n); }
      }
      UnderTransitive(a, i, i.parent);
      i := i.parent;
    }
    while Depth(j) > Depth(i)
      invariant Under(a, i) && Under(b, j) && QueueOf(i) == QueueOf(j)
      invariant forall n :: Under(a, n) && Under(b, n) ==> Under(i, n) && Under(j, n)
      invariant Depth(j) >= Depth(i)
      decreases j
    {
      forall n | Under(a, n) && Under(b, n) ensures Under(j.parent, n) {
        if j == n { UnderDepth(i, n); }
      }
      UnderTransitive(b, j, j.parent);
      j := j.parent;
    }
    while i != j
      invariant Depth(i) == Depth(j) && QueueOf(i) == QueueOf(j) && Under(a, i) && Under(b, j)
      invariant forall n :: Under(a, n) && Under(b, n) ==> Under(i, n) && Under(j, n)
      decreases i
    {
      assert i.Child? && j.Child?;
      forall n | Under(a, n) && Under(b, n) ensures Under(i.parent, n) && Under(j.parent, n) {
        if i == n { UnderDepth(j, n); }
        if j == n { UnderDepth(i, n); }
      }
      UnderTransitive(a, i, i.parent);
      UnderTransitive(b, j, j.parent);
      i, j := i.parent, j.parent;
    }
    r := i;
  }

  /** For any order in which the operations are visited, the loop yields their lowest common ancestor. */
  method LowestCommonAncestor(s: set<Invocation>) returns (r: Invocation)
    requires s != {} && forall m, n :: m in s && n in s ==> QueueOf(m) == QueueOf(n)
    ensures IsLowestCommonAncestor(r, s)
    ensures forall m :: m in s ==> QueueOf(r) == QueueOf(m)
  {
    r :| r in s;
    var done := {r};
    while done < s
      invariant {} < done <= s && IsLowestCommonAncestor(r, done)
      invariant forall m :: m in s ==> QueueOf(r) == QueueOf(m)
      decreases |s - done|
    {
      var i :| i in s - done;
      var r' := LowestOfTwo(r, i);
      forall m | m in done + {i} ensures Under(m, r') {
        if m != i { UnderTransitive(m, r, r'); }
      }
      UnderDepth(i, r');
      assert s - (done + {i}) < s - done;
      forall n | forall m :: m in done + {i} ==> Under(m, n) ensures Under(r', n) {
        assert forall m :: m in done ==> m in done + {i};
        assert i in done + {i};
      }
      r, done := r', done + {i};
    }
  }
}
