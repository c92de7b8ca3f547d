/**
 Binary heaps whose elements know their own position, as pkg/scheduler/in_memory_build_queue.go
 uses them for queued operations and for child invocations, driven by Go's container/heap. The
 outcome of every comparison is arbitrary: what is stated holds whether or not it is an order.
 */
module IndexedHeap {
  /** The position an element has recorded; -1 if it is not in a heap. */
  function IndexOf<T>(idx: map<T, int>, x: T): int { if x in idx then idx[x] else -1 }

  /** Every element of the heap has recorded its position. */
  ghost predicate Indexed<T>(h: seq<T>, idx: map<T, int>) {
    forall k :: 0 <= k < |h| ==> IndexOf(idx, h[k]) == k
  }

  /** Elements occur just once. */
  lemma {:induction false} Distinct<T>(h: seq<T>, idx: map<T, int>)
    requires Indexed(h, idx)
    ensures |h| == |set x | x in h|
    decreases |h|
  {
    if h != [] {
      var n := |h| - 1;
      Distinct(h[..n], idx);
      assert h == h[..n] + [h[n]];
      assert (set x | x in h) == (set x | x in h[..n]) + {h[n]};
    }
  }

  ghost predicate SameOutside<T(!new)>(h: seq<T>, idx: map<T, int>, idx': map<T, int>) {
    forall y :: y !in h ==> IndexOf(idx', y) == IndexOf(idx, y)
  }

  /** The same elements in another order, with positions to match; other elements are left alone. */
  ghost predicate Rearranged<T(!new)>(h: seq<T>, idx: map<T, int>, h': seq<T>, idx': map<T, int>) {
    && |h'| == |h| && (forall y :: y in h' <==> y in h)
    && Indexed(h', idx') && SameOutside(h, idx, idx')
  }

  method Swap<T(==, !new)>(h: seq<T>, idx: map<T, int>, i: nat, j: nat) returns (h': seq<T>, idx': map<T, int>)
    requires i < |h| && j < |h| && Indexed(h, idx)
    ensures Rearranged(h, idx, h', idx') && h' == h[i := h[j]][j := h[i]]
  {
    // The "Invalid queue indices" panic.
    assert IndexOf(idx, h[i]) == i && IndexOf(idx, h[j]) == j;
    h' := h[i := h[j]][j := h[i]];
    idx' := idx[h'[i] := i][h'[j] := j];
    forall k | 0 <= k < |h| ensures h[k] in h' {
      assert h'[if k == i then j else if k == j then i else k] == h[k];
    }
  }

  lemma {:induction false} RearrangedTwice<T(!new)>(
    h: seq<T>, idx: map<T, int>, h': seq<T>, idx': map<T, int>, h'': seq<T>, idx'': map<T, int>)
    requires Rearranged(h, idx, h', idx') && Rearranged(h', idx', h'', idx'')
    ensures Rearranged(h, idx, h'', idx'')
  {
  }

  /** heap.up() */
  method Up<T(==, !new)>(h0: seq<T>, idx0: map<T, int>, j0: nat) returns (h: seq<T>, idx: map<T, int>)
    requires j0 < |h0| && Indexed(h0, idx0)
    ensures Rearranged(h0, idx0, h, idx) && forall k :: j0 < k < |h0| ==> h[k] == h0[k]
  {
    h, idx := h0, idx0;
    var j: nat := j0;
    while true
      invariant j <= j0 && Rearranged(h0, idx0, h, idx)
      invariant forall k :: j0 < k < |h0| ==> h[k] == h0[k]
      decreases j
    {
      var i := if j == 0 then 0 else (j - 1) / 2;
      var less: bool := *;
      if i == j || !less { break; }
      var h', idx' := Swap(h, idx, i, j);
      RearrangedTwice(h0, idx0, h, idx, h', idx');
      h, idx, j := h', idx', i;
    }
  }

  /** heap.down(), of which the last element takes no part if `n` excludes it. */
  method Down<T(==, !new)>(h0: seq<T>, idx0: map<T, int>, i0: nat, n: nat)
    returns (h: seq<T>, idx: map<T, int>, moved: bool)
    requires i0 < |h0| && n <= |h0| && Indexed(h0, idx0)
    ensures Rearranged(h0, idx0, h, idx) && forall k :: n <= k < |h0| && k != i0 ==> h[k] == h0[k]
  {
    h, idx := h0, idx0;
    var i := i0;
    while true
      invariant i < |h| && (i == i0 || i < n) && Rearranged(h0, idx0, h, idx)
      invariant forall k :: n <= k < |h0| && k != i0 ==> h[k] == h0[k]
      decreases |h| - i
    {
      var j := 2 * i + 1;
      if j >= n { break; }
      var right: bool, less: bool := *, *;
      if j + 1 < n && right { j := j + 1; }
      if !less { break; }
      var h', idx' := Swap(h, idx, i, j);
      RearrangedTwice(h0, idx0, h, idx, h', idx');
      h, idx, i := h', idx', j;
    }
    moved := i > i0;
  }

  /** heap.Fix() */
  method Fix<T(==, !new)>(h0: seq<T>, idx0: map<T, int>, i: nat) returns (h: seq<T>, idx: map<T, int>)
    requires i < |h0| && Indexed(h0, idx0)
    ensures Rearranged(h0, idx0, h, idx)
  {
    var moved;
    h, idx, moved := Down(h0, idx0, i, |h0|);
    if !moved {
      var h', idx' := Up(h, idx, i);
      RearrangedTwice(h0, idx0, h, idx, h', idx');
      h, idx := h', idx';
    }
  }

  /** heap.Push() */
  method Push<T(==, !new)>(h0: seq<T>, idx0: map<T, int>, x: T) returns (h: seq<T>, idx: map<T, int>)
    requires Indexed(h0, idx0) && IndexOf(idx0, x) == -1
    ensures |h| == |h0| + 1 && (forall y :: y in h <==> y in h0 || y == x)
    ensures Indexed(h, idx) && SameOutside(h, idx0, idx)
  {
    h, idx := h0 + [x], idx0[x := |h0|];
    assert x !in h0;
    var h', idx' := Up(h, idx, |h0|);
    assert h[|h0|] == x;
    h, idx := h', idx';
  }

  /** heap.Remove() */
  method Remove<T(==, !new)>(h0: seq<T>, idx0: map<T, int>, i: nat) returns (h: seq<T>, idx: map<T, int>)
    requires i < |h0| && Indexed(h0, idx0)
    ensures |h| == |h0| - 1 && (forall y :: y in h <==> y in h0 && y != h0[i])
    ensures Indexed(h, idx) && IndexOf(idx, h0[i]) == -1 && SameOutside(h0, idx0, idx)
  {
    var n := |h0| - 1;
    h, idx := h0, idx0;
    if n != i {
      h, idx := Swap(h0, idx0, i, n);
      h, idx := SiftBefore(h0, idx0, h, idx, i);
    }
    // Pop(), with its "Invalid queue index" panic.
    assert h[n] == h0[i] && IndexOf(idx, h[n]) == n;
    h, idx := Pop(h, idx);
    assert SameOutside(h0, idx0, idx);
  }

  /** The part of Remove() that restores the order of all but the last element. */
  method SiftBefore<T(==, !new)>(ghost hh: seq<T>, ghost ii: map<T, int>, h0: seq<T>, idx0: map<T, int>, i: nat)
    returns (h: seq<T>, idx: map<T, int>)
    requires i < |h0| - 1 && Indexed(h0, idx0) && Rearranged(hh, ii, h0, idx0)
    ensures Rearranged(hh, ii, h, idx) && h[|h| - 1] == h0[|h0| - 1]
  {
    var moved;
    h, idx, moved := Down(h0, idx0, i, |h0| - 1);
    RearrangedTwice(hh, ii, h0, idx0, h, idx);
    if !moved {
      var h', idx' := Up(h, idx, i);
      RearrangedTwice(hh, ii, h, idx, h', idx');
      h, idx := h', idx';
    }
  }

  method Pop<T(==, !new)>(h0: seq<T>, idx0: map<T, int>) returns (h: seq<T>, idx: map<T, int>)
    requires h0 != [] && Indexed(h0, idx0)
    ensures h == h0[..|h0| - 1] && Indexed(h, idx) && IndexOf(idx, h0[|h0| - 1]) == -1
    ensures forall y :: y in h <==> y in h0 && y != h0[|h0| - 1]
    ensures forall y :: y != h0[|h0| - 1] ==> IndexOf(idx, y) == IndexOf(idx0, y)
  {
    h, idx := h0[..|h0| - 1], idx0[h0[|h0| - 1] := -1];
    forall y | y in h ensures y != h0[|h0| - 1] {
      var k :| 0 <= k < |h| && h[k] == y;
      assert IndexOf(idx0, h0[k]) == k;
    }
    forall y | y in h0 && y != h0[|h0| - 1] ensures y in h {
      var k :| 0 <= k < |h0| && h0[k] == y;
      assert h[k] == y;
    }
  }
}
