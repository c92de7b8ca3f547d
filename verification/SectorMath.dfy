/** Arithmetic on sectors of a variable size, kept away from the proofs that use it. */
module SectorMath {
  lemma {:induction false} DivMod(o: nat, size: nat)
    requires size > 0
    ensures o == (o / size) * size + o % size && o % size < size
  {
  }

  lemma {:induction false} DivModUnique(k: nat, j: nat, size: nat)
    requires j < size
    ensures (k * size + j) / size == k && (k * size + j) % size == j
  {
    var q, r := (k * size + j) / size, (k * size + j) % size;
    DivMod(k * size + j, size);
    assert (q - k) * size == j - r;
    if q > k {
      MulLe(1, q - k, size);
    } else if q < k {
      MulLe(1, k - q, size);
    }
  }

  lemma {:induction false} MulLe(a: int, b: int, size: nat)
    requires a <= b
    ensures a * size <= b * size
  {
    assert (b - a) * size >= 0;
    assert b * size == a * size + (b - a) * size;
  }

  lemma {:induction false} MulLess(a: int, b: int, size: nat)
    requires a * size < b * size
    ensures a < b
  {
    if b <= a { MulLe(b, a, size); }
  }

  lemma {:induction false} MulEqual(a: int, b: int, size: nat)
    requires a * size == b * size && size > 0
    ensures a == b
  {
    if a < b {
      MulLe(a + 1, b, size);
      Successor(a, size);
    } else if b < a {
      MulLe(b + 1, a, size);
      Successor(b, size);
    }
  }

  lemma {:induction false} Successor(q: int, size: nat)
    ensures (q + 1) * size == q * size + size
  {
  }

  /** Sectors `[k, k + count)` are exactly the offsets `[k * size, (k + count) * size)`. */
  lemma {:induction false} SectorOfOffset(o: nat, k: nat, count: nat, size: nat)
    requires size > 0
    ensures k * size <= o < (k + count) * size <==> k <= o / size < k + count
  {
    DivMod(o, size);
    if o / size < k {
      MulLe(o / size + 1, k, size);
    } else {
      MulLe(k, o / size, size);
    }
    if o / size < k + count {
      MulLe(o / size + 1, k + count, size);
    } else {
      MulLe(k + count, o / size, size);
    }
  }

  /** Rounding up: the least number of sectors that holds `n` bytes. */
  lemma {:induction false} CeilDiv(n: nat, size: nat)
    requires size > 0
    ensures var c := (n + size - 1) / size; n <= c * size && (c > 0 ==> (c - 1) * size < n)
  {
    DivMod(n + size - 1, size);
  }
}
