/**
 Machine words as bit strings.

 The sector bitmap only ever applies bitwise operators and shifts to its 64-bit
 words, so a word is modelled by its bits, least significant bit first.
 */
module Words {
  type Word = w: seq<bool> | |w| == 64 witness seq(64, _ => false)

  const ZERO: Word := seq(64, _ => false)
  const ONE: Word := seq(64, i => i == 0)
  const ALL_BITS: Word := seq(64, _ => true)

  function And(a: Word, b: Word): Word { seq(64, i requires 0 <= i < 64 => a[i] && b[i]) }

  function Or(a: Word, b: Word): Word { seq(64, i requires 0 <= i < 64 => a[i] || b[i]) }

  function Not(a: Word): Word { seq(64, i requires 0 <= i < 64 => !a[i]) }

  /** Go's `a &^ b`. */
  function AndNot(a: Word, b: Word): Word { And(a, Not(b)) }

  /** Go's `a << k`: bits shifted out are lost, also when `k >= 64`. */
  function Shl(a: Word, k: nat): Word { seq(64, i requires 0 <= i < 64 => k <= i && a[i - k]) }

  /** Go's logical `a >> k`. */
  function Shr(a: Word, k: nat): Word { seq(64, i requires 0 <= i < 64 => i + k < 64 && a[i + k]) }

  /** `bits.TrailingZeros64`: index of the lowest one bit, 64 when there is none. */
  function TrailingZeros(a: Word): (n: nat)
    ensures n <= 64
    ensures forall i :: 0 <= i < n ==> !a[i]
    ensures n < 64 ==> a[n]
  {
    LowestOneFrom(a, 0)
  }

  function LowestOneFrom(a: Word, from: nat): (n: nat)
    requires from <= 64
    ensures from <= n <= 64
    ensures forall i :: from <= i < n ==> !a[i]
    ensures n < 64 ==> a[n]
    decreases 64 - from
  {
    if from == 64 || a[from] then from else LowestOneFrom(a, from + 1)
  }

  /** The allocator's mask: `&^= ^(allBits << n) << s` clears bits `s .. s + n` and no others. */
  lemma {:induction false} MaskedClear(w: Word, n: nat, s: nat)
    requires s + n <= 64
    ensures forall b :: 0 <= b < 64 ==>
      AndNot(w, Shl(Not(Shl(ALL_BITS, n)), s))[b] == (w[b] && !(s <= b < s + n))
  {
    forall b | 0 <= b < 64
      ensures AndNot(w, Shl(Not(Shl(ALL_BITS, n)), s))[b] == (w[b] && !(s <= b < s + n))
    {
      assert s <= b ==> Shl(Not(Shl(ALL_BITS, n)), s)[b] == Not(Shl(ALL_BITS, n))[b - s];
    }
  }

  /** The mask of `FreeContiguous`: `count` ones, shifted into place and cut off at the word boundary. */
  lemma {:induction false} ShiftedMask(count: nat, s: nat)
    requires s < 64
    ensures var mask := if count < 64 then Not(Shl(ALL_BITS, count)) else ALL_BITS;
            forall b :: 0 <= b < 64 ==> Shl(mask, s)[b] == (s <= b < s + count)
    ensures count < 64 ==> forall b :: 0 <= b < 64 ==> Not(Shl(ALL_BITS, count))[b] == (b < count)
  {
    var mask := if count < 64 then Not(Shl(ALL_BITS, count)) else ALL_BITS;
    forall b | 0 <= b < 64 ensures Shl(mask, s)[b] == (s <= b < s + count) {
      assert s <= b ==> Shl(mask, s)[b] == mask[b - s];
    }
  }

  lemma {:induction false} SingleBit(s: nat)
    requires s < 64
    ensures forall b :: 0 <= b < 64 ==> Shl(ONE, s)[b] == (b == s)
  {
  }

  lemma {:induction false} KeepAbove(w: Word, n: nat)
    ensures forall b :: 0 <= b < 64 ==> And(w, Shl(ALL_BITS, n))[b] == (w[b] && n <= b)
  {
  }
}
