/**
 pkg/filesystem/pool/bitmap_sector_allocator.go: a next-fit allocator of disk
 sectors over a bitmap of 64-bit words.  One bits are free sectors.  Position
 `p` of the bitmap is sector number `p + 1`, as sector zero means "no sector".
 */
module BitmapSectorAllocator {
  import opened Words

  /** Word `i` of a bitmap holds positions `64i .. 64i + 64`. */
  ghost predicate WordAt(w: Word, bits: seq<bool>, i: nat) {
    && 64 * i + 64 <= |bits|
    && forall b :: 0 <= b < 64 ==> w[b] == bits[64 * i + b]
  }

  /** `bits` lays out the words of a bitmap as one string of bits. */
  ghost predicate Layout(words: seq<Word>, bits: seq<bool>) {
    && |bits| == 64 * |words|
    && forall i :: 0 <= i < |words| ==> WordAt(words[i], bits, i)
  }

  /** Whether position `p` of a bitmap is free; positions past the end are in use. */
  ghost predicate Free(bits: seq<bool>, p: int) {
    0 <= p < |bits| && bits[p]
  }

  /** Positions `lo <= p < hi` are all free. */
  ghost predicate FreeRun(bits: seq<bool>, lo: int, hi: int) {
    forall p :: lo <= p < hi ==> Free(bits, p)
  }

  /** No position `lo <= p < hi` is free. */
  ghost predicate NoneFree(bits: seq<bool>, lo: int, hi: int) {
    forall p :: lo <= p < hi ==> !Free(bits, p)
  }

  /** `bits'` is `bits` with exactly the positions `lo <= p < hi` overwritten. */
  ghost predicate Filled(bits: seq<bool>, lo: int, hi: int, free: bool, bits': seq<bool>) {
    && |bits'| == |bits|
    && forall p :: 0 <= p < |bits| ==> bits'[p] == if lo <= p < hi then free else bits[p]
  }

  /** The run of `count` free positions at `first` of `bits` has been taken, giving `bits'`. */
  ghost predicate RunTaken(bits: seq<bool>, first: int, count: nat, bits': seq<bool>) {
    && 0 <= first && first + count <= |bits|
    && FreeRun(bits, first, first + count)
    && Filled(bits, first, first + count, false, bits')
  }

  /** The allocation of `count` positions at `first`, the lowest free position at or after `from`: it
      takes the whole free run found there, up to `maximum`, and marks exactly that run as used. */
  ghost predicate TakesFirstRun(
    bits: seq<bool>, from: nat, maximum: nat, first: int, count: nat, bits': seq<bool>)
  {
    && from <= first && NoneFree(bits, from, first)
    && 1 <= count <= maximum && RunTaken(bits, first, count, bits')
    && (count < maximum ==> !Free(bits, first + count))
  }

  /** Next fit: search from `next` to the end and only then from the start. */
  ghost predicate NextFit(bits: seq<bool>, next: nat, maximum: nat, first: int, count: nat, bits': seq<bool>) {
    || TakesFirstRun(bits, next, maximum, first, count, bits')
    || (NoneFree(bits, next, |bits|) && TakesFirstRun(bits, 0, maximum, first, count, bits'))
  }

  /** The `count` sector numbers starting at `first`. */
  function Sectors(first: nat, count: nat): (s: set<nat>)
    ensures forall n: nat :: n in s <==> first <= n < first + count
  {
    if count == 0 then {} else Sectors(first, count - 1) + {first + count - 1}
  }

  /** The free sector numbers among 1..sectorCount. */
  ghost function FreeSet(bits: seq<bool>, sectorCount: nat): set<nat> {
    set n | n in Sectors(1, sectorCount) && Free(bits, n - 1)
  }

  datatype Allocation = Allocated(first: nat, count: nat) | NoFreeSectors

  class Allocator {
    const sectorCount: nat
    const freeBitmap: array<Word>
    var nextSector: nat
    ghost var bits: seq<bool>  // the contents of freeBitmap, position by position

    ghost predicate Valid()
      reads this, freeBitmap
    {
      && freeBitmap.Length == sectorCount / 64 + 1
      && nextSector <= sectorCount
      && Layout(freeBitmap[..], bits)
      && NoneFree(bits, sectorCount, |bits|)
    }

    /** The set of free sector numbers, all within 1..sectorCount. */
    ghost function FreeSectors(): set<nat>
      reads this
    {
      FreeSet(bits, sectorCount)
    }

    constructor (sectorCount: nat)
      ensures Valid() && this.sectorCount == sectorCount && fresh(freeBitmap)
      ensures FreeSectors() == Sectors(1, sectorCount)
      ensures nextSector == 0
    {
      this.sectorCount := sectorCount;
      nextSector := 0;
      var bitmap := new Word[sectorCount / 64 + 1](_ => ZERO);
      for i := 0 to sectorCount / 64
        invariant forall j :: 0 <= j < i ==> bitmap[j] == ALL_BITS
      {
        bitmap[i] := ALL_BITS;
      }
      bitmap[sectorCount / 64] := Not(Shl(ALL_BITS, sectorCount % 64));
      freeBitmap := bitmap;
      bits := seq(64 * (sectorCount / 64 + 1), p => p < sectorCount);
      new;
      InitialBits(freeBitmap[..], bits, sectorCount);
    }

    method AllocateContiguous(maximum: nat) returns (r: Allocation)
      requires Valid() && maximum >= 1
      modifies this, freeBitmap
      ensures Valid()
      ensures r.NoFreeSectors? ==>
        NoneFree(bits, 0, |bits|) && bits == old(bits) && nextSector == old(nextSector)
      ensures r.Allocated? ==>
        && r.first >= 1 && NextFit(old(bits), old(nextSector), maximum, r.first - 1, r.count, bits)
        && nextSector == r.first - 1 + r.count
      ensures r.NoFreeSectors? <==> old(FreeSectors()) == {}
      ensures r.Allocated? ==>
        && Sectors(r.first, r.count) <= old(FreeSectors())
        && FreeSectors() == old(FreeSectors()) - Sectors(r.first, r.count)
    {
      r := Search(maximum);
      if r.Allocated? {
        NextFitSectors(old(bits), old(nextSector), maximum, r.first - 1, r.count, bits, sectorCount);
      }
    }

    /** The three scans of `AllocateContiguous`: the current word, the words after it, and the words up to it. */
    method Search(maximum: nat) returns (r: Allocation)
      requires Valid() && maximum >= 1
      modifies this, freeBitmap
      ensures Valid()
      ensures r.NoFreeSectors? ==>
        NoneFree(bits, 0, |bits|) && bits == old(bits) && nextSector == old(nextSector)
      ensures r.Allocated? ==>
        && r.first >= 1 && NextFit(old(bits), old(nextSector), maximum, r.first - 1, r.count, bits)
        && nextSector == r.first - 1 + r.count
    {
      var split := nextSector / 64;
      var m := And(freeBitmap[split], Shl(ALL_BITS, nextSector % 64));
      if m != ZERO {
        r := AllocateAt(split, m, nextSector % 64, maximum);
        return;
      }
      assert WordAt(freeBitmap[..][split], bits, split);
      NothingInMask(freeBitmap[split], bits, split, nextSector % 64);
      var i := FirstNonZeroWord(split + 1, freeBitmap.Length);
      if i == freeBitmap.Length {
        i := FirstNonZeroWord(0, split + 1);
        if i == split + 1 {
          return NoFreeSectors;
        }
      }
      WholeWordMask(freeBitmap[i]);
      r := AllocateAt(i, freeBitmap[i], 0, maximum);
    }

    /** The scan of whole words. */
    method FirstNonZeroWord(lo: nat, hi: nat) returns (i: nat)
      requires Valid() && lo <= hi <= freeBitmap.Length
      ensures lo <= i <= hi && (i < hi ==> freeBitmap[i] != ZERO)
      ensures NoneFree(bits, 64 * lo, 64 * i)
    {
      i := lo;
      while i < hi && freeBitmap[i] == ZERO
        invariant lo <= i <= hi && NoneFree(bits, 64 * lo, 64 * i)
      {
        assert WordAt(freeBitmap[..][i], bits, i);
        WholeWordMask(freeBitmap[i]);
        NothingInMask(freeBitmap[i], bits, i, 0);
        i := i + 1;
      }
    }

    method AllocateAt(index: nat, mask: Word, ghost low: nat, maximum: nat) returns (r: Allocation)
      requires Valid() && maximum >= 1 && low < 64
      requires index < freeBitmap.Length && mask != ZERO
      requires mask == And(freeBitmap[index], Shl(ALL_BITS, low))
      modifies this, freeBitmap
      ensures Valid() && r.Allocated? && r.first >= 1
      ensures TakesFirstRun(old(bits), 64 * index + low, maximum, r.first - 1, r.count, bits)
      ensures nextSector == r.first - 1 + r.count
    {
      ghost var bits0 := bits;
      var initialShift, taken := TakeFirstWord(index, mask, low, maximum);
      var firstSector := index * 64 + initialShift;
      if initialShift + taken == 64 {
        var following := TakeFollowingWords(index + 1, maximum - taken, bits0, firstSector, taken);
        taken := taken + following;
      }
      nextSector := firstSector + taken;
      StaysBelowSentinel(bits0, sectorCount, firstSector, taken, bits);
      return Allocated(firstSector + 1, taken);
    }

    /** Takes the first run of a masked word, up to the end of the word. */
    method TakeFirstWord(index: nat, mask: Word, ghost low: nat, maximum: nat)
      returns (initialShift: nat, taken: nat)
      requires Layout(freeBitmap[..], bits) && maximum >= 1 && low < 64
      requires index < freeBitmap.Length && mask != ZERO
      requires mask == And(freeBitmap[index], Shl(ALL_BITS, low))
      modifies `bits, freeBitmap
      ensures Layout(freeBitmap[..], bits)
      ensures low <= initialShift && 1 <= taken <= maximum && initialShift + taken <= 64
      ensures NoneFree(old(bits), 64 * index + low, 64 * index + initialShift)
      ensures RunTaken(old(bits), 64 * index + initialShift, taken, bits)
      ensures initialShift + taken < 64 && taken < maximum ==> !Free(old(bits), 64 * index + initialShift + taken)
    {
      initialShift := TrailingZeros(mask);
      taken := TrailingZeros(Not(Shr(mask, initialShift)));
      RunInWord(freeBitmap[..], bits, index, mask, low);
      if taken > maximum { taken := maximum; }
      MaskedClear(freeBitmap[index], taken, initialShift);
      SetWord(index, AndNot(freeBitmap[index], Shl(Not(Shl(ALL_BITS, taken)), initialShift)),
        initialShift, initialShift + taken, false);
    }

    /** Extends a run that reached the end of a word into the words that follow it. */
    method TakeFollowingWords(index0: nat, maximum0: nat, ghost bits0: seq<bool>, ghost first: nat, ghost taken0: nat)
      returns (taken: nat)
      requires Layout(freeBitmap[..], bits)
      requires |bits| == 64 * (sectorCount / 64 + 1) && NoneFree(bits0, sectorCount, |bits0|)
      requires taken0 >= 1 && first + taken0 == 64 * index0 && RunTaken(bits0, first, taken0, bits)
      modifies `bits, freeBitmap
      ensures Layout(freeBitmap[..], bits)
      ensures taken <= maximum0 && RunTaken(bits0, first, taken0 + taken, bits)
      ensures taken < maximum0 ==> !Free(bits0, first + taken0 + taken)
    {
      var index, maximum := index0, maximum0;
      taken := 0;
      RunEndsBeforeSentinel(bits0, sectorCount, first, index);
      while maximum >= 64 && freeBitmap[index] == ALL_BITS
        invariant index0 <= index < freeBitmap.Length
        invariant first + taken0 + taken == 64 * index && maximum + taken == maximum0 && 0 <= maximum
        invariant Layout(freeBitmap[..], bits) && RunTaken(bits0, first, taken0 + taken, bits)
      {
        LeadingRun(freeBitmap[..], bits, index);
        SetWordAndExtend(index, ZERO, 64, bits0, first, taken0 + taken);
        index := index + 1;
        maximum := maximum - 64;
        taken := taken + 64;
        RunEndsBeforeSentinel(bits0, sectorCount, first, index);
      }
      var available := TakePartialWord(index, maximum, bits0, first, taken0 + taken);
      taken := taken + available;
    }

    /** Takes the free positions at the start of a word, up to `maximum`. */
    method TakePartialWord(index: nat, maximum: nat, ghost bits0: seq<bool>, ghost first: nat, ghost taken: nat)
      returns (available: nat)
      requires Layout(freeBitmap[..], bits) && index < freeBitmap.Length
      requires first + taken == 64 * index && RunTaken(bits0, first, taken, bits)
      requires maximum < 64 || freeBitmap[index] != ALL_BITS
      modifies `bits, freeBitmap
      ensures Layout(freeBitmap[..], bits)
      ensures available <= maximum && RunTaken(bits0, first, taken + available, bits)
      ensures available < maximum ==> !Free(bits0, first + taken + available)
    {
      available := FreeAtStart(index);
      if available > maximum { available := maximum; }
      KeepAbove(freeBitmap[index], available);
      SetWordAndExtend(index, And(freeBitmap[index], Shl(ALL_BITS, available)), available, bits0, first, taken);
    }

    method FreeAtStart(index: nat) returns (n: nat)
      requires Layout(freeBitmap[..], bits) && index < freeBitmap.Length
      ensures n <= 64 && FreeRun(bits, 64 * index, 64 * index + n)
      ensures n < 64 ==> !Free(bits, 64 * index + n)
      ensures n == 64 <==> freeBitmap[index] == ALL_BITS
    {
      LeadingRun(freeBitmap[..], bits, index);
      n := TrailingZeros(Not(freeBitmap[index]));
    }

    method SetWordAndExtend(i: nat, w: Word, n: nat, ghost bits0: seq<bool>, ghost first: nat, ghost taken: nat)
      requires Layout(freeBitmap[..], bits)
      requires i < freeBitmap.Length && n <= 64
      requires forall b :: 0 <= b < 64 ==> w[b] == if b < n then false else freeBitmap[i][b]
      requires first + taken == 64 * i && RunTaken(bits0, first, taken, bits)
      requires FreeRun(bits, 64 * i, 64 * i + n)
      modifies `bits, freeBitmap
      ensures Layout(freeBitmap[..], bits)
      ensures RunTaken(bits0, first, taken + n, bits)
      ensures Free(old(bits), 64 * i + n) == Free(bits0, 64 * i + n)
    {
      ghost var bits1 := bits;
      SetWord(i, w, 0, n, false);
      ExtendRun(bits0, first, taken, bits1, n, bits);
    }

    /** Overwrites bits `lo <= b < hi` of one word in place, and so the same positions of the bitmap. */
    method SetWord(i: nat, w: Word, ghost lo: nat, ghost hi: nat, ghost free: bool)
      requires Layout(freeBitmap[..], bits)
      requires i < freeBitmap.Length && lo <= hi <= 64
      requires forall b :: 0 <= b < 64 ==> w[b] == if lo <= b < hi then free else freeBitmap[i][b]
      modifies `bits, freeBitmap
      ensures Layout(freeBitmap[..], bits)
      ensures Filled(old(bits), 64 * i + lo, 64 * i + hi, free, bits)
    {
      ghost var before := freeBitmap[..];
      freeBitmap[i] := w;
      ghost var bits0 := bits;
      bits := seq(|bits0|, p requires 0 <= p < |bits0| => if 64 * i + lo <= p < 64 * i + hi then free else bits0[p]);
      forall j | 0 <= j < freeBitmap.Length ensures WordAt(freeBitmap[..][j], bits, j) {
        assert WordAt(before[j], old(bits), j);
      }
    }

    /** The panic of the source is an assertion here: the sectors must all be in use. */
    method FreeWithMask(index: nat, mask: Word, ghost lo: nat, ghost hi: nat)
      requires Layout(freeBitmap[..], bits)
      requires index < freeBitmap.Length && lo <= hi <= 64
      requires forall b :: 0 <= b < 64 ==> mask[b] == (lo <= b < hi)
      requires NoneFree(bits, 64 * index + lo, 64 * index + hi)
      modifies `bits, freeBitmap
      ensures Layout(freeBitmap[..], bits)
      ensures Filled(old(bits), 64 * index + lo, 64 * index + hi, true, bits)
    {
      UsedInWord(freeBitmap[..], bits, index, mask, lo, hi);
      assert And(freeBitmap[index], mask) == ZERO;
      SetWord(index, Or(freeBitmap[index], mask), lo, hi, true);
    }

    method FreeContiguous(firstSector: nat, count0: nat)
      requires Valid() && firstSector >= 1 && firstSector - 1 + count0 <= sectorCount
      requires NoneFree(bits, firstSector - 1, firstSector - 1 + count0)
      modifies `bits, freeBitmap
      ensures Valid()
      ensures FreeSectors() == old(FreeSectors()) + Sectors(firstSector, count0)
    {
      ghost var bits0, end := bits, firstSector - 1 + count0;
      var first, count := firstSector - 1, count0;
      var mask := if count < 64 then Not(Shl(ALL_BITS, count)) else ALL_BITS;
      var offsetWithinFirstWord := first % 64;
      var index := first / 64;
      var alreadyFreed := 64 - offsetWithinFirstWord;
      ghost var hi := if count > alreadyFreed then 64 else offsetWithinFirstWord + count;
      ShiftedMask(count, offsetWithinFirstWord);
      FreeWithMask(index, Shl(mask, offsetWithinFirstWord), offsetWithinFirstWord, hi);
      if count > alreadyFreed {
        count := count - alreadyFreed;
        index := index + 1;
        while count >= 64
          invariant Layout(freeBitmap[..], bits)
          invariant 64 * index + count == end && index <= sectorCount / 64
          invariant Filled(bits0, first, 64 * index, true, bits)
          invariant 0 <= count
        {
          StillUsed(bits0, first, 64 * index, bits, 64 * index, 64 * index + 64);
          UsedInWord(freeBitmap[..], bits, index, ALL_BITS, 0, 64);
          assert And(freeBitmap[index], ALL_BITS) == freeBitmap[index] == ZERO;
          SetWord(index, ALL_BITS, 0, 64, true);
          index := index + 1;
          count := count - 64;
        }
        StillUsed(bits0, first, 64 * index, bits, 64 * index, 64 * index + count);
        ShiftedMask(count, 0);
        FreeWithMask(index, Not(Shl(ALL_BITS, count)), 0, count);
      }
      StillUsed(bits0, first, end, bits, sectorCount, |bits|);
      FreeSetFilled(bits0, first, end, true, bits, sectorCount);
    }

    method FreeList(sectors: seq<nat>)
      requires Valid()
      requires forall i :: 0 <= i < |sectors| && sectors[i] != 0 ==>
        sectors[i] <= sectorCount && sectors[i] !in FreeSectors()
      requires forall i, j :: 0 <= i < j < |sectors| && sectors[i] != 0 ==> sectors[i] != sectors[j]
      modifies `bits, freeBitmap
      ensures Valid()
      ensures FreeSectors() == old(FreeSectors()) + set i | 0 <= i < |sectors| && sectors[i] != 0 :: sectors[i]
    {
      for k := 0 to |sectors|
        invariant Valid()
        invariant FreeSectors() == old(FreeSectors()) + set i | 0 <= i < k && sectors[i] != 0 :: sectors[i]
      {
        if sectors[k] != 0 {
          var sector := sectors[k] - 1;
          var i, b := sector / 64, sector % 64;
          ghost var before := bits;
          assert sectors[k] !in FreeSectors();
          SingleBit(b);
          FreeWithMask(i, Shl(ONE, b), b, b + 1);
          StillUsed(before, sector, sector + 1, bits, sectorCount, |bits|);
          FreeSetFilled(before, sector, sector + 1, true, bits, sectorCount);
        }
      }
    }
  }

  /** The constructor's words mark exactly the first `sectorCount` positions free. */
  lemma {:induction false} InitialBits(words: seq<Word>, bits: seq<bool>, sectorCount: nat)
    requires |words| == sectorCount / 64 + 1
    requires forall j :: 0 <= j < sectorCount / 64 ==> words[j] == ALL_BITS
    requires words[sectorCount / 64] == Not(Shl(ALL_BITS, sectorCount % 64))
    requires bits == seq(64 * |words|, p => p < sectorCount)
    ensures Layout(words, bits)
  {
  }

  /** A free run never reaches the end of the bitmap: its last word holds a sentinel. */
  lemma {:induction false} RunEndsBeforeSentinel(bits: seq<bool>, sectorCount: nat, first: nat, index: nat)
    requires |bits| == 64 * (sectorCount / 64 + 1)
    requires NoneFree(bits, sectorCount, |bits|)
    requires first < 64 * index && FreeRun(bits, first, 64 * index)
    ensures index < sectorCount / 64 + 1
  {
    assert Free(bits, 64 * index - 1);
  }

  lemma {:induction false} WholeWordMask(w: Word)
    ensures w == And(w, Shl(ALL_BITS, 0))
  {
  }

  lemma {:induction false} NothingInMask(w: Word, bits: seq<bool>, i: nat, low: nat)
    requires low < 64 && WordAt(w, bits, i)
    requires And(w, Shl(ALL_BITS, low)) == ZERO
    ensures NoneFree(bits, 64 * i + low, 64 * (i + 1))
  {
    forall p | 64 * i + low <= p < 64 * (i + 1) ensures !Free(bits, p) {
      assert !And(w, Shl(ALL_BITS, low))[p - 64 * i];
      assert w[p - 64 * i] == bits[p];
    }
  }

  /** The two trailing-zero counts locate the first run of ones of a masked word. */
  lemma {:induction false} RunInWord(words: seq<Word>, bits: seq<bool>, i: nat, mask: Word, low: nat)
    requires low < 64 && i < |words| && Layout(words, bits)
    requires mask == And(words[i], Shl(ALL_BITS, low)) && mask != ZERO
    ensures TrailingZeros(mask) < 64
    ensures var s := TrailingZeros(mask);
            var n := TrailingZeros(Not(Shr(mask, s)));
            && low <= s && 1 <= n <= 64 - s
            && NoneFree(bits, 64 * i + low, 64 * i + s)
            && FreeRun(bits, 64 * i + s, 64 * i + s + n)
            && (s + n < 64 ==> !Free(bits, 64 * i + s + n))
  {
    var s := TrailingZeros(mask);
    var n := TrailingZeros(Not(Shr(mask, s)));
    FirstRun(words[i], mask, low);
    assert WordAt(words[i], bits, i);
    RunAt(words[i], bits, i, low, s, n);
  }

  lemma {:induction false} FirstRun(w: Word, mask: Word, low: nat)
    requires low < 64 && mask == And(w, Shl(ALL_BITS, low)) && mask != ZERO
    ensures TrailingZeros(mask) < 64
    ensures var s := TrailingZeros(mask);
            var n := TrailingZeros(Not(Shr(mask, s)));
            && low <= s && 1 <= n <= 64 - s
            && (forall b :: low <= b < s ==> !w[b]) && (forall b :: s <= b < s + n ==> w[b])
            && (s + n < 64 ==> !w[s + n])
  {
    var s := TrailingZeros(mask);
    assert s < 64 by { assert exists b :: 0 <= b < 64 && mask[b]; }
    LocateRun(w, mask, Not(Shr(mask, s)), low, s, TrailingZeros(Not(Shr(mask, s))));
  }

  lemma {:induction false} LocateRun(w: seq<bool>, mask: seq<bool>, shifted: seq<bool>, low: nat, s: nat, n: nat)
    requires |w| == 64 && |mask| == 64 && |shifted| == 64 && s < 64 && n <= 64
    requires forall b :: 0 <= b < 64 ==> mask[b] == (w[b] && low <= b)
    requires forall b :: 0 <= b < 64 ==> shifted[b] == !(b + s < 64 && mask[b + s])
    requires mask[s] && (forall b :: 0 <= b < s ==> !mask[b])
    requires (forall b :: 0 <= b < n ==> !shifted[b]) && (n < 64 ==> shifted[n])
    ensures low <= s && 1 <= n <= 64 - s
    ensures (forall b :: low <= b < s ==> !w[b]) && (forall b :: s <= b < s + n ==> w[b])
    ensures s + n < 64 ==> !w[s + n]
  {
    assert !shifted[0];
    assert s > 0 ==> shifted[64 - s];
    forall b | s <= b < s + n ensures w[b] { assert !shifted[b - s]; }
  }

  lemma {:induction false} RunAt(w: Word, bits: seq<bool>, i: nat, low: nat, s: nat, n: nat)
    requires WordAt(w, bits, i) && low <= s && s + n <= 64
    requires (forall b :: low <= b < s ==> !w[b]) && (forall b :: s <= b < s + n ==> w[b])
    requires s + n < 64 ==> !w[s + n]
    ensures NoneFree(bits, 64 * i + low, 64 * i + s) && FreeRun(bits, 64 * i + s, 64 * i + s + n)
    ensures s + n < 64 ==> !Free(bits, 64 * i + s + n)
  {
    forall p | 64 * i <= p < 64 * i + 64 ensures Free(bits, p) <==> w[p - 64 * i] {
      assert w[p - 64 * i] == bits[64 * i + (p - 64 * i)];
    }
  }

  /** The free positions at the start of word `i` are counted by the trailing ones of the word. */
  lemma {:induction false} LeadingRun(words: seq<Word>, bits: seq<bool>, i: nat)
    requires i < |words| && Layout(words, bits)
    ensures FreeRun(bits, 64 * i, 64 * i + TrailingZeros(Not(words[i])))
    ensures TrailingZeros(Not(words[i])) < 64 ==> !Free(bits, 64 * i + TrailingZeros(Not(words[i])))
    ensures TrailingZeros(Not(words[i])) == 64 <==> words[i] == ALL_BITS
  {
    var w, n := words[i], TrailingZeros(Not(words[i]));
    assert WordAt(w, bits, i);
    forall p | 64 * i <= p < 64 * i + n ensures Free(bits, p) {
      assert !Not(w)[p - 64 * i] && w[p - 64 * i] == bits[p];
    }
    assert n < 64 ==> Not(w)[n] && w[n] == bits[64 * i + n];
    if n == 64 {
      forall b | 0 <= b < 64 ensures w[b] { assert !Not(w)[b]; }
    }
  }

  /** A run followed by a second run is one longer run, and so is clearing one after the other. */
  lemma {:induction false} ExtendRun(
    bits: seq<bool>, first: nat, taken: nat, bits': seq<bool>, n: nat, bits'': seq<bool>)
    requires first + taken + n <= |bits| && RunTaken(bits, first, taken, bits')
    requires FreeRun(bits', first + taken, first + taken + n)
    requires Filled(bits', first + taken, first + taken + n, false, bits'')
    ensures RunTaken(bits, first, taken + n, bits'')
    ensures Free(bits', first + taken + n) == Free(bits, first + taken + n)
  {
    forall p | first + taken <= p < first + taken + n ensures Free(bits, p) {
      assert Free(bits', p);
    }
  }

  lemma {:induction false} StaysBelowSentinel(
    bits: seq<bool>, sectorCount: nat, first: nat, count: nat, bits': seq<bool>)
    requires count >= 1 && RunTaken(bits, first, count, bits') && NoneFree(bits, sectorCount, |bits|)
    ensures first + count <= sectorCount
    ensures NoneFree(bits', sectorCount, |bits'|)
  {
    assert Free(bits, first + count - 1);
    forall p | sectorCount <= p < |bits| ensures !Free(bits', p) {
      assert !Free(bits, p);
    }
  }

  /** Positions in use read as zeroes under a mask. */
  lemma {:induction false} UsedInWord(words: seq<Word>, bits: seq<bool>, i: nat, mask: Word, lo: nat, hi: nat)
    requires Layout(words, bits) && i < |words| && lo <= hi <= 64
    requires forall b :: 0 <= b < 64 ==> mask[b] == (lo <= b < hi)
    requires NoneFree(bits, 64 * i + lo, 64 * i + hi)
    ensures And(words[i], mask) == ZERO
  {
    assert WordAt(words[i], bits, i);
    forall b | 0 <= b < 64 ensures !And(words[i], mask)[b] {
      assert lo <= b < hi ==> !Free(bits, 64 * i + b);
    }
  }

  /** Positions outside of a freed range are as used as they were. */
  lemma {:induction false} StillUsed(bits: seq<bool>, lo: nat, hi: nat, bits': seq<bool>, a: nat, b: nat)
    requires Filled(bits, lo, hi, true, bits') && NoneFree(bits, a, b) && (b <= lo || hi <= a)
    ensures NoneFree(bits', a, b)
  {
    forall p | a <= p < b ensures !Free(bits', p) {
      assert !Free(bits, p);
    }
  }

  /** Filling a range of positions adds or removes exactly those sector numbers. */
  lemma {:induction false} FreeSetFilled(
    bits: seq<bool>, lo: nat, hi: nat, free: bool, bits': seq<bool>, sectorCount: nat)
    requires lo <= hi <= sectorCount <= |bits| && Filled(bits, lo, hi, free, bits')
    ensures FreeSet(bits', sectorCount) ==
      if free then FreeSet(bits, sectorCount) + Sectors(lo + 1, hi - lo)
      else FreeSet(bits, sectorCount) - Sectors(lo + 1, hi - lo)
  {
    forall n | 1 <= n <= sectorCount
      ensures n in FreeSet(bits', sectorCount) <==>
        if n in Sectors(lo + 1, hi - lo) then free else n in FreeSet(bits, sectorCount)
    {
      assert Free(bits', n - 1) <==> bits'[n - 1];
    }
  }

  lemma {:induction false} NextFitSectors(
    bits: seq<bool>, next: nat, maximum: nat, first: nat, count: nat, bits': seq<bool>, sectorCount: nat)
    requires NextFit(bits, next, maximum, first, count, bits')
    requires NoneFree(bits, sectorCount, |bits|) && sectorCount <= |bits|
    ensures FreeSet(bits, sectorCount) != {} && Sectors(first + 1, count) <= FreeSet(bits, sectorCount)
    ensures FreeSet(bits', sectorCount) == FreeSet(bits, sectorCount) - Sectors(first + 1, count)
  {
    StaysBelowSentinel(bits, sectorCount, first, count, bits');
    FreeSetFilled(bits, first, first + count, false, bits', sectorCount);
    forall n | first + 1 <= n < first + 1 + count ensures n in FreeSet(bits, sectorCount) {
      assert Free(bits, n - 1);
    }
    assert first + 1 in FreeSet(bits, sectorCount);
  }
}
