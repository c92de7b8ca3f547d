/**
 pkg/filesystem/access/bloom_filter_computing_monitor.go and bloom_filter_reader.go: writing and
 reading Bloom filters of paths. A byte is a string of eight bits, the least significant one first.
 */
module BloomFilter {
  import opened PathHashes

  type Byte = b: seq<bool> | |b| == 8 witness [false, false, false, false, false, false, false, false]

  const ZERO: Byte := [false, false, false, false, false, false, false, false]

  ghost predicate BitAt(filter: seq<Byte>, bit: nat)
    requires bit < 8 * |filter|
  {
    filter[bit / 8][bit % 8]
  }

  /** Where the hash with a given number ends up. */
  function Position(hash: Hash, i: nat, sizeBits: nat): nat
    requires sizeBits > 0
  {
    Nth(hash, i) % sizeBits
  }

  // ----- Writing -----

  /** One of the first `k` hashes of a path ends up at a given bit. */
  ghost predicate Marks(hash: Hash, k: nat, sizeBits: nat, bit: nat)
    requires sizeBits > 0
  {
    exists i :: 0 <= i < k && Position(hash, i, sizeBits) == bit
  }

  /** The filter holds exactly the bits of these paths, and a bit that marks its end. */
  ghost predicate Encodes(filter: seq<Byte>, sizeBits: nat, k: nat, hashes: set<Hash>) {
    && |filter| == sizeBits / 8 + 1 && sizeBits % 8 != 0
    && forall bit :: 0 <= bit < 8 * |filter| ==>
         (BitAt(filter, bit) <==> bit == sizeBits || exists h :: h in hashes && Marks(h, k, sizeBits, bit))
  }

  const SMALL_OFFSETS: seq<Offset> := [1, 3, 1, 3, 1]

  type Offset = n: nat | n % 2 == 1 && n <= 129 witness 1

  /** The largest primes below 8, 16, 32, ..., given by how much they are below; see OEIS A014234. */
  const LARGEST_PRIME_OFFSETS: seq<Offset> := SMALL_OFFSETS + [
    5, 3, 3, 9, 3, 1, 3, 19, 15, 1, 5, 1, 3, 9, 3,
    15, 3, 39, 5, 39, 57, 3, 35, 1, 5, 9, 41, 31, 5, 25, 45, 7, 87, 21, 11,
    57, 17, 55, 21, 115, 59, 81, 27, 129, 47, 111, 33, 55, 5, 13, 27, 55, 93, 1, 57,
    25]

  function Power(n: nat): (p: nat)
    ensures p > 0
  {
    if n == 0 then 1 else 2 * Power(n - 1)
  }

  lemma {:induction false} PowerGrows(n: nat)
    ensures Power(n + 5) >= 32
  {
    if n == 0 {
      assert Power(2) == 4 && Power(3) == 8 && Power(4) == 16;
    } else {
      PowerGrows(n - 1);
    }
  }

  function Size(table: seq<Offset>, shift: nat): int
    requires shift < |table|
  {
    8 * Power(shift) - table[shift]
  }

  /** Sizes to choose from, in bits: at least 7, and not a multiple of 8. */
  ghost predicate Sizes(table: seq<Offset>) {
    table != [] && table[0] == 1 && forall shift :: 0 <= shift < |table| ==>
      Size(table, shift) >= 7 && Size(table, shift) % 8 != 0
  }

  /** The sizes are odd, so the bit that marks the end of a filter is never the first one of a byte. */
  lemma {:induction false} PrimesAreSizes(table: seq<Offset>)
    requires SMALL_OFFSETS <= table
    ensures Sizes(table)
  {
    forall shift | 0 <= shift < |table| ensures Size(table, shift) >= 7 && Size(table, shift) % 8 != 0 {
      if shift < 5 {
        assert table[shift] == SMALL_OFFSETS[shift];
        SmallSize(shift);
      } else {
        LargeSize(shift, table[shift]);
      }
    }
  }

  lemma {:induction false} SmallSize(shift: nat)
    requires shift < 5
    ensures 8 * Power(shift) - SMALL_OFFSETS[shift] >= 7 && (8 * Power(shift) - SMALL_OFFSETS[shift]) % 8 != 0
  {
    assert Power(0) == 1 && Power(1) == 2 && Power(2) == 4 && Power(3) == 8 && Power(4) == 16;
  }

  lemma {:induction false} LargeSize(shift: nat, offset: Offset)
    requires shift >= 5
    ensures 8 * Power(shift) - offset >= 7 && (8 * Power(shift) - offset) % 8 != 0
  {
    PowerGrows(shift - 5);
  }

  /** The search for a size: the first one that is large enough, unless it would be too large. */
  method ChooseSize(table: seq<Offset>, desiredSizeBits: nat, maximumSizeBytes: int)
    returns (sizeBits: nat, ghost best: nat)
    requires Sizes(table)
    ensures best < |table| && Chosen(table, sizeBits, best, desiredSizeBits, maximumSizeBytes) && sizeBits >= 7
    ensures sizeBits % 8 != 0
  {
    sizeBits, best := 7, 0;
    var shift := 0;
    assert Power(0) == 1 && Size(table, 0) == 7;
    while shift < |table|
      invariant 0 <= shift <= |table| && best == (if shift == 0 then 0 else shift - 1) && sizeBits == Size(table, best)
      invariant forall i :: 0 <= i < shift ==>
        Size(table, i) < desiredSizeBits && Size(table, i) / 8 + 1 <= maximumSizeBytes
    {
      var newSizeBits := Size(table, shift);
      if newSizeBits / 8 + 1 > maximumSizeBytes { break; }
      sizeBits, best := newSizeBits, shift;
      if sizeBits >= desiredSizeBits { break; }
      shift := shift + 1;
    }
  }

  /** All smaller sizes are too small; and this one is large enough, or the next one would be too large or does not
      exist. Only the smallest size may itself be too large. */
  ghost predicate Chosen(table: seq<Offset>, sizeBits: nat, shift: nat, desiredSizeBits: nat, maximumSizeBytes: int)
    requires shift < |table|
  {
    && sizeBits == Size(table, shift) && (forall i :: 0 <= i < shift ==> Size(table, i) < desiredSizeBits)
    && (shift > 0 ==> sizeBits / 8 + 1 <= maximumSizeBytes)
    && (sizeBits >= desiredSizeBits || shift + 1 == |table| ||
        Size(table, shift + 1) / 8 + 1 > maximumSizeBytes || sizeBits / 8 + 1 > maximumSizeBytes)
  }

  const LN2: real := 0.69314718055994530941723212145818

  /** The number of hash functions, with arithmetic on reals: what is optimal, rounded to the nearest integer, but at
      least one. */
  function HashFunctions(sizeBits: nat, elementCount: nat): (k: nat)
    ensures k >= 1 && (elementCount == 0 ==> k == 1)
    ensures elementCount > 0 ==>
      var optimum := sizeBits as real / elementCount as real * LN2;
      optimum < k as real + 0.5 && (k > 1 ==> k as real - 0.5 <= optimum)
  {
    if elementCount == 0 then 1
    else
      var r := (sizeBits as real / elementCount as real * LN2 + 0.5).Floor;
      if r < 1 then 1 else r
  }

  // ----- GetBloomFilter() -----

  ghost predicate Marked(hashes: set<Hash>, k: nat, sizeBits: nat, bit: nat)
    requires sizeBits > 0
  {
    exists h :: h in hashes && Marks(h, k, sizeBits, bit)
  }

  method GetBloomFilter(allHashes: set<Hash>, bitsPerElement: nat, maximumSizeBytes: int)
    returns (bloomFilter: seq<Byte>, hashFunctions: nat, ghost sizeBits: nat, ghost best: nat)
    ensures Encodes(bloomFilter, sizeBits, hashFunctions, allHashes) && hashFunctions >= 1
    ensures |bloomFilter| <= maximumSizeBytes || |bloomFilter| == 1
    ensures best < |LARGEST_PRIME_OFFSETS|
    ensures Chosen(LARGEST_PRIME_OFFSETS, sizeBits, best, |allHashes| * bitsPerElement, maximumSizeBytes)
    ensures hashFunctions == HashFunctions(sizeBits, |allHashes|)
  {
    var elementCount := |allHashes|;
    PrimesAreSizes(LARGEST_PRIME_OFFSETS);
    var size;
    size, best := ChooseSize(LARGEST_PRIME_OFFSETS, elementCount * bitsPerElement, maximumSizeBytes);
    sizeBits := size;
    hashFunctions := HashFunctions(size, elementCount);
    bloomFilter := Fill(allHashes, size, hashFunctions);
  }

  method Fill(allHashes: set<Hash>, sizeBits: nat, hashFunctions: nat) returns (bloomFilter: seq<Byte>)
    requires sizeBits > 0 && sizeBits % 8 != 0
    ensures Encodes(bloomFilter, sizeBits, hashFunctions, allHashes)
  {
    bloomFilter := seq(sizeBits / 8 + 1, i => ZERO);
    bloomFilter := SetBit(bloomFilter, sizeBits);
    var todo := allHashes;
    while todo != {}
      invariant todo <= allHashes && |bloomFilter| == sizeBits / 8 + 1
      invariant forall bit :: 0 <= bit < 8 * |bloomFilter| ==>
        (BitAt(bloomFilter, bit) <==> bit == sizeBits || Marked(allHashes - todo, hashFunctions, sizeBits, bit))
      decreases todo
    {
      var h :| h in todo;
      ghost var before := bloomFilter;
      bloomFilter := MarkPath(bloomFilter, sizeBits, hashFunctions, h);
      forall bit | 0 <= bit < 8 * |bloomFilter|
        ensures BitAt(bloomFilter, bit) <==>
          bit == sizeBits || Marked(allHashes - (todo - {h}), hashFunctions, sizeBits, bit)
      {
        assert BitAt(bloomFilter, bit) <==> BitAt(before, bit) || Marks(h, hashFunctions, sizeBits, bit);
        assert h in allHashes - (todo - {h});
      }
      todo := todo - {h};
    }
    assert allHashes - {} == allHashes;
  }

  method SetBit(filter: seq<Byte>, bit: nat) returns (r: seq<Byte>)
    requires bit < 8 * |filter|
    ensures |r| == |filter| && forall b :: 0 <= b < 8 * |filter| ==> (BitAt(r, b) <==> BitAt(filter, b) || b == bit)
  {
    var byte := filter[bit / 8];
    r := filter[bit / 8 := byte[bit % 8 := true]];
  }

  method MarkPath(filter: seq<Byte>, sizeBits: nat, k: nat, hash: Hash) returns (r: seq<Byte>)
    requires sizeBits > 0 && |filter| == sizeBits / 8 + 1
    ensures |r| == |filter|
    ensures forall b :: 0 <= b < 8 * |filter| ==> (BitAt(r, b) <==> BitAt(filter, b) || Marks(hash, k, sizeBits, b))
  {
    r := filter;
    var iterator_ := new PathHashIterator(hash);
    var i := 0;
    while i < k
      invariant i <= k && |r| == |filter| && iterator_.Valid() && iterator_.base == hash && iterator_.count == i
      invariant forall b :: 0 <= b < 8 * |filter| ==> (BitAt(r, b) <==> BitAt(filter, b) || Marks(hash, i, sizeBits, b))
    {
      var next := iterator_.GetNextHash();
      var bit := next % sizeBits;
      ghost var before := r;
      r := SetBit(r, bit);
      forall b | 0 <= b < 8 * |filter| ensures BitAt(r, b) <==> BitAt(filter, b) || Marks(hash, i + 1, sizeBits, b) {
        assert BitAt(r, b) <==> BitAt(before, b) || b == bit;
        assert Position(hash, i, sizeBits) == bit;
        MarksNext(hash, i, sizeBits, b);
      }
      i := i + 1;
    }
  }

  lemma {:induction false} MarksNext(hash: Hash, i: nat, sizeBits: nat, b: nat)
    requires sizeBits > 0
    ensures Marks(hash, i + 1, sizeBits, b) <==> Marks(hash, i, sizeBits, b) || Position(hash, i, sizeBits) == b
  {
  }

  // ----- Reading -----

  datatype Result<T> = Ok(value: T) | Error

  datatype Reader = Reader(filter: seq<Byte>, sizeBits: nat, hashFunctions: nat)

  /** bits.LeadingZeros8() */
  function LeadingZeros(b: Byte): (n: nat)
    ensures n <= 8 && (forall i :: 8 - n <= i < 8 ==> !b[i]) && (n < 8 ==> b[7 - n])
  {
    if b[7] then 0 else if b[6] then 1 else if b[5] then 2 else if b[4] then 3
    else if b[3] then 4 else if b[2] then 5 else if b[1] then 6 else if b[0] then 7 else 8
  }

  const MAXIMUM_HASH_FUNCTIONS: nat := 1000

  /** NewBloomFilterReader() */
  function NewReader(filter: seq<Byte>, hashFunctions: nat): (r: Result<Reader>)
    ensures r.Ok? ==> 0 < r.value.sizeBits < 8 * |r.value.filter|
  {
    if filter == [] then Error
    else
      var leadingZeros := LeadingZeros(filter[|filter| - 1]);
      if leadingZeros >= 7 then Error
      else
        Ok(Reader(filter, |filter| * 8 - leadingZeros - 1,
                  if hashFunctions > MAXIMUM_HASH_FUNCTIONS then MAXIMUM_HASH_FUNCTIONS else hashFunctions))
  }

  /** The padding of the last byte is its highest bit that is set, which must not be the lowest one; filters without it
      are refused. */
  lemma {:induction false} ReaderExact(filter: seq<Byte>, hashFunctions: nat)
    ensures filter == [] ==> NewReader(filter, hashFunctions).Error?
    ensures filter != [] ==>
      var last, r := filter[|filter| - 1], NewReader(filter, hashFunctions);
      && (r.Error? <==> forall i :: 1 <= i < 8 ==> !last[i])
      && (r.Ok? ==>
            var m := r.value.sizeBits - 8 * (|filter| - 1);
            && 1 <= m < 8 && last[m] && (forall i :: m < i < 8 ==> !last[i])
            && r.value.filter == filter
            && r.value.hashFunctions == if hashFunctions > 1000 then 1000 else hashFunctions)
  {
    if filter != [] {
      var last := filter[|filter| - 1];
      var n := LeadingZeros(last);
      assert n < 7 ==> last[7 - n];
    }
  }

  /** Contains() */
  method Contains(r: Reader, hash: Hash) returns (yes: bool)
    requires 0 < r.sizeBits < 8 * |r.filter|
    ensures yes <==> MayContain(r, hash)
  {
    var iterator_ := new PathHashIterator(hash);
    var i := 0;
    while i < r.hashFunctions
      invariant i <= r.hashFunctions && iterator_.Valid() && iterator_.base == hash && iterator_.count == i
      invariant forall j :: 0 <= j < i ==> BitAt(r.filter, Position(hash, j, r.sizeBits))
    {
      var next := iterator_.GetNextHash();
      var bit := next % r.sizeBits;
      assert Position(hash, i, r.sizeBits) == bit;
      if !r.filter[bit / 8][bit % 8] { return false; }
      i := i + 1;
    }
    yes := true;
  }

  ghost predicate MayContain(r: Reader, hash: Hash)
    requires 0 < r.sizeBits < 8 * |r.filter|
  {
    forall i :: 0 <= i < r.hashFunctions ==> BitAt(r.filter, Position(hash, i, r.sizeBits))
  }

  /** The reader accepts what was written, and finds out its exact size in bits. */
  lemma {:induction false} ReaderRecoversSize(filter: seq<Byte>, sizeBits: nat, k: nat, hashes: set<Hash>)
    requires Encodes(filter, sizeBits, k, hashes)
    ensures var r := NewReader(filter, k);
      && r.Ok? && r.value.filter == filter && r.value.sizeBits == sizeBits
      && r.value.hashFunctions == if k > 1000 then 1000 else k
  {
    var last := filter[|filter| - 1];
    var m := sizeBits % 8;
    assert BitAt(filter, sizeBits) && last[m];
    forall i | m < i < 8 ensures !last[i] {
      var bit := 8 * (|filter| - 1) + i;
      assert bit / 8 == |filter| - 1 && bit % 8 == i;
      assert !BitAt(filter, bit) by {
        forall h | h in hashes ensures !Marks(h, k, sizeBits, bit) {}
      }
    }
  }

  /** No false negatives: the reader contains every path that was recorded, whatever the limits on the size of the
      filter. */
  lemma {:induction false} NoFalseNegatives(filter: seq<Byte>, sizeBits: nat, k: nat, hashes: set<Hash>, hash: Hash)
    requires Encodes(filter, sizeBits, k, hashes) && hash in hashes
    ensures NewReader(filter, k).Ok? && MayContain(NewReader(filter, k).value, hash)
  {
    ReaderRecoversSize(filter, sizeBits, k, hashes);
    var r := NewReader(filter, k).value;
    forall i | 0 <= i < r.hashFunctions ensures BitAt(r.filter, Position(hash, i, r.sizeBits)) {
      assert Marks(hash, k, sizeBits, Position(hash, i, sizeBits));
    }
  }
}
