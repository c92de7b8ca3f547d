/**
 What a block device backed file holds, as a function of the device, the file's
 sector list and its hole source (pkg/filesystem/pool/block_device_backed_file_pool.go
 and hole_source.go).
 */
module FileImage {
  import opened SectorMath

  newtype Byte = b: int | 0 <= b < 256

  /** One offset of a hole source: data, or a region that reads as a null byte. */
  datatype Cell = Data(b: Byte) | Gap

  /** A hole source; past its end it is an infinite stream of gaps. */
  type HoleSource = seq<Cell>

  predicate IsHoleData(hole: HoleSource, o: nat) { o < |hole| && hole[o].Data? }

  function HoleByte(hole: HoleSource, o: nat): Byte {
    if IsHoleData(hole, o) then hole[o].b else 0
  }

  /** `n` bytes of a hole source, starting at offset `o`. */
  function HoleBytes(hole: HoleSource, o: nat, n: nat): (r: seq<Byte>)
    ensures |r| == n && forall x :: 0 <= x < n ==> r[x] == HoleByte(hole, o + x)
  {
    if n == 0 then [] else HoleBytes(hole, o, n - 1) + [HoleByte(hole, o + n - 1)]
  }

  function TruncateHole(hole: HoleSource, size: nat): HoleSource {
    if size < |hole| then hole[..size] else hole
  }

  /** Byte offset on the device; sector numbers start at one. */
  function DeviceOffset(sector: nat, offsetWithinSector: nat, size: nat): nat
    requires sector >= 1
  {
    (sector - 1) * size + offsetWithinSector
  }

  /** A device of `length` bytes is large enough for every sector of the list. */
  ghost predicate OnDevice(length: nat, size: nat, sectors: seq<nat>) {
    size > 0 && forall i :: 0 <= i < |sectors| ==> sectors[i] * size <= length
  }

  /** Whether offset `o` of a file lies in a sector of the device. */
  predicate IsStored(size: nat, sectors: seq<nat>, o: nat)
    requires size > 0
  {
    o / size < |sectors| && sectors[o / size] != 0
  }

  lemma {:induction false} StoredOffsetOnDevice(device: seq<Byte>, size: nat, sectors: seq<nat>, o: nat)
    requires OnDevice(|device|, size, sectors) && IsStored(size, sectors, o)
    ensures DeviceOffset(sectors[o / size], o % size, size) < |device|
  {
    MulLe(sectors[o / size] - 1 + 1, sectors[o / size], size);
  }

  /** The byte at offset `o`, whether or not it lies within the size of the file. */
  ghost function RawByte(device: seq<Byte>, size: nat, sectors: seq<nat>, hole: HoleSource, o: nat): Byte
    requires OnDevice(|device|, size, sectors)
  {
    if IsStored(size, sectors, o) then
      StoredOffsetOnDevice(device, size, sectors, o);
      device[DeviceOffset(sectors[o / size], o % size, size)]
    else
      HoleByte(hole, o)
  }

  /** The first `n` bytes of a file. */
  ghost function Image(device: seq<Byte>, size: nat, sectors: seq<nat>, hole: HoleSource, n: nat): (r: seq<Byte>)
    requires OnDevice(|device|, size, sectors)
    ensures |r| == n && forall o :: 0 <= o < n ==> r[o] == RawByte(device, size, sectors, hole, o)
  {
    if n == 0 then [] else
      Image(device, size, sectors, hole, n - 1) + [RawByte(device, size, sectors, hole, n - 1)]
  }

  /** A file without sectors reads what its hole source provides. */
  lemma {:induction false} NoSectorsImage(device: seq<Byte>, size: nat, hole: HoleSource, n: nat)
    requires size > 0
    ensures Image(device, size, [], hole, n) == HoleBytes(hole, 0, n)
    ensures forall o: nat :: RawByte(device, size, [], hole, o) == HoleByte(hole, o)
  {
    forall o: nat ensures RawByte(device, size, [], hole, o) == HoleByte(hole, o) {
      NoSectorsByte(device, size, hole, o);
    }
    if n > 0 {
      NoSectorsImage(device, size, hole, n - 1);
    }
  }

  lemma {:induction false} NoSectorsByte(device: seq<Byte>, size: nat, hole: HoleSource, o: nat)
    requires size > 0
    ensures RawByte(device, size, [], hole, o) == HoleByte(hole, o)
  {
    assert !IsStored(size, [], o);
  }

  /** `d'` is `d` with `p` written at offset `at`. */
  ghost predicate Spliced(d: seq<Byte>, at: nat, p: seq<Byte>, d': seq<Byte>) {
    && |d'| == |d| && at + |p| <= |d|
    && forall x :: 0 <= x < |d| ==> d'[x] == if at <= x < at + |p| then p[x - at] else d[x]
  }

  /** Bytes outside of `[at, at + n)` are as they were. */
  ghost predicate KeptOutside(d: seq<Byte>, at: nat, n: nat, d': seq<Byte>) {
    && |d'| == |d|
    && forall x :: 0 <= x < |d| && !(at <= x < at + n) ==> d'[x] == d[x]
  }

  /** Sectors `[k, k + count)` of the file are stored contiguously from `first` on. */
  ghost predicate ContiguousAt(sectors: seq<nat>, k: nat, count: nat, first: nat) {
    && first >= 1 && k + count <= |sectors|
    && forall i :: k <= i < k + count ==> sectors[i] == first + (i - k)
  }

  /** No sector of the list, outside of indices `[k, k + n)`, is one of `[first, first + count)`. */
  ghost predicate Elsewhere(sectors: seq<nat>, k: nat, n: nat, first: nat, count: nat) {
    forall i :: 0 <= i < |sectors| && !(k <= i < k + n) && sectors[i] != 0 ==>
      !(first <= sectors[i] < first + count)
  }

  /** Within a contiguous run, device offsets advance along with file offsets. */
  lemma {:induction false} ContiguousOffset(sectors: seq<nat>, k: nat, count: nat, first: nat, size: nat, o: nat)
    requires size > 0 && ContiguousAt(sectors, k, count, first)
    requires k * size <= o < (k + count) * size
    ensures IsStored(size, sectors, o)
    ensures DeviceOffset(sectors[o / size], o % size, size) == (first - 1) * size + (o - k * size)
    ensures (first - 1) * size + (o - k * size) < (first - 1 + count) * size
  {
    SectorOfOffset(o, k, count, size);
    DivMod(o, size);
    var q := o / size;
    assert (first + (q - k) - 1) * size == (first - 1) * size + q * size - k * size;
    assert (first - 1 + count) * size == (first - 1) * size + (k + count) * size - k * size;
  }

  /** Offsets of a hole, or past the last sector, are not stored. */
  lemma {:induction false} NotStored(sectors: seq<nat>, k: nat, count: nat, size: nat, o: nat)
    requires size > 0 && k * size <= o && (k >= |sectors| || o < (k + count) * size)
    requires forall i :: k <= i < k + count && i < |sectors| ==> sectors[i] == 0
    ensures !IsStored(size, sectors, o)
  {
    SectorOfOffset(o, k, count, size);
    DivMod(o, size);
    if o / size < k {
      MulLe(o / size + 1, k, size);
    }
  }

  /** A file does not notice changes to sectors it does not own. */
  lemma {:induction false} UnchangedElsewhere(
    d: seq<Byte>, d': seq<Byte>, size: nat, sectors: seq<nat>, hole: HoleSource, first: nat, count: nat, o: nat)
    requires OnDevice(|d|, size, sectors) && first >= 1 && KeptOutside(d, (first - 1) * size, count * size, d')
    requires IsStored(size, sectors, o) ==> !(first <= sectors[o / size] < first + count)
    ensures OnDevice(|d'|, size, sectors)
    ensures RawByte(d', size, sectors, hole, o) == RawByte(d, size, sectors, hole, o)
  {
    if IsStored(size, sectors, o) {
      var t := sectors[o / size];
      StoredOffsetOnDevice(d, size, sectors, o);
      if t < first {
        MulLe(t, first - 1, size);
      } else {
        MulLe(first - 1 + count, t - 1, size);
      }
      assert t * size == (t - 1) * size + size;
      assert (first - 1 + count) * size == (first - 1) * size + count * size;
    }
  }

  /** The file reads the same before and after. */
  ghost predicate SameBytes(d: seq<Byte>, d': seq<Byte>, size: nat, sectors: seq<nat>, hole: HoleSource) {
    && OnDevice(|d|, size, sectors) && OnDevice(|d'|, size, sectors)
    && forall o: nat :: RawByte(d', size, sectors, hole, o) == RawByte(d, size, sectors, hole, o)
  }

  /** The file reads `p` at `pos`, and as before everywhere else. */
  ghost predicate Wrote(
    d: seq<Byte>, sectors: seq<nat>, d': seq<Byte>, sectors': seq<nat>,
    size: nat, hole: HoleSource, pos: nat, p: seq<Byte>)
  {
    && OnDevice(|d|, size, sectors) && OnDevice(|d'|, size, sectors')
    && forall o: nat :: RawByte(d', size, sectors', hole, o) ==
         if pos <= o < pos + |p| then p[o - pos] else RawByte(d, size, sectors, hole, o)
  }

  lemma {:induction false} SameBytesElsewhere(
    d: seq<Byte>, d': seq<Byte>, size: nat, sectors: seq<nat>, hole: HoleSource, first: nat, count: nat)
    requires OnDevice(|d|, size, sectors) && first >= 1 && KeptOutside(d, (first - 1) * size, count * size, d')
    requires Elsewhere(sectors, 0, 0, first, count)
    ensures SameBytes(d, d', size, sectors, hole)
  {
    assert OnDevice(|d'|, size, sectors);
    forall o: nat ensures RawByte(d', size, sectors, hole, o) == RawByte(d, size, sectors, hole, o) {
      SameByteElsewhere(d, d', size, sectors, hole, first, count, o);
    }
  }

  lemma {:induction false} SameByteElsewhere(
    d: seq<Byte>, d': seq<Byte>, size: nat, sectors: seq<nat>, hole: HoleSource, first: nat, count: nat, o: nat)
    requires OnDevice(|d|, size, sectors) && OnDevice(|d'|, size, sectors)
    requires first >= 1 && KeptOutside(d, (first - 1) * size, count * size, d')
    requires Elsewhere(sectors, 0, 0, first, count)
    ensures RawByte(d', size, sectors, hole, o) == RawByte(d, size, sectors, hole, o)
  {
    if IsStored(size, sectors, o) {
      assert 0 <= o / size < |sectors| && sectors[o / size] != 0;
    }
    UnchangedElsewhere(d, d', size, sectors, hole, first, count, o);
  }

  lemma {:induction false} ContiguousRunOnDevice(
    length: nat, size: nat, sectors: seq<nat>, k: nat, count: nat, first: nat)
    requires OnDevice(length, size, sectors) && ContiguousAt(sectors, k, count, first) && count >= 1
    ensures (first - 1 + count) * size <= length
    ensures (first - 1 + count) * size == (first - 1) * size + count * size
  {
    assert sectors[k + count - 1] == first + count - 1;
  }

  /** Overwriting part of a contiguous run changes exactly those bytes of the file. */
  lemma {:induction false} Overwrite(
    d: seq<Byte>, size: nat, sectors: seq<nat>, hole: HoleSource,
    k: nat, count: nat, first: nat, j: nat, p: seq<Byte>, d': seq<Byte>)
    requires OnDevice(|d|, size, sectors) && ContiguousAt(sectors, k, count, first)
    requires Elsewhere(sectors, k, count, first, count)
    requires count >= 1 && j < size && j + |p| <= count * size
    requires Spliced(d, DeviceOffset(first, j, size), p, d')
    ensures Wrote(d, sectors, d', sectors, size, hole, k * size + j, p)
  {
    assert OnDevice(|d'|, size, sectors);
    forall o: nat
      ensures RawByte(d', size, sectors, hole, o) ==
        if k * size + j <= o < k * size + j + |p| then p[o - (k * size + j)] else RawByte(d, size, sectors, hole, o)
    {
      OverwriteAt(d, size, sectors, hole, k, count, first, j, p, d', o);
    }
  }

  lemma {:induction false} OverwriteAt(
    d: seq<Byte>, size: nat, sectors: seq<nat>, hole: HoleSource,
    k: nat, count: nat, first: nat, j: nat, p: seq<Byte>, d': seq<Byte>, o: nat)
    requires OnDevice(|d|, size, sectors) && OnDevice(|d'|, size, sectors) && ContiguousAt(sectors, k, count, first)
    requires Elsewhere(sectors, k, count, first, count)
    requires count >= 1 && j < size && j + |p| <= count * size
    requires Spliced(d, DeviceOffset(first, j, size), p, d')
    ensures RawByte(d', size, sectors, hole, o) ==
      if k * size + j <= o < k * size + j + |p| then p[o - (k * size + j)] else RawByte(d, size, sectors, hole, o)
  {
    SectorsInBytes(k, count, size);
    if k * size <= o < k * size + count * size {
      OverwriteInside(d, size, sectors, hole, k, count, first, j, p, d', o);
    } else {
      OverwriteOutside(d, size, sectors, hole, k, count, first, j, p, d', o);
    }
  }

  lemma {:induction false} OverwriteInside(
    d: seq<Byte>, size: nat, sectors: seq<nat>, hole: HoleSource,
    k: nat, count: nat, first: nat, j: nat, p: seq<Byte>, d': seq<Byte>, o: nat)
    requires OnDevice(|d|, size, sectors) && OnDevice(|d'|, size, sectors) && ContiguousAt(sectors, k, count, first)
    requires k * size <= o < (k + count) * size && Spliced(d, DeviceOffset(first, j, size), p, d')
    ensures RawByte(d', size, sectors, hole, o) ==
      if k * size + j <= o < k * size + j + |p| then p[o - (k * size + j)] else RawByte(d, size, sectors, hole, o)
  {
    ContiguousOffset(sectors, k, count, first, size, o);
    StoredOffsetOnDevice(d, size, sectors, o);
  }

  lemma {:induction false} OverwriteOutside(
    d: seq<Byte>, size: nat, sectors: seq<nat>, hole: HoleSource,
    k: nat, count: nat, first: nat, j: nat, p: seq<Byte>, d': seq<Byte>, o: nat)
    requires OnDevice(|d|, size, sectors) && OnDevice(|d'|, size, sectors) && first >= 1
    requires Elsewhere(sectors, k, count, first, count) && !(k * size <= o < (k + count) * size)
    requires j + |p| <= count * size && Spliced(d, DeviceOffset(first, j, size), p, d')
    ensures RawByte(d', size, sectors, hole, o) == RawByte(d, size, sectors, hole, o)
  {
    OverwriteKeeps(d, size, first, count, j, p, d');
    SectorOfOffset(o, k, count, size);
    if IsStored(size, sectors, o) {
      assert !(k <= o / size < k + count) && sectors[o / size] != 0;
    }
    UnchangedElsewhere(d, d', size, sectors, hole, first, count, o);
  }

  lemma {:induction false} OverwriteKeeps(
    d: seq<Byte>, size: nat, first: nat, count: nat, j: nat, p: seq<Byte>, d': seq<Byte>)
    requires first >= 1 && j + |p| <= count * size && Spliced(d, DeviceOffset(first, j, size), p, d')
    ensures KeptOutside(d, (first - 1) * size, count * size, d')
  {
  }

  /** What freshly allocated sectors must hold: `p` at offset `j`, surrounded by the hole source's bytes. */
  ghost function NewImage(p: seq<Byte>, j: nat, base: nat, length: nat, hole: HoleSource): (r: seq<Byte>)
    ensures |r| == length
    ensures forall x :: 0 <= x < length ==> r[x] == if j <= x < j + |p| then p[x - j] else HoleByte(hole, base + x)
  {
    seq(length, x requires 0 <= x => if j <= x < j + |p| then p[x - j] else HoleByte(hole, base + x))
  }

  /** `sectors'` is `sectors` with the hole at indices `[k, k + count)` filled with a contiguous run. */
  ghost predicate HoleFilled(sectors: seq<nat>, sectors': seq<nat>, k: nat, count: nat, first: nat) {
    && ContiguousAt(sectors', k, count, first) && |sectors| <= |sectors'|
    && (forall i :: k <= i < k + count && i < |sectors| ==> sectors[i] == 0)
    && (forall i :: 0 <= i < |sectors'| && !(k <= i < k + count) ==>
          sectors'[i] == if i < |sectors| then sectors[i] else 0)
  }

  lemma {:induction false} FilledOnDevice(
    length: nat, size: nat, sectors: seq<nat>, sectors': seq<nat>, k: nat, count: nat, first: nat)
    requires OnDevice(length, size, sectors) && HoleFilled(sectors, sectors', k, count, first)
    requires (first - 1 + count) * size <= length
    ensures OnDevice(length, size, sectors')
  {
    forall i | 0 <= i < |sectors'| ensures sectors'[i] * size <= length {
      if k <= i < k + count {
        MulLe(sectors'[i], first - 1 + count, size);
      }
    }
  }

  /** Filling a hole with the right image writes `p` and keeps the rest of the file as it was. */
  lemma {:induction false} FillHole(
    d: seq<Byte>, size: nat, sectors: seq<nat>, sectors': seq<nat>, hole: HoleSource,
    k: nat, count: nat, first: nat, j: nat, p: seq<Byte>, d': seq<Byte>)
    requires OnDevice(|d|, size, sectors) && HoleFilled(sectors, sectors', k, count, first)
    requires Elsewhere(sectors, 0, 0, first, count)
    requires count >= 1 && j < size && j + |p| <= count * size && (first - 1 + count) * size <= |d|
    requires Spliced(d, DeviceOffset(first, 0, size), NewImage(p, j, k * size, count * size, hole), d')
    ensures Wrote(d, sectors, d', sectors', size, hole, k * size + j, p)
  {
    FilledOnDevice(|d|, size, sectors, sectors', k, count, first);
    forall o: nat
      ensures RawByte(d', size, sectors', hole, o) ==
         if k * size + j <= o < k * size + j + |p| then p[o - (k * size + j)] else RawByte(d, size, sectors, hole, o)
    {
      FillHoleAt(d, size, sectors, sectors', hole, k, count, first, j, p, d', o);
    }
  }

  lemma {:induction false} FillHoleAt(
    d: seq<Byte>, size: nat, sectors: seq<nat>, sectors': seq<nat>, hole: HoleSource,
    k: nat, count: nat, first: nat, j: nat, p: seq<Byte>, d': seq<Byte>, o: nat)
    requires OnDevice(|d|, size, sectors) && OnDevice(|d'|, size, sectors')
    requires HoleFilled(sectors, sectors', k, count, first) && Elsewhere(sectors, 0, 0, first, count)
    requires j < size && j + |p| <= count * size
    requires Spliced(d, DeviceOffset(first, 0, size), NewImage(p, j, k * size, count * size, hole), d')
    ensures RawByte(d', size, sectors', hole, o) ==
      if k * size + j <= o < k * size + j + |p| then p[o - (k * size + j)] else RawByte(d, size, sectors, hole, o)
  {
    SectorOfOffset(o, k, count, size);
    SectorsInBytes(k, count, size);
    if k * size <= o < (k + count) * size {
      var image := NewImage(p, j, k * size, count * size, hole);
      InFilledHole(d, size, sectors, sectors', hole, k, count, first, image, d', o);
    } else {
      var image := NewImage(p, j, k * size, count * size, hole);
      OutsideFilledHole(d, size, sectors, sectors', hole, k, count, first, image, d', o);
    }
  }

  /** The rest of the file reads as before. */
  lemma {:induction false} OutsideFilledHole(
    d: seq<Byte>, size: nat, sectors: seq<nat>, sectors': seq<nat>, hole: HoleSource,
    k: nat, count: nat, first: nat, image: seq<Byte>, d': seq<Byte>, o: nat)
    requires OnDevice(|d|, size, sectors) && OnDevice(|d'|, size, sectors')
    requires HoleFilled(sectors, sectors', k, count, first) && !(k <= o / size < k + count)
    requires Elsewhere(sectors, 0, 0, first, count)
    requires |image| == count * size && Spliced(d, DeviceOffset(first, 0, size), image, d')
    ensures RawByte(d', size, sectors', hole, o) == RawByte(d, size, sectors, hole, o)
  {
    assert IsStored(size, sectors', o) == IsStored(size, sectors, o);
    UnchangedElsewhere(d, d', size, sectors, hole, first, count, o);
  }

  lemma {:induction false} SectorsInBytes(k: nat, count: nat, size: nat)
    ensures (k + count) * size == k * size + count * size
  {
  }

  /** New sectors read as their image, and were not stored before. */
  lemma {:induction false} InFilledHole(
    d: seq<Byte>, size: nat, sectors: seq<nat>, sectors': seq<nat>, hole: HoleSource,
    k: nat, count: nat, first: nat, image: seq<Byte>, d': seq<Byte>, o: nat)
    requires OnDevice(|d|, size, sectors) && OnDevice(|d'|, size, sectors')
    requires HoleFilled(sectors, sectors', k, count, first) && k * size <= o < (k + count) * size
    requires |image| == count * size && Spliced(d, DeviceOffset(first, 0, size), image, d')
    ensures o - k * size < |image| && RawByte(d', size, sectors', hole, o) == image[o - k * size]
    ensures RawByte(d, size, sectors, hole, o) == HoleByte(hole, o)
  {
    SectorOfOffset(o, k, count, size);
    SectorsInBytes(k, count, size);
    ContiguousOffset(sectors', k, count, first, size, o);
  }

  lemma {:induction false} NothingWroteIfSame(
    d: seq<Byte>, size: nat, sectors: seq<nat>, hole: HoleSource, pos: nat, nothing: seq<Byte>, d': seq<Byte>)
    requires SameBytes(d, d', size, sectors, hole) && nothing == []
    ensures Wrote(d, sectors, d', sectors, size, hole, pos, nothing)
  {
  }

  /** Two writes, one right after the other, are one longer write. */
  lemma {:induction false} WroteTwice(
    d: seq<Byte>, s: seq<nat>, d': seq<Byte>, s': seq<nat>, d'': seq<Byte>, s'': seq<nat>,
    size: nat, hole: HoleSource, pos: nat, p: seq<Byte>, q: seq<Byte>)
    requires Wrote(d, s, d', s', size, hole, pos, p) && Wrote(d', s', d'', s'', size, hole, pos + |p|, q)
    ensures Wrote(d, s, d'', s'', size, hole, pos, p + q)
  {
  }

  /** The first `from` bytes of an image are in place. */
  ghost predicate HoldsPrefix(d: seq<Byte>, at: nat, image: seq<Byte>, from: nat, d': seq<Byte>) {
    && |d'| == |d| && from <= |image| && at + |image| <= |d|
    && forall x :: 0 <= x < |d| ==> d'[x] == if at <= x < at + from then image[x - at] else d[x]
  }

  /** `count` sectors that just cover `n` bytes are the full ones, and one more if `n` is no multiple. */
  lemma {:induction false} RoundUp(n: nat, count: nat, size: nat)
    requires size > 0 && n <= count * size < n + size
    ensures count * size == if n == (n / size) * size then n else (n / size) * size + size
  {
    var q := n / size;
    DivMod(n, size);
    Successor(q, size);
    Successor(q + 1, size);
    MulLess(count, q + 2, size);
    if n == q * size {
      MulLess(count, q + 1, size);
      if count < q { MulLe(count, q, size); MulEqual(count, q, size); }
    } else {
      MulLess(q, count, size);
    }
  }

  /** Past offset `n` the file reads as null bytes. */
  ghost predicate ZeroFrom(d: seq<Byte>, size: nat, sectors: seq<nat>, hole: HoleSource, n: nat) {
    OnDevice(|d|, size, sectors) && forall o: nat :: o >= n ==> RawByte(d, size, sectors, hole, o) == 0
  }

  /** A plain byte sequence, after writing `p` at `pos`; a gap in front of `p` reads as null bytes. */
  function Overlay(c: seq<Byte>, pos: nat, p: seq<Byte>): (r: seq<Byte>)
    ensures |r| == if p == [] || pos + |p| < |c| then |c| else pos + |p|
    ensures forall o :: 0 <= o < |r| ==>
      r[o] == if pos <= o < pos + |p| then p[o - pos] else if o < |c| then c[o] else 0
  {
    if p == [] then c
    else if pos >= |c| then c + seq(pos - |c|, _ => 0) + p
    else if pos + |p| < |c| then c[..pos] + p + c[pos + |p|..]
    else c[..pos] + p
  }

  /** A plain byte sequence, cut off or extended with null bytes. */
  function Resize(c: seq<Byte>, n: nat): (r: seq<Byte>)
    ensures |r| == n && forall o :: 0 <= o < n ==> r[o] == if o < |c| then c[o] else 0
  {
    if n <= |c| then c[..n] else c + seq(n - |c|, _ => 0)
  }

  /** A write on the device is a write on the plain byte sequence. */
  lemma {:induction false} ImageAfterWrite(
    d: seq<Byte>, s: seq<nat>, d': seq<Byte>, s': seq<nat>, size: nat, hole: HoleSource, n: nat, pos: nat, p: seq<Byte>)
    requires Wrote(d, s, d', s', size, hole, pos, p) && ZeroFrom(d, size, s, hole, n)
    ensures var c := Overlay(Image(d, size, s, hole, n), pos, p);
            Image(d', size, s', hole, |c|) == c && ZeroFrom(d', size, s', hole, |c|)
  {
  }

  /** `sectors'` keeps the first `m` sectors, without trailing holes. */
  ghost predicate SectorsCut(sectors: seq<nat>, m: nat, sectors': seq<nat>) {
    if |sectors| <= m then sectors' == sectors
    else
      && sectors' <= sectors[..m]
      && (forall i :: |sectors'| <= i < m ==> sectors[i] == 0)
      && (sectors' != [] ==> sectors'[|sectors'| - 1] != 0)
  }

  /** Cutting the sector list keeps the bytes in front of the cut. */
  lemma {:induction false} CutKeeps(
    d: seq<Byte>, size: nat, sectors: seq<nat>, hole: HoleSource, m: nat, sectors': seq<nat>, o: nat)
    requires OnDevice(|d|, size, sectors) && SectorsCut(sectors, m, sectors')
    ensures OnDevice(|d|, size, sectors')
    ensures IsStored(size, sectors', o) == (o / size < m && IsStored(size, sectors, o))
    ensures o / size < m ==> RawByte(d, size, sectors', hole, o) == RawByte(d, size, sectors, hole, o)
  {
  }

  /** The number of sectors that `n` bytes occupy, and the offsets they cover. */
  function SectorsFor(n: nat, size: nat): (m: nat)
    requires size > 0
    ensures n <= m * size < n + size
  {
    DivMod(n, size);
    if n % size == 0 then n / size else n / size + 1
  }

  lemma {:induction false} RestOfSector(n: nat, size: nat)
    requires size > 0 && n % size != 0
    ensures (n / size) * size + n % size == n && SectorsFor(n, size) * size == n + (size - n % size)
  {
    DivMod(n, size);
    assert (n / size + 1) * size == (n / size) * size + size;
  }

  /** Shrinking to `n'` bytes: null bytes in the rest of the last sector, fewer sectors, a shorter hole source. */
  lemma {:induction false} ImageAfterShrink(
    d: seq<Byte>, d': seq<Byte>, size: nat, s: seq<nat>, s': seq<nat>, hole: HoleSource, n: nat, n': nat,
    zeroes: seq<Byte>)
    requires n' < n && ZeroFrom(d, size, s, hole, n)
    requires Wrote(d, s, d', s, size, hole, n', zeroes) && forall x :: 0 <= x < |zeroes| ==> zeroes[x] == 0
    requires IsStored(size, s, n') && n' % size != 0 ==>
      n' + |zeroes| >= n || n' + |zeroes| >= SectorsFor(n', size) * size
    requires SectorsCut(s, SectorsFor(n', size), s')
    ensures OnDevice(|d'|, size, s')
    ensures Image(d', size, s', TruncateHole(hole, n'), n') == Resize(Image(d, size, s, hole, n), n')
    ensures ZeroFrom(d', size, s', TruncateHole(hole, n'), n')
  {
    var hole', m := TruncateHole(hole, n'), SectorsFor(n', size);
    CutKeeps(d', size, s, hole, m, s', 0);
    forall o: nat
      ensures RawByte(d', size, s', hole', o) == if o < n' then RawByte(d, size, s, hole, o) else 0
    {
      CutKeeps(d', size, s, hole, m, s', o);
      SectorOfOffset(o, 0, m, size);
      if n' <= o && IsStored(size, s', o) {
        LastSector(n', o, size);
      }
    }
  }

  /** An offset at or past the end `n`, but in one of the sectors of `n` bytes, is in the last one. */
  lemma {:induction false} LastSector(n: nat, o: nat, size: nat)
    requires size > 0 && n <= o && o / size < SectorsFor(n, size)
    ensures n % size != 0 && o / size == n / size && o < SectorsFor(n, size) * size
  {
    DivMod(n, size);
    DivMod(o, size);
    if o / size < n / size { MulLe(o / size + 1, n / size, size); }
    SectorOfOffset(o, 0, SectorsFor(n, size), size);
  }

  /** Growing needs no work: the sector list is short enough, and the file reads null bytes past its end. */
  lemma {:induction false} ImageAfterGrow(d: seq<Byte>, size: nat, s: seq<nat>, hole: HoleSource, n: nat, n': nat)
    requires n <= n' && ZeroFrom(d, size, s, hole, n)
    ensures Image(d, size, s, hole, n') == Resize(Image(d, size, s, hole, n), n')
    ensures ZeroFrom(d, size, s, hole, n')
  {
  }

  /** Whatever happens to the bytes from `n'` on, the ones in front of it are kept. */
  lemma {:induction false} PrefixKept(
    d: seq<Byte>, d': seq<Byte>, size: nat, s: seq<nat>, s': seq<nat>, hole: HoleSource, n: nat, n': nat,
    written: seq<Byte>)
    requires n' < n && Wrote(d, s, d', s, size, hole, n', written)
    requires s' == s || SectorsCut(s, SectorsFor(n', size), s')
    ensures OnDevice(|d'|, size, s')
    ensures Image(d', size, s', hole, n)[..n'] == Image(d, size, s, hole, n)[..n']
  {
    var m := SectorsFor(n', size);
    forall o: nat | o < n' ensures RawByte(d', size, s', hole, o) == RawByte(d, size, s, hole, o) {
      if s' != s {
        CutKeeps(d', size, s, hole, m, s', o);
        SectorOfOffset(o, 0, m, size);
      }
    }
  }

  /** Cutting at `n'` bytes does nothing to a file that ends before that, and leaves no sector at or past `n'`. */
  lemma {:induction false} CutLength(s: seq<nat>, n': nat, size: nat, n: nat, s': seq<nat>)
    requires size > 0 && SectorsCut(s, SectorsFor(n', size), s')
    requires s != [] ==> s[|s| - 1] != 0 && (|s| - 1) * size < n
    ensures n <= n' ==> s' == s
    ensures s' != [] ==> s'[|s'| - 1] != 0 && (|s'| - 1) * size < n'
  {
    var m := SectorsFor(n', size);
    if n <= n' && |s| > m { MulLe(m, |s| - 1, size); }
    if s' != [] {
      MulLe(|s'| - 1, m - 1, size);
      assert (m - 1) * size == m * size - size;
    }
  }
}
