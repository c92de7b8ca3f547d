/**
 pkg/filesystem/pool/block_device_backed_file_pool.go: sparse, copy-on-write
 files that share one block device.  Calls into the device, the hole source and
 the allocator may fail at any point.
 */
module BlockDeviceFilePool {
  import opened Common
  import opened SectorMath
  import opened FileImage
  import opened BitmapSectorAllocator

  /** The end of a file of `end` bytes after writing `n` bytes at `pos`. */
  function EndAfter(end: nat, pos: nat, n: nat): nat { if n > 0 then Max(end, pos + n) else end }

  datatype Status = Ok | EndOfFile | InvalidArgument | ResourceExhausted | HoleSourceFailure | DeviceFailure

  lemma {:induction false} TakeMore(p: seq<Byte>, n: nat, m: nat)
    requires n + m <= |p|
    ensures p[..n] + p[n..][..m] == p[..n + m]
  {
  }

  class BlockDevice {
    const data: array<Byte>
    const mayFail: bool

    constructor (size: nat, mayFail: bool)
      ensures fresh(data) && data.Length == size && this.mayFail == mayFail
    {
      data := new Byte[size](_ => 0);
      this.mayFail := mayFail;
    }

    /** A failed write may leave anything in the range it was asked to write. */
    method WriteAt(p: seq<Byte>, off: nat) returns (n: nat, failed: bool, ghost written: seq<Byte>)
      requires off + |p| <= data.Length
      modifies data
      ensures n <= |p| && |written| == |p| && (!failed ==> n == |p| && written == p) && (failed ==> mayFail)
      ensures Spliced(old(data[..]), off, written, data[..])
    {
      var bytes := p;
      n, failed := |p|, *;
      failed := failed && mayFail;
      if failed {
        bytes :| |bytes| == |p|;
        n :| 0 <= n <= |p|;
      }
      forall x | off <= x < off + |p| { data[x] := bytes[x - off]; }
      written := bytes;
    }

    method ReadAt(n: nat, off: nat) returns (bytes: seq<Byte>, failed: bool)
      requires off + n <= data.Length
      ensures |bytes| <= n && forall x :: 0 <= x < |bytes| ==> bytes[x] == data[off + x]
      ensures (!failed ==> |bytes| == n) && (failed ==> mayFail)
    {
      bytes, failed := data[off..off + n], *;
      failed := failed && mayFail;
      if failed {
        var m :| 0 <= m <= n;
        bytes := bytes[..m];
      }
    }
  }

  /** `owner` says for every sector in use which file it belongs to, and where in its sector list. */
  ghost predicate Inverse(owner: map<nat, (File, nat)>, lists: map<File, seq<nat>>) {
    && (forall n :: n in owner ==>
          n != 0 && owner[n].0 in lists && owner[n].1 < |lists[owner[n].0]| && lists[owner[n].0][owner[n].1] == n)
    && (forall f, i :: f in lists && 0 <= i < |lists[f]| && lists[f][i] != 0 ==>
          lists[f][i] in owner && owner[lists[f][i]] == (f, i))
  }

  ghost function OwnerAfterFill(owner: map<nat, (File, nat)>, f: File, k: nat, count: nat, first: nat)
    : (r: map<nat, (File, nat)>)
    ensures r.Keys == owner.Keys + Sectors(first, count)
  {
    map n | n in owner.Keys + Sectors(first, count) ::
      if n in owner then owner[n] else (f, if n < first then 0 else k + (n - first))
  }

  /** New sectors fill a hole of one file. */
  lemma {:induction false} InverseFilled(
    owner: map<nat, (File, nat)>, lists: map<File, seq<nat>>, f: File, sectors: seq<nat>, k: nat, count: nat,
    first: nat)
    requires Inverse(owner, lists) && f in lists && HoleFilled(lists[f], sectors, k, count, first)
    requires owner.Keys !! Sectors(first, count)
    ensures Inverse(OwnerAfterFill(owner, f, k, count, first), lists[f := sectors])
  {
    var lists', owner' := lists[f := sectors], OwnerAfterFill(owner, f, k, count, first);
    forall n | n in owner'
      ensures n != 0 && owner'[n].0 in lists' && owner'[n].1 < |lists'[owner'[n].0]|
      ensures lists'[owner'[n].0][owner'[n].1] == n
    {
      if n !in owner {
        assert sectors[k + (n - first)] == n;
      } else if owner[n].0 == f {
        assert sectors[owner[n].1] == lists[f][owner[n].1];
      }
    }
    forall g, i | g in lists' && 0 <= i < |lists'[g]| && lists'[g][i] != 0
      ensures lists'[g][i] in owner' && owner'[lists'[g][i]] == (g, i)
    {
      OwnedAfterFill(owner, lists, f, sectors, k, count, first, g, i);
    }
  }

  lemma {:induction false} OwnedAfterFill(
    owner: map<nat, (File, nat)>, lists: map<File, seq<nat>>, f: File, sectors: seq<nat>, k: nat, count: nat,
    first: nat,
    g: File, i: nat)
    requires Inverse(owner, lists) && f in lists && HoleFilled(lists[f], sectors, k, count, first)
    requires owner.Keys !! Sectors(first, count) && g in lists
    requires var s := if g == f then sectors else lists[g]; i < |s| && s[i] != 0
    ensures var n := (if g == f then sectors else lists[g])[i];
            var owner' := OwnerAfterFill(owner, f, k, count, first);
            n in owner' && owner'[n] == (g, i)
  {
    if g == f && k <= i < k + count {
      assert sectors[i] in Sectors(first, count);
    } else {
      assert lists[g][i] in owner;
    }
  }

  lemma {:induction false} JoinSets(a: set<nat>, b: set<nat>, c: set<nat>)
    requires a !! b !! c
    ensures a + b !! {} !! c && a + b + {} + c == a + b + c
  {
  }

  /** The sector numbers of a sector list. */
  ghost function NonZero(sectors: seq<nat>): set<nat> {
    set i | 0 <= i < |sectors| && sectors[i] != 0 :: sectors[i]
  }

  ghost function OwnerAfterShrink(owner: map<nat, (File, nat)>, f: File, m: nat): map<nat, (File, nat)> {
    map n | n in owner && !(owner[n].0 == f && owner[n].1 >= m) :: owner[n]
  }

  /** The sectors from index `m` on are given up, and so are trailing holes. */
  lemma {:induction false} InverseShrunk(
    owner: map<nat, (File, nat)>, lists: map<File, seq<nat>>, f: File, m: nat, sectors: seq<nat>)
    requires Inverse(owner, lists) && f in lists && m <= |lists[f]| && sectors <= lists[f][..m]
    requires forall i :: |sectors| <= i < m ==> lists[f][i] == 0
    ensures Inverse(OwnerAfterShrink(owner, f, m), lists[f := sectors])
    ensures OwnerAfterShrink(owner, f, m).Keys == owner.Keys - NonZero(lists[f][m..])
  {
    var owner' := OwnerAfterShrink(owner, f, m);
    forall n | n in owner ensures n in owner' <==> n !in NonZero(lists[f][m..]) {
      if owner[n].0 == f && owner[n].1 >= m {
        assert lists[f][m..][owner[n].1 - m] == n;
      }
    }
  }

  class FilePool {
    const device: BlockDevice
    const allocator: Allocator
    const sectorSizeBytes: nat
    const holeSourcesMayFail: bool
    ghost var files: set<File>                 // the files that are open
    ghost var owner: map<nat, (File, nat)>     // sector number to file and index in its sector list

    ghost predicate Parts()
      reads allocator, allocator.freeBitmap
    {
      && sectorSizeBytes > 0 && allocator.Valid()
      && allocator.sectorCount * sectorSizeBytes <= device.data.Length
      && (device.data as object) != (allocator.freeBitmap as object)
    }

    /** The sector lists of the open files. */
    ghost function Lists(): (r: map<File, seq<nat>>)
      reads `files, files`sectors
    {
      map f | f in files :: f.sectors
    }

    /** The free sectors, the ones owned by files and `limbo` partition 1..sectorCount. */
    ghost predicate Partition(limbo: set<nat>)
      reads this, allocator
    {
      && owner.Keys !! limbo !! allocator.FreeSectors()
      && owner.Keys + limbo + allocator.FreeSectors() == Sectors(1, allocator.sectorCount)
    }

    ghost predicate IsFull()
      reads allocator
    {
      allocator.FreeSectors() == {}
    }

    /** Sector conservation: every sector is free, in `limbo`, or at exactly one place of one file. */
    ghost predicate Conserved(limbo: set<nat>)
      reads this, files`sectors, allocator
    {
      Partition(limbo) && Inverse(owner, Lists())
    }

    /** The invariant, except for the shape of the files. */
    ghost predicate Core()
      reads this, files`sectors, allocator, allocator.freeBitmap
    {
      && Parts() && Conserved({})
      && (forall g :: g in files ==> g.fp == this && g.OnDevice())
    }

    /** The invariant, except for the shape of one file that is being written to. */
    ghost predicate ValidBut(f: File)
      reads this, files`sectors, files`sizeBytes, allocator, allocator.freeBitmap
    {
      Core() && forall g :: g in files && g != f ==> g.Shape()
    }

    ghost predicate Valid()
      reads this, files`sectors, files`sizeBytes, allocator, allocator.freeBitmap
    {
      Core() && forall g :: g in files ==> g.Shape()
    }

    ghost function Device(): seq<Byte>
      reads device.data
    {
      device.data[..]
    }

    /** All files but `f` read as they did when the device held `d0`. */
    ghost predicate OthersKept(f: File, d0: seq<Byte>)
      reads `files, files, device.data
    {
      forall g :: g in files && g != f ==> SameBytes(d0, Device(), sectorSizeBytes, g.sectors, g.holeSource)
    }

    lemma {:induction false} NothingHappened(f: File)
      requires ValidBut(f) && f in files
      ensures forall o: nat :: Wrote(Device(), f.sectors, Device(), f.sectors, sectorSizeBytes, f.holeSource, o, [])
      ensures OthersKept(f, Device())
    {
    }

    /** The sectors of one file may change without another file noticing. */
    lemma {:induction false} SparesOthers(f: File, k: nat, count: nat, first: nat, d0: seq<Byte>)
      requires Parts() && Inverse(owner, Lists()) && f in files && ContiguousAt(f.sectors, k, count, first)
      requires forall g :: g in files ==> g.fp == this && g.OnDevice()
      requires KeptOutside(d0, (first - 1) * sectorSizeBytes, count * sectorSizeBytes, Device())
      ensures OthersKept(f, d0) && Elsewhere(f.sectors, k, count, first, count)
    {
      forall t | first <= t < first + count ensures t in owner && owner[t] == (f, k + (t - first)) {
        assert Lists()[f][k + (t - first)] == t;
      }
      forall g, i | g in files && 0 <= i < |g.sectors| && g.sectors[i] != 0 && !(g == f && k <= i < k + count)
        ensures !(first <= g.sectors[i] < first + count)
      {
        assert Lists()[g][i] == g.sectors[i];
      }
      forall g | g in files && g != f
        ensures SameBytes(d0, Device(), sectorSizeBytes, g.sectors, g.holeSource)
      {
        SameBytesElsewhere(d0, Device(), sectorSizeBytes, g.sectors, g.holeSource, first, count);
      }
    }

    /** Sectors that no file owns may change. */
    lemma {:induction false} SparedByWrite(d0: seq<Byte>, first: nat, count: nat)
      requires Parts() && Inverse(owner, Lists()) && first >= 1 && Sectors(first, count) !! owner.Keys
      requires forall g :: g in files ==> g.fp == this && g.OnDevice()
      requires KeptOutside(d0, (first - 1) * sectorSizeBytes, count * sectorSizeBytes, Device())
      ensures forall g :: g in files ==> SameBytes(d0, Device(), sectorSizeBytes, g.sectors, g.holeSource)
      ensures forall g :: g in files ==> Elsewhere(g.sectors, 0, 0, first, count)
    {
      forall g | g in files
        ensures SameBytes(d0, Device(), sectorSizeBytes, g.sectors, g.holeSource)
        ensures Elsewhere(g.sectors, 0, 0, first, count)
      {
        forall i | 0 <= i < |g.sectors| && g.sectors[i] != 0 ensures !(first <= g.sectors[i] < first + count) {
          assert Lists()[g][i] in owner;
        }
        SameBytesElsewhere(d0, Device(), sectorSizeBytes, g.sectors, g.holeSource, first, count);
      }
    }

    /** What `FreeList` demands of its callers holds for the sectors of an open file. */
    lemma {:induction false} MayBeFreed(f: File, m: nat)
      requires Parts() && Conserved({}) && f in files && m <= |f.sectors|
      ensures var s := f.sectors[m..];
        && (forall i :: 0 <= i < |s| && s[i] != 0 ==> s[i] <= allocator.sectorCount && s[i] !in allocator.FreeSectors())
        && (forall i, j :: 0 <= i < j < |s| && s[i] != 0 ==> s[i] != s[j])
        && NonZero(s) <= owner.Keys
    {
      var s := f.sectors[m..];
      assert forall i :: 0 <= i < |s| && s[i] != 0 ==> s[i] in owner && owner[s[i]] == (f, m + i) by {
        forall i | 0 <= i < |s| && s[i] != 0 ensures s[i] in owner && owner[s[i]] == (f, m + i) {
          assert Lists()[f][m + i] == s[i];
        }
      }
    }

    /** Sectors in limbo have become part of the sector list of `f`. */
    ghost method TakeOwnership(f: File, lists: map<File, seq<nat>>, k: nat, count: nat, first: nat)
      requires f in files && first >= 1 && Partition(Sectors(first, count))
      requires f in lists && Lists() == lists[f := f.sectors] && Inverse(owner, lists)
      requires HoleFilled(lists[f], f.sectors, k, count, first)
      modifies `owner
      ensures Conserved({})
    {
      InverseFilled(owner, lists, f, f.sectors, k, count, first);
      JoinSets(owner.Keys, Sectors(first, count), allocator.FreeSectors());
      owner := OwnerAfterFill(owner, f, k, count, first);
    }

    /** The sectors of `f` from index `m` on have been freed. */
    ghost method GiveUpOwnership(f: File, lists: map<File, seq<nat>>, m: nat)
      requires f in lists && m <= |lists[f]| && Inverse(owner, lists)
      requires Lists() == lists[f := f.sectors] || (f !in files && f.sectors == [] && Lists() == lists - {f})
      requires f.sectors <= lists[f][..m] && forall i :: |f.sectors| <= i < m ==> lists[f][i] == 0
      requires owner.Keys + allocator.FreeSectors() == Sectors(1, allocator.sectorCount)
      requires owner.Keys * allocator.FreeSectors() == NonZero(lists[f][m..])
      modifies `owner
      ensures Conserved({})
    {
      ghost var owner0 := owner;
      owner := OwnerAfterShrink(owner0, f, m);
      InverseShrunk(owner0, lists, f, m, f.sectors);
      assert f !in files ==> Inverse(owner, lists - {f});
    }

    constructor (device: BlockDevice, allocator: Allocator, sectorSizeBytes: nat, holeSourcesMayFail: bool)
      requires sectorSizeBytes > 0 && allocator.Valid()
      requires allocator.FreeSectors() == Sectors(1, allocator.sectorCount)
      requires allocator.sectorCount * sectorSizeBytes <= device.data.Length
      requires (device.data as object) != (allocator.freeBitmap as object)
      ensures Valid() && files == {}
      ensures this.device == device && this.allocator == allocator && this.sectorSizeBytes == sectorSizeBytes
      ensures this.holeSourcesMayFail == holeSourcesMayFail
    {
      this.device, this.allocator, this.sectorSizeBytes := device, allocator, sectorSizeBytes;
      this.holeSourcesMayFail := holeSourcesMayFail;
      files, owner := {}, map[];
    }

    method NewFile(holeSource: HoleSource, size: nat) returns (f: File)
      requires Valid()
      modifies this
      ensures Valid() && fresh(f) && files == old(files) + {f}
      ensures f.fp == this && f.sectors == [] && f.holeSource == holeSource && f.sizeBytes == size
      ensures f.Contents() == HoleBytes(holeSource, 0, size)
      ensures (forall o: nat :: o >= size ==> HoleByte(holeSource, o) == 0) ==> f.ZeroTail()
    {
      ghost var lists := Lists();
      f := new File(this, holeSource, size);
      files := files + {f};
      assert Lists() == lists[f := []];
      f.EmptyContents();
    }

    /** Closing all files frees everything. */
    lemma {:induction false} AllClosedFreesAll()
      requires Valid() && files == {}
      ensures allocator.FreeSectors() == Sectors(1, allocator.sectorCount)
    {
      assert Lists().Keys == {} && owner.Keys == {};
    }
  }

  class File {
    const fp: FilePool
    var holeSource: HoleSource
    var sizeBytes: nat
    var sectors: seq<nat>

    constructor (fp: FilePool, holeSource: HoleSource, size: nat)
      ensures this.fp == fp && this.holeSource == holeSource && sizeBytes == size && sectors == []
    {
      this.fp, this.holeSource, sizeBytes, sectors := fp, holeSource, size, [];
    }

    /** Failures are reported only if something may fail. */
    predicate Justified(status: Status) {
      (status == DeviceFailure ==> fp.device.mayFail) && (status == HoleSourceFailure ==> fp.holeSourcesMayFail)
    }

    /** Likewise, and writes run out of space only if no sector is free. */
    ghost predicate WriteOutcome(status: Status)
      reads fp.allocator
    {
      match status
      case Ok => true
      case ResourceExhausted => fp.IsFull()
      case HoleSourceFailure => fp.holeSourcesMayFail
      case DeviceFailure => fp.device.mayFail
      case _ => false
    }

    /** No sector is allocated for this index of the sector list. */
    ghost predicate IsHole(k: nat)
      reads `sectors
    {
      k >= |sectors| || sectors[k] == 0
    }

    /** There is a hole that starts in front of offset `end`. */
    ghost predicate HoleBefore(end: nat)
      reads `sectors
    {
      exists k: nat :: IsHole(k) && k * fp.sectorSizeBytes < end
    }

    /** The sector list has no trailing hole and starts no sector at or past offset `end`. */
    ghost predicate ShapeFor(end: nat)
      reads `sectors
    {
      sectors != [] ==> sectors[|sectors| - 1] != 0 && (|sectors| - 1) * fp.sectorSizeBytes < end
    }

    ghost predicate Shape()
      reads `sectors, `sizeBytes
    {
      ShapeFor(sizeBytes)
    }

    ghost predicate OnDevice()
      reads `sectors
    {
      FileImage.OnDevice(fp.device.data.Length, fp.sectorSizeBytes, sectors)
    }

    /** Growing the file shows null bytes. */
    ghost predicate ZeroTail()
      reads this, fp.device.data
    {
      ZeroFrom(fp.Device(), fp.sectorSizeBytes, sectors, holeSource, sizeBytes)
    }

    /** The file as a plain byte sequence. */
    ghost function Contents(): seq<Byte>
      requires OnDevice()
      reads this, fp.device.data
    {
      Image(fp.Device(), fp.sectorSizeBytes, sectors, holeSource, sizeBytes)
    }

    lemma {:induction false} EmptyContents()
      requires fp.sectorSizeBytes > 0 && sectors == []
      ensures OnDevice() && Contents() == HoleBytes(holeSource, 0, sizeBytes)
      ensures (forall o: nat :: o >= sizeBytes ==> HoleByte(holeSource, o) == 0) ==> ZeroTail()
    {
      NoSectorsImage(fp.Device(), fp.sectorSizeBytes, holeSource, sizeBytes);
    }

    // ReadAt() and WriteAt() share the helpers that walk the sector list.

    method GetInitialSectorIndex(off: nat, n: nat) returns (first: nat, last: int, offsetWithinSector: nat)
      requires fp.sectorSizeBytes > 0
      ensures first * fp.sectorSizeBytes + offsetWithinSector == off && offsetWithinSector < fp.sectorSizeBytes
      ensures -1 <= last < |sectors|
    {
      first := off / fp.sectorSizeBytes;
      var end := (off + n + fp.sectorSizeBytes - 1) / fp.sectorSizeBytes;
      if end > |sectors| { end := |sectors|; }
      offsetWithinSector := off % fp.sectorSizeBytes;
      last := end - 1;
      DivMod(off, fp.sectorSizeBytes);
    }

    /** The panic "did not finish at sector boundary" is a precondition here. */
    method IncrementSectorIndex(k: nat, j: nat, n: nat) returns (k': nat)
      requires fp.sectorSizeBytes > 0 && (j + n) % fp.sectorSizeBytes == 0
      ensures k' * fp.sectorSizeBytes == k * fp.sectorSizeBytes + j + n
    {
      k' := k + (j + n) / fp.sectorSizeBytes;
      DivMod(j + n, fp.sectorSizeBytes);
    }

    method GetSectorsContiguous(k: nat, last: int) returns (sector: nat, count: nat)
      requires k < |sectors| && last < |sectors|
      ensures sector == sectors[k] && count >= 1 && k + count <= |sectors|
      ensures sector == 0 ==> forall i :: k <= i < k + count ==> sectors[i] == 0
      ensures sector != 0 ==> ContiguousAt(sectors, k, count, sector)
      ensures k + count <= last ==> sectors[k + count] != if sector == 0 then 0 else sector + count
    {
      sector, count := sectors[k], 1;
      if sector == 0 {
        while k + count <= last && sectors[k + count] == 0
          invariant 1 <= count && k + count <= |sectors|
          invariant forall i :: k <= i < k + count ==> sectors[i] == 0
        {
          count := count + 1;
        }
      } else {
        while k + count <= last && sectors[k + count] == sector + count
          invariant 1 <= count && k + count <= |sectors|
          invariant ContiguousAt(sectors, k, count, sector)
        {
          count := count + 1;
        }
      }
    }

    /** How many of `n` bytes fit into `count` sectors, starting at offset `j` of the first one. */
    function LimitToSectorBoundary(n: nat, count: nat, j: nat): (m: nat)
      requires fp.sectorSizeBytes > 0 && count >= 1 && j < fp.sectorSizeBytes
      ensures m <= n && j + m <= count * fp.sectorSizeBytes
      ensures n > 0 ==> m > 0
      ensures m < n ==> j + m == count * fp.sectorSizeBytes && (j + m) % fp.sectorSizeBytes == 0
    {
      MulLe(1, count, fp.sectorSizeBytes);
      DivModUnique(count, 0, fp.sectorSizeBytes);
      if count * fp.sectorSizeBytes - j < n then count * fp.sectorSizeBytes - j else n
    }

    // Reading.

    method ReadFromHoleSource(n: nat, k: nat, j: nat) returns (bytes: seq<Byte>, status: Status)
      ensures |bytes| <= n && (status == Ok ==> |bytes| == n) && status in {Ok, HoleSourceFailure} && Justified(status)
      ensures forall x :: 0 <= x < |bytes| ==> bytes[x] == HoleByte(holeSource, k * fp.sectorSizeBytes + j + x)
    {
      bytes, status := HoleBytes(holeSource, k * fp.sectorSizeBytes + j, n), Ok;
      var failed: bool := *;
      if failed && fp.holeSourcesMayFail {
        var m :| 0 <= m <= n;
        bytes, status := bytes[..m], HoleSourceFailure;
      }
    }

    /** The bytes are those of the file at the given position. */
    ghost predicate ReadsBack(bytes: seq<Byte>, pos: nat)
      requires OnDevice()
      reads this, fp.device.data
    {
      forall x :: 0 <= x < |bytes| ==>
        bytes[x] == RawByte(fp.Device(), fp.sectorSizeBytes, sectors, holeSource, pos + x)
    }

    method ReadFromSectors(n: nat, k: nat, last: int, j: nat) returns (bytes: seq<Byte>, status: Status)
      requires OnDevice() && last < |sectors| && j < fp.sectorSizeBytes && n > 0
      ensures |bytes| <= n && ReadsBack(bytes, k * fp.sectorSizeBytes + j)
      ensures status in {Ok, HoleSourceFailure, DeviceFailure} && Justified(status)
      ensures status == Ok ==> |bytes| > 0
      ensures status == Ok && |bytes| < n ==> (j + |bytes|) % fp.sectorSizeBytes == 0
    {
      if k >= |sectors| {
        bytes, status := ReadFromHoleSource(n, k, j);
        HolesReadBack(bytes, k, j, 0);
        return;
      }
      var sector, count := GetSectorsContiguous(k, last);
      var m := LimitToSectorBoundary(n, count, j);
      if sector == 0 {
        bytes, status := ReadFromHoleSource(m, k, j);
        HolesReadBack(bytes, k, j, count);
        return;
      }
      ContiguousRunOnDevice(fp.device.data.Length, fp.sectorSizeBytes, sectors, k, count, sector);
      var failed;
      bytes, failed := fp.device.ReadAt(m, DeviceOffset(sector, j, fp.sectorSizeBytes));
      status := if failed then DeviceFailure else Ok;
      SectorsReadBack(bytes, k, j, count, sector);
    }

    lemma {:induction false} HolesReadBack(bytes: seq<Byte>, k: nat, j: nat, count: nat)
      requires OnDevice() && j < fp.sectorSizeBytes
      requires k >= |sectors| || j + |bytes| <= count * fp.sectorSizeBytes
      requires forall i :: k <= i < k + count && i < |sectors| ==> sectors[i] == 0
      requires forall x :: 0 <= x < |bytes| ==> bytes[x] == HoleByte(holeSource, k * fp.sectorSizeBytes + j + x)
      ensures ReadsBack(bytes, k * fp.sectorSizeBytes + j)
    {
      var size := fp.sectorSizeBytes;
      forall x | 0 <= x < |bytes|
        ensures bytes[x] == RawByte(fp.Device(), size, sectors, holeSource, k * size + j + x)
      {
        assert (k + count) * size == k * size + count * size;
        NotStored(sectors, k, count, size, k * size + j + x);
      }
    }

    lemma {:induction false} SectorsReadBack(bytes: seq<Byte>, k: nat, j: nat, count: nat, sector: nat)
      requires OnDevice() && j < fp.sectorSizeBytes && count >= 1 && j + |bytes| <= count * fp.sectorSizeBytes
      requires ContiguousAt(sectors, k, count, sector)
      requires DeviceOffset(sector, j, fp.sectorSizeBytes) + |bytes| <= |fp.Device()|
      requires forall x :: 0 <= x < |bytes| ==>
        bytes[x] == fp.Device()[DeviceOffset(sector, j, fp.sectorSizeBytes) + x]
      ensures ReadsBack(bytes, k * fp.sectorSizeBytes + j)
    {
      var size := fp.sectorSizeBytes;
      forall x | 0 <= x < |bytes|
        ensures bytes[x] == RawByte(fp.Device(), size, sectors, holeSource, k * size + j + x)
      {
        assert (k + count) * size == k * size + count * size;
        ContiguousOffset(sectors, k, count, sector, size, k * size + j + x);
      }
    }

    lemma {:induction false} ReadsOn(bytes: seq<Byte>, more: seq<Byte>, pos: nat)
      requires OnDevice() && ReadsBack(bytes, pos) && ReadsBack(more, pos + |bytes|)
      ensures ReadsBack(bytes + more, pos)
    {
      forall x | 0 <= x < |bytes + more|
        ensures (bytes + more)[x] == RawByte(fp.Device(), fp.sectorSizeBytes, sectors, holeSource, pos + x)
      {
        if x >= |bytes| {
          assert (bytes + more)[x] == more[x - |bytes|] && pos + x == pos + |bytes| + (x - |bytes|);
        }
      }
    }

    lemma {:induction false} ReadsContents(bytes: seq<Byte>, pos: nat)
      requires OnDevice() && ReadsBack(bytes, pos) && pos + |bytes| <= sizeBytes
      ensures bytes == Contents()[pos..pos + |bytes|]
    {
    }

    /** Reads are those of a plain byte sequence; `EndOfFile` says that the read reached the end of it. */
    method ReadAt(n0: nat, off: int) returns (bytes: seq<Byte>, status: Status)
      requires OnDevice()
      ensures status in {Ok, EndOfFile, InvalidArgument, HoleSourceFailure, DeviceFailure} && Justified(status)
      ensures status == InvalidArgument <==> off < 0
      ensures off < 0 ==> bytes == []
      ensures off >= 0 && bytes != [] ==> off + |bytes| <= sizeBytes && bytes == Contents()[off..off + |bytes|]
      ensures |bytes| <= n0 && (status == Ok ==> |bytes| == n0) && (off >= 0 && n0 == 0 ==> status == Ok)
      ensures status == EndOfFile ==>
        off + n0 >= sizeBytes && off + |bytes| == if off <= sizeBytes then sizeBytes else off
      ensures off >= 0 && n0 > 0 && status == Ok ==> off + n0 < sizeBytes
    {
      bytes := [];
      if off < 0 { return bytes, InvalidArgument; }
      if n0 == 0 { return bytes, Ok; }
      if off >= sizeBytes { return bytes, EndOfFile; }
      var n, success := n0, Ok;
      if off + n >= sizeBytes {
        n, success := sizeBytes - off, EndOfFile;
      }
      var k, last, j := GetInitialSectorIndex(off, n);
      while true
        invariant |bytes| < n && 0 <= j < fp.sectorSizeBytes && last < |sectors|
        invariant k * fp.sectorSizeBytes + j == off + |bytes|
        invariant ReadsBack(bytes, off)
        decreases n - |bytes|
      {
        var more;
        more, status := ReadFromSectors(n - |bytes|, k, last, j);
        ReadsOn(bytes, more, off);
        bytes := bytes + more;
        if status != Ok || |bytes| == n {
          ReadsContents(bytes, off);
          if status == Ok { status := success; }
          return;
        }
        k := IncrementSectorIndex(k, j, |more|);
        j := 0;
      }
    }

    // Writing.

    /** Writes the next chunk of the image of freshly allocated sectors. */
    method WriteChunk(
      ghost d0: seq<Byte>, ghost base: nat, ghost image: seq<Byte>, ghost from: nat, chunk: seq<Byte>, at: nat)
      returns (status: Status)
      requires HoldsPrefix(d0, base, image, from, fp.Device())
      requires from + |chunk| <= |image| && at == base + from
      requires forall x :: 0 <= x < |chunk| ==> chunk[x] == image[from + x]
      modifies fp.device.data
      ensures status == Ok ==> HoldsPrefix(d0, base, image, from + |chunk|, fp.Device())
      ensures KeptOutside(d0, base, |image|, fp.Device())
      ensures status in {Ok, DeviceFailure} && Justified(status)
    {
      var n, failed;
      ghost var written;
      n, failed, written := fp.device.WriteAt(chunk, at);
      status := if failed then DeviceFailure else Ok;
    }

    /** The first chunk: a sector with the data in the middle or at the end of it. */
    method FirstChunk(p: seq<Byte>, k: nat, j: nat, ghost length: nat) returns (buf: seq<Byte>, m: nat, status: Status)
      requires 0 < j < fp.sectorSizeBytes <= length && p != []
      ensures status in {Ok, HoleSourceFailure} && Justified(status)
      ensures m == if |p| < fp.sectorSizeBytes - j then |p| else fp.sectorSizeBytes - j
      ensures status == Ok ==> buf == NewImage(p, j, k * fp.sectorSizeBytes, length, holeSource)[..fp.sectorSizeBytes]
    {
      m := if |p| < fp.sectorSizeBytes - j then |p| else fp.sectorSizeBytes - j;
      var tail := [];
      buf, status := ReadFromHoleSource(j, k, 0);
      if status != Ok { return; }
      if j + |p| < fp.sectorSizeBytes {
        tail, status := ReadFromHoleSource(fp.sectorSizeBytes - (j + |p|), k, j + |p|);
        if status != Ok { return; }
      }
      buf := buf + p[..m] + tail;
    }

    /** The last chunk: a sector that starts with the data and is completed by the hole source. */
    method WriteLast(
      ghost d0: seq<Byte>, ghost base: nat, ghost image: seq<Byte>, ghost from: nat, ghost pos: nat,
      p: seq<Byte>, k: nat, at: nat) returns (status: Status)
      requires HoldsPrefix(d0, base, image, from, fp.Device())
      requires |p| < fp.sectorSizeBytes && at == base + from && pos == k * fp.sectorSizeBytes
      requires |image| == from + if p == [] then 0 else fp.sectorSizeBytes
      requires forall x :: from <= x < |image| ==>
        image[x] == if x < from + |p| then p[x - from] else HoleByte(holeSource, pos + (x - from))
      modifies fp.device.data
      ensures status in {Ok, HoleSourceFailure, DeviceFailure} && Justified(status)
      ensures status == Ok ==> HoldsPrefix(d0, base, image, |image|, fp.Device())
      ensures KeptOutside(d0, base, |image|, fp.Device())
    {
      status := Ok;
      if |p| > 0 {
        var tail;
        tail, status := ReadFromHoleSource(fp.sectorSizeBytes - |p|, k, |p|);
        if status == Ok {
          status := WriteChunk(d0, base, image, from, p + tail, at);
        }
      }
    }

    method FullSectors(n: nat, ghost k: nat, ghost count: nat) returns (fullSectors: nat, full: nat)
      requires fp.sectorSizeBytes > 0 && n <= count * fp.sectorSizeBytes < n + fp.sectorSizeBytes
      ensures full <= n < full + fp.sectorSizeBytes && (fullSectors == 0 ==> full == 0)
      ensures (k + fullSectors) * fp.sectorSizeBytes == k * fp.sectorSizeBytes + full
      ensures count * fp.sectorSizeBytes == full + if n == full then 0 else fp.sectorSizeBytes
    {
      fullSectors := n / fp.sectorSizeBytes;
      full := fullSectors * fp.sectorSizeBytes;
      DivMod(n, fp.sectorSizeBytes);
      RoundUp(n, count, fp.sectorSizeBytes);
    }

    /** The remaining chunks, for data that starts on a sector boundary: full sectors, and then a last one. */
    method WriteAligned(
      ghost d0: seq<Byte>, ghost base: nat, ghost image: seq<Byte>, ghost from: nat, ghost pos: nat, ghost count: nat,
      p: seq<Byte>, k: nat, at: nat) returns (status: Status)
      requires HoldsPrefix(d0, base, image, from, fp.Device())
      requires at == base + from && fp.sectorSizeBytes > 0 && from + count * fp.sectorSizeBytes == |image|
      requires |p| <= count * fp.sectorSizeBytes < |p| + fp.sectorSizeBytes && pos == k * fp.sectorSizeBytes
      requires forall x :: from <= x < |image| ==>
        image[x] == if x < from + |p| then p[x - from] else HoleByte(holeSource, pos + (x - from))
      modifies fp.device.data
      ensures status in {Ok, HoleSourceFailure, DeviceFailure} && Justified(status)
      ensures status == Ok ==> HoldsPrefix(d0, base, image, |image|, fp.Device())
      ensures KeptOutside(d0, base, |image|, fp.Device())
    {
      var fullSectors, full := FullSectors(|p|, k, count);
      if fullSectors > 0 {
        status := WriteChunk(d0, base, image, from, p[..full], at);
        if status != Ok { return; }
      }
      status := WriteLast(d0, base, image, from + full, pos + full, p[full..], k + fullSectors, at + full);
    }

    /** Fills `count` new sectors, of which the data covers the last byte of all but the last. */
    method WriteImage(p: seq<Byte>, k: nat, j: nat, firstSector: nat, count: nat) returns (status: Status)
      requires p != [] && j < fp.sectorSizeBytes && firstSector >= 1 && count >= 1
      requires j + |p| <= count * fp.sectorSizeBytes < j + |p| + fp.sectorSizeBytes
      requires DeviceOffset(firstSector, 0, fp.sectorSizeBytes) + count * fp.sectorSizeBytes <= fp.device.data.Length
      modifies fp.device.data
      ensures status in {Ok, HoleSourceFailure, DeviceFailure} && Justified(status)
      ensures status == Ok ==>
        Spliced(old(fp.Device()), DeviceOffset(firstSector, 0, fp.sectorSizeBytes),
          NewImage(p, j, k * fp.sectorSizeBytes, count * fp.sectorSizeBytes, holeSource), fp.Device())
      ensures KeptOutside(old(fp.Device()), DeviceOffset(firstSector, 0, fp.sectorSizeBytes),
        count * fp.sectorSizeBytes, fp.Device())
    {
      var size := fp.sectorSizeBytes;
      ghost var d0 := fp.Device();
      ghost var base := DeviceOffset(firstSector, 0, size);
      ghost var image := NewImage(p, j, k * size, count * size, holeSource);
      if j > 0 {
        MulLe(1, count, size);
        var buf, m;
        buf, m, status := FirstChunk(p, k, j, count * size);
        if status != Ok { return; }
        status := WriteChunk(d0, base, image, 0, buf, DeviceOffset(firstSector, 0, size));
        if status != Ok { return; }
        assert (count - 1) * size == count * size - size && (k + 1) * size == k * size + size;
        status := WriteAligned(d0, base, image, size, (k + 1) * size, count - 1, p[m..], k + 1,
          DeviceOffset(firstSector + 1, 0, size));
      } else {
        status := WriteAligned(d0, base, image, 0, k * size, count, p, k, DeviceOffset(firstSector, 0, size));
      }
    }

    /** Allocates sectors for as much of `length` bytes as possible. */
    method AllocateFor(length: nat, j: nat) returns (n: nat, r: Allocation)
      requires fp.Parts() && fp.Partition({}) && j < fp.sectorSizeBytes && length > 0
      modifies fp.allocator, fp.allocator.freeBitmap
      ensures fp.Parts()
      ensures r.NoFreeSectors? <==> old(fp.allocator.FreeSectors()) == {}
      ensures r.NoFreeSectors? ==> fp.Partition({})
      ensures r.Allocated? ==>
        && r.first >= 1 && r.count >= 1 && fp.Partition(Sectors(r.first, r.count))
        && 0 < n <= length && (n < length ==> (j + n) % fp.sectorSizeBytes == 0)
        && j + n <= r.count * fp.sectorSizeBytes < j + n + fp.sectorSizeBytes
        && (r.first - 1 + r.count) * fp.sectorSizeBytes <= fp.device.data.Length
        && DeviceOffset(r.first, 0, fp.sectorSizeBytes) + r.count * fp.sectorSizeBytes <= fp.device.data.Length
    {
      var sectorsToAllocate := (j + length + fp.sectorSizeBytes - 1) / fp.sectorSizeBytes;
      CeilDiv(j + length, fp.sectorSizeBytes);
      r := fp.allocator.AllocateContiguous(sectorsToAllocate);
      n := 0;
      if r.Allocated? {
        assert r.first + r.count - 1 in Sectors(r.first, r.count);
        n := LimitToSectorBoundary(length, r.count, j);
        AllocatedOnDevice(r.first, r.count, sectorsToAllocate, j, length);
      }
    }

    /** Allocates sectors and writes the data into them, or leaves everything the files own alone. */
    method WriteToNewSectors(p: seq<Byte>, k: nat, j: nat)
      returns (n: nat, firstSector: nat, count: nat, status: Status)
      requires fp.Parts() && fp.Partition({}) && j < fp.sectorSizeBytes && p != []
      modifies fp.allocator, fp.allocator.freeBitmap, fp.device.data
      ensures fp.Parts()
      ensures WriteOutcome(status)
      ensures status == ResourceExhausted <==> old(fp.allocator.FreeSectors()) == {}
      ensures firstSector >= 1 && Sectors(firstSector, count) !! fp.owner.Keys
      ensures KeptOutside(old(fp.Device()), DeviceOffset(firstSector, 0, fp.sectorSizeBytes),
        count * fp.sectorSizeBytes, fp.Device())
      ensures fp.Partition(if status == Ok then Sectors(firstSector, count) else {})
      ensures status != Ok ==> n == 0
      ensures status == Ok ==>
        && count >= 1 && 0 < n <= |p| && (n < |p| ==> (j + n) % fp.sectorSizeBytes == 0)
        && j + n <= count * fp.sectorSizeBytes < j + n + fp.sectorSizeBytes
        && (firstSector - 1 + count) * fp.sectorSizeBytes <= fp.device.data.Length
        && Spliced(old(fp.Device()), DeviceOffset(firstSector, 0, fp.sectorSizeBytes),
             NewImage(p[..n], j, k * fp.sectorSizeBytes, count * fp.sectorSizeBytes, holeSource), fp.Device())
    {
      var r;
      n, r := AllocateFor(|p|, j);
      if r.NoFreeSectors? {
        return 0, 1, 0, ResourceExhausted;
      }
      firstSector, count := r.first, r.count;
      status := WriteImage(p[..n], k, j, firstSector, count);
      if status != Ok {
        FreeAgain(firstSector, count);
        n := 0;
      }
    }

    method FreeAgain(firstSector: nat, count: nat)
      requires fp.Parts() && firstSector >= 1 && fp.Partition(Sectors(firstSector, count)) && count >= 1
      modifies fp.allocator`bits, fp.allocator.freeBitmap
      ensures fp.Parts() && fp.Partition({})
    {
      assert firstSector + count - 1 in Sectors(firstSector, count);
      forall q | firstSector - 1 <= q < firstSector - 1 + count ensures !Free(fp.allocator.bits, q) {
        assert q + 1 in Sectors(firstSector, count);
      }
      fp.allocator.FreeContiguous(firstSector, count);
    }

    lemma {:induction false} AllocatedOnDevice(first: nat, count: nat, wanted: nat, j: nat, n: nat)
      requires fp.Parts() && first >= 1 && 1 <= count <= wanted && j < fp.sectorSizeBytes && n > 0
      requires first - 1 + count <= fp.allocator.sectorCount
      requires j + n <= wanted * fp.sectorSizeBytes && (wanted - 1) * fp.sectorSizeBytes < j + n
      ensures (first - 1 + count) * fp.sectorSizeBytes <= fp.device.data.Length
      ensures DeviceOffset(first, 0, fp.sectorSizeBytes) + count * fp.sectorSizeBytes <= fp.device.data.Length
      ensures (count - 1) * fp.sectorSizeBytes < j + n
      ensures var m := LimitToSectorBoundary(n, count, j);
              j + m <= count * fp.sectorSizeBytes < j + m + fp.sectorSizeBytes
    {
      var size := fp.sectorSizeBytes;
      MulLe(first - 1 + count, fp.allocator.sectorCount, size);
      MulLe(count - 1, wanted - 1, size);
      assert (first - 1 + count) * size == (first - 1) * size + count * size;
      assert (count - 1) * size == count * size - size;
    }

    /** The panic "replace existing sector" is a precondition here: the indices hold no sectors. */
    method InsertSectorsContiguous(k: nat, firstSector: nat, count: nat)
      requires k + count <= |sectors| && firstSector >= 1
      requires forall i :: k <= i < k + count ==> sectors[i] == 0
      modifies `sectors
      ensures |sectors| == |old(sectors)|
      ensures forall i :: 0 <= i < |sectors| ==>
        sectors[i] == if k <= i < k + count then firstSector + (i - k) else old(sectors)[i]
    {
      for i := 0 to count
        invariant |sectors| == |old(sectors)|
        invariant forall x :: 0 <= x < |sectors| ==>
          sectors[x] == if k <= x < k + i then firstSector + (x - k) else old(sectors)[x]
      {
        assert sectors[k + i] == 0;
        sectors := sectors[k + i := firstSector + i];
      }
    }

    /** Adds sectors that were allocated for this file, extending the sector list if needed. */
    method AddSectors(k: nat, firstSector: nat, count: nat)
      requires this in fp.files && firstSector >= 1 && fp.Conserved(Sectors(firstSector, count))
      requires forall i :: k <= i < k + count && i < |sectors| ==> sectors[i] == 0
      modifies `sectors, fp`owner
      ensures fp.Conserved({}) && HoleFilled(old(sectors), sectors, k, count, firstSector)
      ensures |sectors| == Max(k + count, |old(sectors)|)
    {
      ghost var lists := fp.Lists();
      if k + count > |sectors| {
        sectors := sectors + seq(k + count - |sectors|, _ => 0);
      }
      InsertSectorsContiguous(k, firstSector, count);
      assert fp.Lists() == lists[this := sectors];
      fp.TakeOwnership(this, lists, k, count, firstSector);
    }

    method CommitSectors(k: nat, firstSector: nat, count: nat)
      requires fp.Parts() && this in fp.files && firstSector >= 1 && fp.Conserved(Sectors(firstSector, count))
      requires forall g :: g in fp.files ==> g.fp == fp && g.OnDevice() && (g != this ==> g.Shape())
      requires (firstSector - 1 + count) * fp.sectorSizeBytes <= fp.device.data.Length
      requires forall i :: k <= i < k + count && i < |sectors| ==> sectors[i] == 0
      modifies `sectors, fp`owner
      ensures fp.ValidBut(this) && HoleFilled(old(sectors), sectors, k, count, firstSector)
      ensures |sectors| == Max(k + count, |old(sectors)|)
    {
      ghost var before := sectors;
      AddSectors(k, firstSector, count);
      FilledOnDevice(fp.device.data.Length, fp.sectorSizeBytes, before, sectors, k, count, firstSector);
    }

    /** Allocates and fills new sectors that no file owns yet. */
    method FillUnowned(p: seq<Byte>, k: nat, j: nat)
      returns (n: nat, firstSector: nat, count: nat, status: Status)
      requires fp.ValidBut(this) && this in fp.files && j < fp.sectorSizeBytes && p != []
      modifies fp.allocator, fp.allocator.freeBitmap, fp.device.data
      ensures fp.Parts() && fp.OthersKept(this, old(fp.Device()))
      ensures WriteOutcome(status) && (status != Ok ==> n == 0)
      ensures SameBytes(old(fp.Device()), fp.Device(), fp.sectorSizeBytes, sectors, holeSource)
      ensures firstSector >= 1 && fp.Conserved(if status == Ok then Sectors(firstSector, count) else {})
      ensures status == Ok ==>
        && 0 < n <= |p| && (n < |p| ==> (j + n) % fp.sectorSizeBytes == 0)
        && ReadyAt(old(fp.Device()), sectors, p[..n], k, j, count, firstSector)
    {
      ghost var d0 := fp.Device();
      n, firstSector, count, status := WriteToNewSectors(p, k, j);
      fp.SparedByWrite(d0, firstSector, count);
    }

    /** New sectors hold `p`, surrounded by what the hole source provides. */
    ghost predicate ReadyAt(d0: seq<Byte>, sectors0: seq<nat>, p: seq<Byte>, k: nat, j: nat, count: nat, first: nat)
      reads `holeSource, fp.device.data
    {
      && first >= 1 && Elsewhere(sectors0, 0, 0, first, count)
      && count >= 1 && j < fp.sectorSizeBytes && (first - 1 + count) * fp.sectorSizeBytes <= |d0|
      && j + |p| <= count * fp.sectorSizeBytes < j + |p| + fp.sectorSizeBytes
      && Spliced(d0, DeviceOffset(first, 0, fp.sectorSizeBytes),
           NewImage(p, j, k * fp.sectorSizeBytes, count * fp.sectorSizeBytes, holeSource), fp.Device())
    }

    /** Allocates and fills new sectors, and adds them to the file. */
    method FillNewSectors(p: seq<Byte>, k: nat, j: nat, ghost room: nat)
      returns (n: nat, status: Status, ghost count: nat, ghost firstSector: nat)
      requires fp.ValidBut(this) && this in fp.files && j < fp.sectorSizeBytes && p != []
      requires k >= |sectors| || (k + room <= |sectors| && j + |p| <= room * fp.sectorSizeBytes)
      requires forall i :: k <= i < k + room && i < |sectors| ==> sectors[i] == 0
      modifies `sectors, fp`owner, fp.allocator, fp.allocator.freeBitmap, fp.device.data
      ensures fp.ValidBut(this) && fp.OthersKept(this, old(fp.Device()))
      ensures WriteOutcome(status)
      ensures status != Ok ==> n == 0 && sectors == old(sectors)
      ensures status != Ok ==> SameBytes(old(fp.Device()), fp.Device(), fp.sectorSizeBytes, sectors, holeSource)
      ensures status == Ok ==>
        && 0 < n <= |p| && (n < |p| ==> (j + n) % fp.sectorSizeBytes == 0)
        && FileImage.OnDevice(|old(fp.Device())|, fp.sectorSizeBytes, old(sectors))
        && ReadyAt(old(fp.Device()), old(sectors), p[..n], k, j, count, firstSector)
        && HoleFilled(old(sectors), sectors, k, count, firstSector) && |sectors| == Max(k + count, |old(sectors)|)
    {
      var first, taken;
      n, first, taken, status := FillUnowned(p, k, j);
      if status == Ok {
        HoleInRoom(k, taken, room, j, n);
        CommitSectors(k, first, taken);
      }
      count, firstSector := taken, first;
    }

    /** Writes into a hole of at least `room` sectors, or past the last sector. */
    method WriteToHole(p: seq<Byte>, k: nat, j: nat, ghost room: nat, ghost end: nat)
      returns (n: nat, status: Status)
      requires fp.ValidBut(this) && this in fp.files && ShapeFor(end) && j < fp.sectorSizeBytes && p != []
      requires IsHole(k)
      requires k >= |sectors| || (k + room <= |sectors| && j + |p| <= room * fp.sectorSizeBytes)
      requires forall i :: k <= i < k + room && i < |sectors| ==> sectors[i] == 0
      modifies `sectors, fp`owner, fp.allocator, fp.allocator.freeBitmap, fp.device.data
      ensures fp.ValidBut(this) && ShapeFor(EndAfter(end, k * fp.sectorSizeBytes + j, n))
      ensures WriteOutcome(status)
      ensures status == ResourceExhausted ==> IsHole(k)
      ensures n <= |p| && (status == Ok <==> n > 0) && |sectors| >= |old(sectors)|
      ensures n < |p| && status == Ok ==> (j + n) % fp.sectorSizeBytes == 0
      ensures Wrote(old(fp.Device()), old(sectors), fp.Device(), sectors, fp.sectorSizeBytes, holeSource,
        k * fp.sectorSizeBytes + j, p[..n])
      ensures fp.OthersKept(this, old(fp.Device()))
    {
      ghost var d0, before, pos := fp.Device(), sectors, k * fp.sectorSizeBytes + j;
      ghost var count, firstSector;
      n, status, count, firstSector := FillNewSectors(p, k, j, room);
      if status != Ok {
        NothingWroteIfSame(d0, fp.sectorSizeBytes, sectors, holeSource, pos, p[..n], fp.Device());
      } else {
        FillHole(d0, fp.sectorSizeBytes, before, sectors, holeSource, k, count, firstSector, j, p[..n], fp.Device());
        ShapeAfterFill(before, k, count, firstSector, j, n, end);
      }
    }

    lemma {:induction false} HoleInRoom(k: nat, count: nat, room: nat, j: nat, n: nat)
      requires count * fp.sectorSizeBytes < j + n + fp.sectorSizeBytes
      requires k >= |sectors| || (k + room <= |sectors| && j + n <= room * fp.sectorSizeBytes)
      requires forall i :: k <= i < k + room && i < |sectors| ==> sectors[i] == 0
      ensures forall i :: k <= i < k + count && i < |sectors| ==> sectors[i] == 0
    {
      FitsInRoom(k, count, room, j, n);
    }

    lemma {:induction false} FitsInRoom(k: nat, count: nat, room: nat, j: nat, n: nat)
      requires count * fp.sectorSizeBytes < j + n + fp.sectorSizeBytes
      requires k >= |sectors| || (k + room <= |sectors| && j + n <= room * fp.sectorSizeBytes)
      ensures k >= |sectors| || count <= room
    {
      if k < |sectors| && count > room {
        MulLe(room + 1, count, fp.sectorSizeBytes);
      }
    }

    lemma {:induction false} ShapeAfterFill(before: seq<nat>, k: nat, count: nat, first: nat, j: nat, n: nat, end: nat)
      requires HoleFilled(before, sectors, k, count, first) && count >= 1 && j < fp.sectorSizeBytes && n > 0
      requires before != [] ==> before[|before| - 1] != 0 && (|before| - 1) * fp.sectorSizeBytes < end
      requires |sectors| == Max(k + count, |before|)
      requires count * fp.sectorSizeBytes < j + n + fp.sectorSizeBytes
      ensures ShapeFor(EndAfter(end, k * fp.sectorSizeBytes + j, n))
    {
      var size := fp.sectorSizeBytes;
      if k + count > |before| {
        assert (k + count - 1) * size == k * size + count * size - size;
      } else {
        assert sectors[|sectors| - 1] == before[|before| - 1];
      }
    }

    /** One write: into existing sectors, into a hole, or past the last sector. */
    method WriteToSectors(p: seq<Byte>, k: nat, last: int, j: nat, ghost end: nat)
      returns (n: nat, status: Status, ghost written: seq<Byte>)
      requires fp.ValidBut(this) && this in fp.files && ShapeFor(end)
      requires last < |sectors| && j < fp.sectorSizeBytes && p != []
      modifies `sectors, fp`owner, fp.allocator, fp.allocator.freeBitmap, fp.device.data
      ensures fp.ValidBut(this) && ShapeFor(EndAfter(end, k * fp.sectorSizeBytes + j, n)) && last < |sectors|
      ensures WriteOutcome(status)
      ensures status == ResourceExhausted ==> IsHole(k)
      ensures n <= |p| && |written| <= |p| && (status == Ok ==> n > 0)
      ensures status != DeviceFailure ==> written == p[..n]
      ensures n < |p| && status == Ok ==> (j + n) % fp.sectorSizeBytes == 0
      ensures Wrote(old(fp.Device()), old(sectors), fp.Device(), sectors, fp.sectorSizeBytes, holeSource,
        k * fp.sectorSizeBytes + j, written)
      ensures fp.OthersKept(this, old(fp.Device()))
    {
      if k >= |sectors| {
        n, status := WriteToHole(p, k, j, 0, end);
        written := p[..n];
        return;
      }
      var sector, count := GetSectorsContiguous(k, last);
      var m := LimitToSectorBoundary(|p|, count, j);
      if sector == 0 {
        n, status := WriteToHole(p[..m], k, j, count, end);
        written := p[..n];
        return;
      }
      n, status, written := OverwriteSectors(p[..m], k, j, sector, count);
    }

    method OverwriteSectors(p: seq<Byte>, k: nat, j: nat, sector: nat, count: nat)
      returns (n: nat, status: Status, ghost written: seq<Byte>)
      requires fp.ValidBut(this) && this in fp.files
      requires count >= 1 && ContiguousAt(sectors, k, count, sector)
      requires j < fp.sectorSizeBytes && j + |p| <= count * fp.sectorSizeBytes
      modifies fp.device.data
      ensures fp.ValidBut(this) && status in {Ok, DeviceFailure} && Justified(status) && n <= |p| && |written| == |p|
      ensures status == Ok ==> n == |p| && written == p
      ensures Wrote(old(fp.Device()), sectors, fp.Device(), sectors, fp.sectorSizeBytes, holeSource,
        k * fp.sectorSizeBytes + j, written)
      ensures fp.OthersKept(this, old(fp.Device()))
    {
      ghost var d0 := fp.Device();
      ContiguousRunOnDevice(fp.device.data.Length, fp.sectorSizeBytes, sectors, k, count, sector);
      var failed;
      n, failed, written := fp.device.WriteAt(p, DeviceOffset(sector, j, fp.sectorSizeBytes));
      status := if failed then DeviceFailure else Ok;
      fp.SparesOthers(this, k, count, sector, d0);
      Overwrite(d0, fp.sectorSizeBytes, sectors, holeSource, k, count, sector, j, written, fp.Device());
    }

    /** The loop of `WriteAt`; the size of the file is adjusted afterwards. */
    method WriteAll(p: seq<Byte>, off: nat, ghost end: nat) returns (n: nat, status: Status, ghost written: seq<Byte>)
      requires fp.ValidBut(this) && this in fp.files && ShapeFor(end) && p != []
      modifies `sectors, fp`owner, fp.allocator, fp.allocator.freeBitmap, fp.device.data
      ensures fp.ValidBut(this) && ShapeFor(EndAfter(end, off, n))
      ensures WriteOutcome(status)
      ensures status == ResourceExhausted ==> HoleBefore(off + |p|)
      ensures n <= |p| && |written| <= |p| && (status == Ok ==> n == |p|)
      ensures status != DeviceFailure ==> written == p[..n]
      ensures Wrote(old(fp.Device()), old(sectors), fp.Device(), sectors, fp.sectorSizeBytes, holeSource, off, written)
      ensures fp.OthersKept(this, old(fp.Device()))
    {
      ghost var d0, sectors0 := fp.Device(), sectors;
      var k: nat, last: int, j: nat := GetInitialSectorIndex(off, |p|);
      n, written := 0, [];
      while true
        invariant n < |p| && 0 <= j < fp.sectorSizeBytes && last < |sectors|
        invariant k * fp.sectorSizeBytes + j == off + n && |written| == n && written == p[..n]
        invariant fp.ValidBut(this) && ShapeFor(EndAfter(end, off, n))
        invariant Wrote(d0, sectors0, fp.Device(), sectors, fp.sectorSizeBytes, holeSource, off, written)
        invariant fp.OthersKept(this, d0)
        decreases |p| - n
      {
        ghost var d1, sectors1 := fp.Device(), sectors;
        var more;
        ghost var written1;
        more, status, written1 := WriteToSectors(p[n..], k, last, j, EndAfter(end, off, n));
        WroteTwice(d0, sectors0, d1, sectors1, fp.Device(), sectors, fp.sectorSizeBytes, holeSource, off, written,
          written1);
        TakeMore(p, n, more);
        n, written := n + more, written + written1;
        if n == |p| || status != Ok { return; }
        k := IncrementSectorIndex(k, j, more);
        j := 0;
      }
    }

    /** Writes are those of a plain byte sequence, for as many bytes as were written. */
    method WriteAt(p: seq<Byte>, off: int) returns (n: nat, status: Status, ghost written: seq<Byte>)
      requires fp.Valid() && this in fp.files
      modifies this, fp`owner, fp.allocator, fp.allocator.freeBitmap, fp.device.data
      ensures fp.Valid() && holeSource == old(holeSource)
      ensures if off < 0 then status == InvalidArgument else WriteOutcome(status)
      ensures status == ResourceExhausted ==> HoleBefore(off + |p|)
      ensures off >= 0 && p == [] ==> status == Ok
      ensures off < 0 ==> n == 0 && written == [] && sectors == old(sectors) && fp.Device() == old(fp.Device())
      ensures n <= |p| && |written| <= |p| && (status == Ok ==> n == |p|)
      ensures status !in {DeviceFailure, InvalidArgument} ==> written == p[..n]
      ensures sizeBytes == if off < 0 then old(sizeBytes) else EndAfter(old(sizeBytes), off, n)
      ensures off >= 0 ==>
        Wrote(old(fp.Device()), old(sectors), fp.Device(), sectors, fp.sectorSizeBytes, holeSource, off, written)
      ensures off >= 0 && status != DeviceFailure && old(ZeroTail()) ==>
        Contents() == Overlay(old(Contents()), off, p[..n]) && ZeroTail()
      ensures off < 0 ==> Contents() == old(Contents()) && (old(ZeroTail()) ==> ZeroTail())
      ensures fp.OthersKept(this, old(fp.Device()))
    {
      fp.NothingHappened(this);
      if off < 0 { return 0, InvalidArgument, []; }
      if p == [] { return 0, Ok, []; }
      ghost var d0, sectors0 := fp.Device(), sectors;
      n, status, written := WriteAll(p, off, sizeBytes);
      if ZeroFrom(d0, fp.sectorSizeBytes, sectors0, holeSource, sizeBytes) {
        ImageAfterWrite(d0, sectors0, fp.Device(), sectors, fp.sectorSizeBytes, holeSource, sizeBytes, off, written);
      }
      if n > 0 && sizeBytes < off + n {
        SetSize(off + n, holeSource);
      }
    }

    // Truncation.

    method TrimTrailingHoles()
      modifies `sectors
      ensures sectors <= old(sectors) && (sectors != [] ==> sectors[|sectors| - 1] != 0)
      ensures forall i :: |sectors| <= i < |old(sectors)| ==> old(sectors)[i] == 0
    {
      while |sectors| > 0 && sectors[|sectors| - 1] == 0
        invariant sectors <= old(sectors)
        invariant forall i :: |sectors| <= i < |old(sectors)| ==> old(sectors)[i] == 0
        decreases |sectors|
      {
        sectors := sectors[..|sectors| - 1];
      }
    }

    method FreeFrom(m: nat)
      requires fp.Parts() && fp.Conserved({}) && this in fp.files && m < |sectors|
      modifies `sectors, fp`owner, fp.allocator`bits, fp.allocator.freeBitmap
      ensures fp.Parts() && fp.Conserved({}) && SectorsCut(old(sectors), m, sectors)
    {
      ghost var lists := fp.Lists();
      fp.MayBeFreed(this, m);
      fp.allocator.FreeList(sectors[m..]);
      sectors := sectors[..m];
      TrimTrailingHoles();
      assert fp.Lists() == lists[this := sectors];
      fp.GiveUpOwnership(this, lists, m);
    }

    method TruncateSectors(sectorCount: nat)
      requires fp.ValidBut(this) && this in fp.files
      modifies `sectors, fp`owner, fp.allocator`bits, fp.allocator.freeBitmap
      ensures fp.ValidBut(this) && SectorsCut(old(sectors), sectorCount, sectors)
    {
      if |sectors| > sectorCount {
        FreeFrom(sectorCount);
      }
    }

    /** Clears the rest of the last sector, if the file is shrunk to partway into a sector that holds data. */
    method ZeroLastSector(size: nat) returns (status: Status, ghost zeroes: seq<Byte>)
      requires fp.ValidBut(this) && this in fp.files
      modifies fp.device.data
      ensures fp.ValidBut(this) && status in {Ok, DeviceFailure} && Justified(status)
      ensures Wrote(old(fp.Device()), sectors, fp.Device(), sectors, fp.sectorSizeBytes, holeSource, size, zeroes)
      ensures status != Ok ==> size < sizeBytes
      ensures status == Ok && size < sizeBytes ==> ZeroedRest(old(fp.Device()), sectors, fp.Device(), size, zeroes)
      ensures size >= sizeBytes ==> fp.Device() == old(fp.Device())
      ensures fp.OthersKept(this, old(fp.Device()))
    {
      var sectorIndex, offsetWithinSector := size / fp.sectorSizeBytes, size % fp.sectorSizeBytes;
      if offsetWithinSector != 0 && size < sizeBytes && sectorIndex < |sectors| && sectors[sectorIndex] != 0 {
        var n := fp.sectorSizeBytes - offsetWithinSector;
        if n > sizeBytes - size { n := sizeBytes - size; }
        RestOfSector(size, fp.sectorSizeBytes);
        var written;
        written, status, zeroes :=
          OverwriteSectors(seq(n, _ => 0), sectorIndex, offsetWithinSector, sectors[sectorIndex], 1);
      } else {
        fp.NothingHappened(this);
        status, zeroes := Ok, [];
      }
    }

    /** Truncation is that of a plain byte sequence.  After a failure the size is unchanged, and so are the
        bytes in front of the requested size. */
    method Truncate(size: int) returns (status: Status)
      requires fp.Valid() && this in fp.files
      modifies this, fp`owner, fp.allocator`bits, fp.allocator.freeBitmap, fp.device.data
      ensures fp.Valid() && fp.OthersKept(this, old(fp.Device()))
      ensures status in {Ok, InvalidArgument, HoleSourceFailure, DeviceFailure} && Justified(status)
      ensures status == InvalidArgument <==> size < 0
      ensures status == InvalidArgument ==> Contents() == old(Contents()) && (old(ZeroTail()) ==> ZeroTail())
      ensures status == Ok && old(ZeroTail()) ==> Contents() == Resize(old(Contents()), size) && ZeroTail()
      ensures sizeBytes == if status == Ok then size else old(sizeBytes)
      ensures status in {HoleSourceFailure, DeviceFailure} ==>
        0 <= size < sizeBytes && Contents()[..size] == old(Contents())[..size]
    {
      fp.NothingHappened(this);
      if size < 0 { return InvalidArgument; }
      ghost var d0, sectors0 := fp.Device(), sectors;
      ghost var zeroes;
      status, zeroes := CutTo(size);
      if status == Ok && size < sizeBytes {
        var failed: bool := *;
        if failed && fp.holeSourcesMayFail { status := HoleSourceFailure; }
      }
      if status != Ok {
        PrefixKept(d0, fp.Device(), fp.sectorSizeBytes, sectors0, sectors, holeSource, sizeBytes, size, zeroes);
      } else {
        TruncatedImage(d0, sectors0, size, zeroes);
        SetSize(size, if size < sizeBytes then TruncateHole(holeSource, size) else holeSource);
      }
    }

    lemma {:induction false} TruncatedImage(d0: seq<Byte>, sectors0: seq<nat>, size: nat, zeroes: seq<Byte>)
      requires OnDevice() && SectorsCut(sectors0, SectorsFor(size, fp.sectorSizeBytes), sectors)
      requires size >= sizeBytes ==> fp.Device() == d0 && sectors == sectors0
      requires size < sizeBytes ==> ZeroedRest(d0, sectors0, fp.Device(), size, zeroes)
      ensures ZeroFrom(d0, fp.sectorSizeBytes, sectors0, holeSource, sizeBytes) ==>
        var hole := if size < sizeBytes then TruncateHole(holeSource, size) else holeSource;
        && ZeroFrom(fp.Device(), fp.sectorSizeBytes, sectors, hole, size)
        && Image(fp.Device(), fp.sectorSizeBytes, sectors, hole, size) ==
             Resize(Image(d0, fp.sectorSizeBytes, sectors0, holeSource, sizeBytes), size)
    {
      if ZeroFrom(d0, fp.sectorSizeBytes, sectors0, holeSource, sizeBytes) {
        if size < sizeBytes {
          ImageAfterShrink(d0, fp.Device(), fp.sectorSizeBytes, sectors0, sectors, holeSource, sizeBytes, size, zeroes);
        } else {
          ImageAfterGrow(d0, fp.sectorSizeBytes, sectors0, holeSource, sizeBytes, size);
        }
      }
    }

    /** The part of the last sector past `size` has been cleared, up to the end of the sector or of the file. */
    ghost predicate ZeroedRest(d0: seq<Byte>, sectors0: seq<nat>, d: seq<Byte>, size: nat, zeroes: seq<Byte>)
      reads `sizeBytes, `holeSource
    {
      && fp.sectorSizeBytes > 0
      && Wrote(d0, sectors0, d, sectors0, fp.sectorSizeBytes, holeSource, size, zeroes)
      && (forall x :: 0 <= x < |zeroes| ==> zeroes[x] == 0)
      && (IsStored(fp.sectorSizeBytes, sectors0, size) && size % fp.sectorSizeBytes != 0 ==>
            || size + |zeroes| >= sizeBytes
            || size + |zeroes| >= SectorsFor(size, fp.sectorSizeBytes) * fp.sectorSizeBytes)
    }

    /** Clears the rest of the last sector, and gives up the sectors behind it. */
    method CutTo(size: nat) returns (status: Status, ghost zeroes: seq<Byte>)
      requires fp.Valid() && this in fp.files
      modifies `sectors, fp`owner, fp.allocator`bits, fp.allocator.freeBitmap, fp.device.data
      ensures fp.ValidBut(this) && fp.OthersKept(this, old(fp.Device()))
      ensures status in {Ok, DeviceFailure} && Justified(status)
      ensures ShapeFor(size) || (ShapeFor(sizeBytes) && status != Ok)
      ensures Wrote(old(fp.Device()), old(sectors), fp.Device(), old(sectors), fp.sectorSizeBytes, holeSource, size,
        zeroes)
      ensures status != Ok ==> size < sizeBytes && sectors == old(sectors)
      ensures status == Ok ==> SectorsCut(old(sectors), SectorsFor(size, fp.sectorSizeBytes), sectors)
      ensures status == Ok && size < sizeBytes ==> ZeroedRest(old(fp.Device()), old(sectors), fp.Device(), size, zeroes)
      ensures size >= sizeBytes ==> fp.Device() == old(fp.Device()) && sectors == old(sectors)
    {
      status, zeroes := ZeroLastSector(size);
      if status == Ok {
        ghost var sectors0 := sectors;
        TruncateSectors(SectorsFor(size, fp.sectorSizeBytes));
        CutLength(sectors0, size, fp.sectorSizeBytes, sizeBytes, sectors);
      }
    }

    method SetSize(size: nat, hole: HoleSource)
      requires fp.ValidBut(this) && ShapeFor(size)
      modifies `sizeBytes, `holeSource
      ensures fp.Valid() && sizeBytes == size && holeSource == hole
    {
      sizeBytes, holeSource := size, hole;
    }

    // Regions of data and holes.

    /** Whether an offset lies in a sector or in a data region of the hole source. */
    ghost predicate IsData(o: nat)
      requires fp.sectorSizeBytes > 0
      reads `sectors, `holeSource
    {
      IsStored(fp.sectorSizeBytes, sectors, o) || IsHoleData(holeSource, o)
    }

    /** The hole source has no data past the size of the file. */
    ghost predicate HoleWithin()
      reads `sizeBytes, `holeSource
    {
      forall o: nat :: o >= sizeBytes ==> !IsHoleData(holeSource, o)
    }

    method NextHoleSourceData(off: nat) returns (r: nat, status: Status)
      ensures status in {Ok, EndOfFile, HoleSourceFailure} && Justified(status)
      ensures status == Ok ==>
        off <= r && IsHoleData(holeSource, r) && forall o :: off <= o < r ==> !IsHoleData(holeSource, o)
      ensures status == EndOfFile ==> forall o :: off <= o ==> !IsHoleData(holeSource, o)
    {
      r, status := off, Ok;
      var failed: bool := *;
      if failed && fp.holeSourcesMayFail { return r, HoleSourceFailure; }
      while r < |holeSource| && holeSource[r].Gap?
        invariant off <= r && forall o :: off <= o < r ==> !IsHoleData(holeSource, o)
      {
        r := r + 1;
      }
      if r >= |holeSource| { status := EndOfFile; }
    }

    /** Past its last data, a hole source may report either a hole or its end. */
    method NextHoleSourceHole(off: nat) returns (r: nat, status: Status)
      ensures status in {Ok, EndOfFile, HoleSourceFailure} && Justified(status)
      ensures status == Ok ==>
        off <= r && !IsHoleData(holeSource, r) && forall o :: off <= o < r ==> IsHoleData(holeSource, o)
      ensures status == EndOfFile ==> !IsHoleData(holeSource, off)
    {
      r, status := off, Ok;
      var failed: bool := *;
      if failed && fp.holeSourcesMayFail { return r, HoleSourceFailure; }
      if off >= |holeSource| {
        if * { status := EndOfFile; }
        return;
      }
      while r < |holeSource| && holeSource[r].Data?
        invariant off <= r <= |holeSource| && forall o :: off <= o < r ==> IsHoleData(holeSource, o)
      {
        r := r + 1;
      }
    }

    /** The least offset at or after `off` that is data in either layer. */
    method GetNextData(off: int) returns (r: nat, status: Status)
      requires fp.sectorSizeBytes > 0 && Shape()
      ensures status in {Ok, InvalidArgument, EndOfFile, HoleSourceFailure} && Justified(status)
      ensures status == InvalidArgument <==> off < 0
      ensures status == Ok ==> 0 <= off <= r && IsData(r) && forall o: nat :: off <= o < r ==> !IsData(o)
      ensures status == EndOfFile ==> off >= sizeBytes || forall o: nat :: off <= o ==> !IsData(o)
      ensures status == Ok && HoleWithin() ==> r < sizeBytes
    {
      r := 0;
      if off < 0 { return r, InvalidArgument; }
      if off >= sizeBytes { return r, EndOfFile; }
      var k := off / fp.sectorSizeBytes;
      DivMod(off, fp.sectorSizeBytes);
      if k >= |sectors| {
        forall o: nat | off <= o ensures !IsStored(fp.sectorSizeBytes, sectors, o) {
          NotStored(sectors, k, 0, fp.sectorSizeBytes, o);
        }
        r, status := NextHoleSourceData(off);
        return;
      }
      if sectors[k] != 0 { return off, Ok; }
      var next := k + 1;
      while sectors[next] == 0
        invariant k < next < |sectors| && forall i :: k <= i < next ==> sectors[i] == 0
        decreases |sectors| - next
      {
        next := next + 1;
      }
      var sectorOffset := next * fp.sectorSizeBytes;
      SectorStarts(k, next, off);
      r, status := NextHoleSourceData(off);
      if status == EndOfFile {
        return sectorOffset, Ok;
      }
      if status == Ok && sectorOffset < r {
        r := sectorOffset;
      }
    }

    /** Between a hole in the sector list and the next sector nothing is stored. */
    lemma {:induction false} SectorStarts(k: nat, next: nat, off: nat)
      requires fp.sectorSizeBytes > 0 && Shape() && k < next < |sectors| && sectors[next] != 0
      requires forall i :: k <= i < next ==> sectors[i] == 0
      requires k * fp.sectorSizeBytes <= off < (k + 1) * fp.sectorSizeBytes
      ensures off <= next * fp.sectorSizeBytes < sizeBytes
      ensures IsStored(fp.sectorSizeBytes, sectors, next * fp.sectorSizeBytes)
      ensures forall o: nat :: off <= o < next * fp.sectorSizeBytes ==> !IsStored(fp.sectorSizeBytes, sectors, o)
    {
      MulLe(k + 1, next, fp.sectorSizeBytes);
      MulLe(next, |sectors| - 1, fp.sectorSizeBytes);
      DivModUnique(next, 0, fp.sectorSizeBytes);
      forall o: nat | off <= o < next * fp.sectorSizeBytes ensures !IsStored(fp.sectorSizeBytes, sectors, o) {
        NotStored(sectors, k, next - k, fp.sectorSizeBytes, o);
      }
    }

    /** The least offset at or after `off` that is a hole in both layers, or the end of the file. */
    method GetNextHole(off0: int) returns (r: nat, status: Status)
      requires fp.sectorSizeBytes > 0 && Shape()
      ensures status in {Ok, InvalidArgument, EndOfFile, HoleSourceFailure} && Justified(status)
      ensures status == InvalidArgument <==> off0 < 0
      ensures off0 >= 0 ==> (status == EndOfFile <==> off0 >= sizeBytes)
      ensures status == Ok && HoleWithin() ==>
        && 0 <= off0 <= r <= sizeBytes && (r == sizeBytes || !IsData(r))
        && forall o: nat :: off0 <= o < r ==> IsData(o)
    {
      if off0 < 0 { return 0, InvalidArgument; }
      if off0 >= sizeBytes { return 0, EndOfFile; }
      var off: nat := off0;
      while true
        invariant off0 <= off
        invariant forall o: nat :: off0 <= o < off ==> IsData(o)
        invariant HoleWithin() ==> off <= sizeBytes
        decreases sizeBytes - off
      {
        var k: nat;
        ghost var unstored;
        off, k, unstored := SkipSectors(off);
        if off >= sizeBytes {
          return sizeBytes, Ok;
        }
        var next;
        next, status := NextHoleSourceHole(off);
        if status == EndOfFile { return off, Ok; }
        if status != Ok { return 0, status; }
        assert next > sizeBytes ==> IsHoleData(holeSource, sizeBytes);
        if next < (k + 1) * fp.sectorSizeBytes { return next, Ok; }
        off := next;
      }
    }

    /** Moves past the sectors at an offset; what follows, up to the end of that sector, is not stored. */
    method SkipSectors(off0: nat) returns (off: nat, k: nat, ghost end: nat)
      requires fp.sectorSizeBytes > 0
      ensures off0 <= off < end == (k + 1) * fp.sectorSizeBytes
      ensures forall o: nat :: off0 <= o < off ==> IsStored(fp.sectorSizeBytes, sectors, o)
      ensures forall o: nat :: off <= o < end ==> !IsStored(fp.sectorSizeBytes, sectors, o)
    {
      off := off0;
      k := off / fp.sectorSizeBytes;
      DivMod(off, fp.sectorSizeBytes);
      if k < |sectors| && sectors[k] != 0 {
        ghost var first := k;
        k := EndOfRun(k);
        StoredRun(first, k, off);
        off := k * fp.sectorSizeBytes;
      }
      end := (k + 1) * fp.sectorSizeBytes;
      UnstoredTail(k, off);
    }

    method EndOfRun(first: nat) returns (k: nat)
      requires first < |sectors| && sectors[first] != 0
      ensures first < k <= |sectors| && (forall i :: first <= i < k ==> sectors[i] != 0)
      ensures k < |sectors| ==> sectors[k] == 0
    {
      k := first + 1;
      while k < |sectors| && sectors[k] != 0
        invariant first < k <= |sectors| && forall i :: first <= i < k ==> sectors[i] != 0
      {
        k := k + 1;
      }
    }

    lemma {:induction false} UnstoredTail(k: nat, off: nat)
      requires fp.sectorSizeBytes > 0 && k * fp.sectorSizeBytes <= off && (k < |sectors| ==> sectors[k] == 0)
      ensures forall o: nat :: off <= o < (k + 1) * fp.sectorSizeBytes ==> !IsStored(fp.sectorSizeBytes, sectors, o)
    {
      forall o: nat | off <= o < (k + 1) * fp.sectorSizeBytes ensures !IsStored(fp.sectorSizeBytes, sectors, o) {
        NotStored(sectors, k, 1, fp.sectorSizeBytes, o);
      }
    }

    /** A run of sectors is data, up to the end of its last sector. */
    lemma {:induction false} StoredRun(first: nat, k: nat, off: nat)
      requires fp.sectorSizeBytes > 0 && first < k <= |sectors| && forall i :: first <= i < k ==> sectors[i] != 0
      requires first * fp.sectorSizeBytes <= off < (first + 1) * fp.sectorSizeBytes
      ensures off < k * fp.sectorSizeBytes
      ensures forall o: nat :: off <= o < k * fp.sectorSizeBytes ==> IsStored(fp.sectorSizeBytes, sectors, o)
    {
      MulLe(first + 1, k, fp.sectorSizeBytes);
      forall o: nat | off <= o < k * fp.sectorSizeBytes ensures IsStored(fp.sectorSizeBytes, sectors, o) {
        SectorOfOffset(o, first, k - first, fp.sectorSizeBytes);
      }
    }

    method Close()
      requires fp.Valid() && this in fp.files
      modifies this, fp, fp.allocator`bits, fp.allocator.freeBitmap
      ensures fp.Valid() && fp.files == old(fp.files) - {this}
    {
      ghost var lists := fp.Lists();
      fp.MayBeFreed(this, 0);
      fp.allocator.FreeList(sectors);
      fp.files := fp.files - {this};
      sectors := [];
      assert fp.Lists() == lists - {this};
      assert lists[this][0..] == lists[this];
      fp.GiveUpOwnership(this, lists, 0);
    }
  }
}
