/**
 Runs of file operations, with failures anywhere: any number of files that share one block device behave as independent
 plain byte sequences; and without faults, all operations succeed for as long as the files fit on the device.
 */
module FilePoolRuns {
  import opened Common
  import opened SectorMath
  import opened FileImage
  import opened BlockDeviceFilePool
  import opened BitmapSectorAllocator

  datatype Op =
    | NewFile(hole: HoleSource, size: nat)
    | ReadAt(id: nat, count: nat, off: int)
    | WriteAt(id: nat, p: seq<Byte>, off: int)
    | Truncate(id: nat, newSize: int)
    | Close(id: nat)

  /** What an operation returned: `n` is the number of bytes written, `bytes` what was read. */
  datatype Outcome = Outcome(status: Status, n: nat, bytes: seq<Byte>)

  /** A file whose device failed half-way holds bytes that the specification does not know. */
  datatype Entry = Open(contents: seq<Byte>) | Unknown(length: nat) | Closed {
    function Size(): nat { match this case Open(c) => |c| case Unknown(n) => n case Closed => 0 }
  }

  /** The specification: files are plain byte sequences, numbered in order of creation. */
  type Store = seq<Entry>

  /** What a pool is made of: what may fail, and how much space there is. */
  datatype Setup = Setup(deviceMayFail: bool, holeSourcesMayFail: bool, sectorSizeBytes: nat, sectorCount: nat)

  ghost function SetupOf(pool: FilePool): Setup {
    Setup(pool.device.mayFail, pool.holeSourcesMayFail, pool.sectorSizeBytes, pool.allocator.sectorCount)
  }

  /** Only open files are operated on. */
  predicate Applicable(store: Store, op: Op) {
    op.NewFile? || (op.id < |store| && !store[op.id].Closed?)
  }

  /** Up to `n` bytes of a plain byte sequence. */
  function Slice(c: seq<Byte>, off: nat, n: nat): seq<Byte> {
    if off >= |c| then [] else if off + n >= |c| then c[off..] else c[off..off + n]
  }

  // ----- Space -----

  /** How many sectors a file of a given size may take up. */
  ghost function Need(c: Setup, size: nat): nat {
    if c.sectorSizeBytes == 0 then 0 else SectorsFor(size, c.sectorSizeBytes)
  }

  ghost function Needs(c: Setup, store: Store): (r: seq<nat>)
    ensures |r| == |store| && forall i :: 0 <= i < |store| ==> r[i] == Need(c, store[i].Size())
  {
    seq(|store|, i requires 0 <= i < |store| => Need(c, store[i].Size()))
  }

  ghost function Sum(s: seq<nat>): nat { if s == [] then 0 else Sum(s[..|s| - 1]) + s[|s| - 1] }

  /** How many sectors all files may take up if `n` bytes are written to the given one at offset `off`. */
  ghost function NeededUpTo(c: Setup, store: Store, id: nat, off: nat, n: nat): nat
    requires id < |store|
  {
    Sum(Needs(c, store)[id := Need(c, Max(store[id].Size(), off + n))])
  }

  /** The files would not fit on the device if `n` bytes were written to the given one at offset `off`. */
  ghost predicate Overfull(c: Setup, store: Store, id: nat, off: nat, n: nat)
    requires id < |store|
  {
    NeededUpTo(c, store, id, off, n) > c.sectorCount
  }

  // ----- Outcomes -----

  /** The outcomes that the specification allows, given the operations that came before. Failures are reported only if
      something may fail, and running out of space only if the files would not fit. */
  ghost predicate Allowed(c: Setup, store: Store, op: Op, r: Outcome)
    requires Applicable(store, op)
  {
    && (r.status == DeviceFailure ==> c.deviceMayFail) && (r.status == HoleSourceFailure ==> c.holeSourcesMayFail)
    && match op {
         case NewFile(hole, size) => r.status == Ok
         case Close(id) => r.status == Ok
         case ReadAt(id, count, off) =>
           && (r.status == InvalidArgument <==> off < 0) && r.status != ResourceExhausted
           && (off >= 0 && store[id].Open? ==> ReadsFrom(store[id].contents, count, off, r))
         case WriteAt(id, p, off) =>
           Writes(p, off, r) && (r.status == ResourceExhausted ==> Overfull(c, store, id, off, |p|))
         case Truncate(id, size) =>
           && (r.status == InvalidArgument <==> size < 0)
           && (r.status == Ok || r.status == InvalidArgument || size < store[id].Size())
           && r.status != EndOfFile && r.status != ResourceExhausted
       }
  }

  /** What was read is a part of the contents; all that was asked for, or up to the end, unless there was a failure. */
  ghost predicate ReadsFrom(contents: seq<Byte>, count: nat, off: nat, r: Outcome) {
    && r.bytes <= Slice(contents, off, count)
    && (r.status == Ok || r.status == EndOfFile ==> r.bytes == Slice(contents, off, count))
    && (r.status == Ok ==> count == 0 || off + count < |contents|)
    && (r.status == EndOfFile ==> count > 0 && off + count >= |contents|)
  }

  /** What is known of a write, wherever it goes. */
  ghost predicate Writes(p: seq<Byte>, off: int, r: Outcome) {
    && (r.status == InvalidArgument <==> off < 0) && (r.status == ResourceExhausted ==> off >= 0)
    && r.status != EndOfFile
    && r.n <= |p| && (r.status == Ok ==> r.n == |p|) && (off >= 0 && p == [] ==> r.status == Ok)
  }

  /** A file after a write. */
  ghost function Written(e: Entry, p: seq<Byte>, off: int, r: Outcome): Entry
    requires !e.Closed? && r.n <= |p|
  {
    if off < 0 then e
    else if e.Unknown? || r.status == DeviceFailure then Unknown(EndAfter(e.Size(), off, r.n))
    else Open(Overlay(e.contents, off, p[..r.n]))
  }

  /** What an operation does to the specification.  Of a write that ran out of space the first `n` bytes count. */
  ghost function Apply(store: Store, op: Op, r: Outcome): Store
    requires Applicable(store, op) && (op.WriteAt? ==> r.n <= |op.p|)
  {
    match op
    case NewFile(hole, size) => store + [if ZeroPast(hole, size) then Open(HoleBytes(hole, 0, size)) else Unknown(size)]
    case ReadAt(id, count, off) => store
    case WriteAt(id, p, off) => store[id := Written(store[id], p, off, r)]
    case Truncate(id, size) =>
      if size < 0 then store
      else if r.status != Ok then store[id := Unknown(store[id].Size())]
      else store[id := if store[id].Unknown? then Unknown(size) else Open(Resize(store[id].contents, size))]
    case Close(id) => store[id := Closed]
  }

  /** The hole source is zero past the size of the file. */
  ghost predicate ZeroPast(hole: HoleSource, size: nat) { forall o :: size <= o < |hole| ==> HoleByte(hole, o) == 0 }

  /** All operations are on open files, and all outcomes are allowed. */
  ghost predicate AllAllowed(c: Setup, ops: seq<Op>, rs: seq<Outcome>)
    decreases |ops|, 0
  {
    && |rs| == |ops|
    && (ops != [] ==>
          var n := |ops| - 1;
          && AllAllowed(c, ops[..n], rs[..n])
          && Applicable(Run(c, ops[..n], rs[..n]), ops[n]) && Allowed(c, Run(c, ops[..n], rs[..n]), ops[n], rs[n]))
  }

  /** What the files hold after a run, starting from an empty pool. */
  ghost function Run(c: Setup, ops: seq<Op>, rs: seq<Outcome>): Store
    requires AllAllowed(c, ops, rs)
    decreases |ops|, 1
  {
    if ops == [] then []
    else
      var n := |ops| - 1;
      Apply(Run(c, ops[..n], rs[..n]), ops[n], rs[n])
  }

  /** The files, by number, that are open: operations use only those. */
  ghost predicate WellUsed(open: seq<bool>, ops: seq<Op>)
    decreases |ops|
  {
    ops != [] ==>
      && (ops[0].NewFile? || (ops[0].id < |open| && open[ops[0].id]))
      && WellUsed(OpenAfter(open, ops[0]), ops[1..])
  }

  ghost function OpenAfter(open: seq<bool>, op: Op): seq<bool>
    requires op.NewFile? || op.id < |open|
  {
    if op.NewFile? then open + [true] else if op.Close? then open[op.id := false] else open
  }

  ghost predicate Tracks(open: seq<bool>, store: Store) {
    |open| == |store| && forall i :: 0 <= i < |open| ==> (open[i] <==> !store[i].Closed?)
  }

  ghost function OpenFiles(table: seq<File>, store: Store): set<File>
    requires |table| == |store|
  {
    set i | 0 <= i < |table| && !store[i].Closed? :: table[i]
  }

  /** An open file holds what its entry says. */
  ghost predicate Holds(f: File, e: Entry)
    requires f.OnDevice()
    reads f, f.fp.device.data
  {
    f.sizeBytes == e.Size() && (e.Open? ==> f.ZeroTail() && f.Contents() == e.contents)
  }

  /** The files of a pool hold what the store says, but for the given one, and there are no other files. */
  ghost predicate AgreesBut(pool: FilePool, table: seq<File>, store: Store, id: nat)
    reads pool, pool.files, pool.allocator, pool.allocator.freeBitmap, pool.device.data
  {
    && pool.Valid() && |table| == |store|
    && (forall i, j :: 0 <= i < j < |table| ==> table[i] != table[j])
    && pool.files == OpenFiles(table, store)
    && (forall i :: 0 <= i < |table| && !store[i].Closed? && i != id ==>
          table[i] in pool.files && Holds(table[i], store[i]))
  }

  ghost predicate Agrees(pool: FilePool, table: seq<File>, store: Store)
    reads pool, pool.files, pool.allocator, pool.allocator.freeBitmap, pool.device.data
  {
    AgreesBut(pool, table, store, |store|)
  }

  /** The entry of the file that was left out is replaced. */
  lemma {:induction false} AgreesAgain(pool: FilePool, table: seq<File>, store: Store, id: nat, e: Entry)
    requires id < |store| && AgreesBut(pool, table, store, id) && !store[id].Closed? && !e.Closed?
    requires table[id] in pool.files && Holds(table[id], e)
    ensures Agrees(pool, table, store[id := e])
  {
    var store' := store[id := e];
    assert OpenFiles(table, store') == OpenFiles(table, store) by {
      assert forall i :: 0 <= i < |store| ==> (store'[i].Closed? <==> store[i].Closed?);
    }
  }

  // ----- Without faults -----

  /** Plain byte sequences, without anything that can go wrong. */
  ghost function Plain(ops: seq<Op>): Store {
    if ops == [] then []
    else
      var n := |ops| - 1;
      PlainApply(Plain(ops[..n]), ops[n])
  }

  ghost function PlainApply(store: Store, op: Op): Store {
    match op
    case NewFile(hole, size) => store + [Open(HoleBytes(hole, 0, size))]
    case ReadAt(id, count, off) => store
    case WriteAt(id, p, off) =>
      if off >= 0 && id < |store| && store[id].Open? then store[id := Open(Overlay(store[id].contents, off, p))]
      else store
    case Truncate(id, size) =>
      if size >= 0 && id < |store| && store[id].Open? then store[id := Open(Resize(store[id].contents, size))]
      else store
    case Close(id) => if id < |store| then store[id := Closed] else store
  }

  /** What an operation returns on plain byte sequences. */
  ghost predicate Expected(store: Store, op: Op, r: Outcome) {
    match op
    case ReadAt(id, count, off) =>
      if off < 0 then r.status == InvalidArgument
      else
        && id < |store| && store[id].Open? && r.bytes == Slice(store[id].contents, off, count)
        && r.status == if count == 0 || off + count < |store[id].contents| then Ok else EndOfFile
    case WriteAt(id, p, off) => if off < 0 then r.status == InvalidArgument else r.status == Ok && r.n == |p|
    case Truncate(id, size) => r.status == if size < 0 then InvalidArgument else Ok
    case _ => r.status == Ok
  }

  /** Nothing may fail, hole sources are zero past the sizes of the files, and the files fit on the device at all
      times. */
  ghost predicate FaultFree(c: Setup, ops: seq<Op>) {
    && !c.deviceMayFail && !c.holeSourcesMayFail
    && (forall k :: 0 <= k < |ops| && ops[k].NewFile? ==> ZeroPast(ops[k].hole, ops[k].size))
    && (forall k :: 0 <= k <= |ops| ==> Sum(Needs(c, Plain(ops[..k]))) <= c.sectorCount)
  }

  lemma {:induction false} StepExpected(c: Setup, store: Store, op: Op, r: Outcome)
    requires Applicable(store, op) && Allowed(c, store, op, r) && forall i :: 0 <= i < |store| ==> !store[i].Unknown?
    requires !c.deviceMayFail && !c.holeSourcesMayFail && (op.NewFile? ==> ZeroPast(op.hole, op.size))
    requires Sum(Needs(c, PlainApply(store, op))) <= c.sectorCount
    ensures Expected(store, op, r) && Apply(store, op, r) == PlainApply(store, op)
  {
    if op.WriteAt? && op.off >= 0 && op.p != [] {
      var need := Need(c, Max(store[op.id].Size(), op.off + |op.p|));
      assert Needs(c, PlainApply(store, op)) == Needs(c, store)[op.id := need];
    }
    if op.WriteAt? {
      assert op.p[..|op.p|] == op.p;
    }
  }

  lemma {:induction false} PlainIsKnown(ops: seq<Op>)
    ensures forall i :: 0 <= i < |Plain(ops)| ==> !Plain(ops)[i].Unknown?
    decreases |ops|
  {
    if ops != [] {
      PlainIsKnown(ops[..|ops| - 1]);
    }
  }

  ghost predicate AllExpected(ops: seq<Op>, rs: seq<Outcome>)
    requires |rs| == |ops|
  {
    forall k :: 0 <= k < |ops| ==> Expected(Plain(ops[..k]), ops[k], rs[k])
  }

  /** Without faults, every operation returns, and every file holds, what it does for plain byte sequences. */
  lemma {:induction false} NothingFails(c: Setup, ops: seq<Op>, rs: seq<Outcome>)
    requires AllAllowed(c, ops, rs) && FaultFree(c, ops)
    ensures Run(c, ops, rs) == Plain(ops) && AllExpected(ops, rs)
    decreases |ops|
  {
    if ops != [] {
      var n := |ops| - 1;
      FaultFreePrefix(c, ops, n);
      NothingFails(c, ops[..n], rs[..n]);
      PlainIsKnown(ops[..n]);
      assert ops[..n + 1] == ops;
      StepExpected(c, Plain(ops[..n]), ops[n], rs[n]);
      OneMoreExpected(ops, rs, n);
    }
  }

  lemma {:induction false} OneMoreExpected(ops: seq<Op>, rs: seq<Outcome>, n: nat)
    requires n + 1 == |ops| == |rs| && AllExpected(ops[..n], rs[..n]) && Expected(Plain(ops[..n]), ops[n], rs[n])
    ensures AllExpected(ops, rs)
  {
    forall k | 0 <= k < |ops| ensures Expected(Plain(ops[..k]), ops[k], rs[k]) {
      if k < n {
        assert ops[..n][..k] == ops[..k] && ops[..n][k] == ops[k] && rs[..n][k] == rs[k];
      }
    }
  }

  lemma {:induction false} FaultFreePrefix(c: Setup, ops: seq<Op>, n: nat)
    requires FaultFree(c, ops) && n <= |ops|
    ensures FaultFree(c, ops[..n])
  {
    forall k | 0 <= k <= n ensures Sum(Needs(c, Plain(ops[..n][..k]))) <= c.sectorCount {
      assert ops[..n][..k] == ops[..k];
    }
  }

  // ----- Running out of space -----

  lemma {:induction false} Subset<T>(a: set<T>, b: set<T>)
    requires a <= b
    ensures |a| <= |b|
  {
    assert b == a + (b - a);
  }

  lemma {:induction false} NonZeroSize(s: seq<nat>)
    ensures |NonZero(s)| <= |s|
  {
    if s != [] {
      var n := |s| - 1;
      NonZeroSize(s[..n]);
      forall x | x in NonZero(s) ensures x in NonZero(s[..n]) + {s[n]} {
        var i :| 0 <= i < |s| && s[i] != 0 && s[i] == x;
        if i < n { assert s[..n][i] == x; }
      }
      Subset(NonZero(s), NonZero(s[..n]) + {s[n]});
    }
  }

  lemma {:induction false} HoleLeavesLess(s: seq<nat>, k: nat)
    requires k < |s| && s[k] == 0
    ensures |NonZero(s)| < |s|
  {
    var r := s[..k] + s[k + 1..];
    NonZeroSize(r);
    forall x | x in NonZero(s) ensures x in NonZero(r) {
      var i :| 0 <= i < |s| && s[i] != 0 && s[i] == x;
      assert r[if i < k then i else i - 1] == x;
    }
    Subset(NonZero(s), NonZero(r));
  }

  /** A file takes up no more sectors than its size needs. */
  lemma {:induction false} FileFits(s: seq<nat>, size: nat, length: nat, n: nat)
    requires size > 0 && length <= n && (s != [] ==> (|s| - 1) * size < length)
    ensures |NonZero(s)| <= |s| <= SectorsFor(n, size)
  {
    NonZeroSize(s);
    if |s| > SectorsFor(n, size) { MulLe(SectorsFor(n, size), |s| - 1, size); }
  }

  lemma {:induction false} FileWithHoleFits(s: seq<nat>, size: nat, length: nat, n: nat, k: nat)
    requires size > 0 && length <= n && (s != [] ==> (|s| - 1) * size < length)
    requires k * size < n && (k >= |s| || s[k] == 0)
    ensures |NonZero(s)| < SectorsFor(n, size)
  {
    FileFits(s, size, length, n);
    if k < |s| {
      HoleLeavesLess(s, k);
    } else if k >= SectorsFor(n, size) {
      MulLe(SectorsFor(n, size), k, size);
    }
  }

  /** The sectors that the first `n` files own. */
  ghost function OwnedBy(owner: map<nat, (File, nat)>, table: seq<File>, n: nat): set<nat>
    requires n <= |table|
  {
    set x | x in owner && owner[x].0 in table[..n]
  }

  lemma {:induction false} OwnedBound(
    owner: map<nat, (File, nat)>, lists: map<File, seq<nat>>, table: seq<File>, bounds: seq<nat>, n: nat)
    requires Inverse(owner, lists) && n <= |table| == |bounds|
    requires forall i :: 0 <= i < |table| && table[i] in lists ==> |NonZero(lists[table[i]])| <= bounds[i]
    ensures |OwnedBy(owner, table, n)| <= Sum(bounds[..n])
  {
    if n == 0 {
      assert OwnedBy(owner, table, 0) == {};
    } else {
      var f := table[n - 1];
      OwnedBound(owner, lists, table, bounds, n - 1);
      assert bounds[..n][..n - 1] == bounds[..n - 1] && table[..n] == table[..n - 1] + [f];
      var own := if f in lists then NonZero(lists[f]) else {};
      forall x | x in OwnedBy(owner, table, n) ensures x in OwnedBy(owner, table, n - 1) + own {
        if owner[x].0 == f { assert lists[f][owner[x].1] == x; }
      }
      Subset(OwnedBy(owner, table, n), OwnedBy(owner, table, n - 1) + own);
    }
  }

  lemma {:induction false} AllSectors(n: nat)
    ensures |Sectors(1, n)| == n
  {
    if n > 0 {
      AllSectors(n - 1);
      assert Sectors(1, n) == Sectors(1, n - 1) + {n};
    }
  }

  lemma {:induction false} SumLess(s: seq<nat>, i: nat)
    requires i < |s| && s[i] > 0
    ensures Sum(s[i := s[i] - 1]) == Sum(s) - 1
  {
    var n := |s| - 1;
    if i < n {
      SumLess(s[..n], i);
      assert s[i := s[i] - 1][..n] == s[..n][i := s[i] - 1];
    } else {
      assert s[i := s[i] - 1][..n] == s[..n];
    }
  }

  /** If every file owns no more sectors than its bound, and one of them fewer, the bounds exceed what there is. */
  lemma {:induction false} BoundsExceed(
    owner: map<nat, (File, nat)>, lists: map<File, seq<nat>>, table: seq<File>, bounds: seq<nat>, id: nat, count: nat)
    requires Inverse(owner, lists) && id < |table| == |bounds| && owner.Keys == Sectors(1, count)
    requires forall f :: f in lists ==> f in table
    requires forall i :: 0 <= i < |table| && table[i] in lists && i != id ==> |NonZero(lists[table[i]])| <= bounds[i]
    requires table[id] in lists && |NonZero(lists[table[id]])| < bounds[id]
    ensures Sum(bounds) > count
  {
    var less := bounds[id := bounds[id] - 1];
    OwnedBound(owner, lists, table, less, |table|);
    SumLess(bounds, id);
    AllSectors(count);
    assert less[..|table|] == less;
    OwnedByAll(owner, lists, table);
  }

  lemma {:induction false} OwnedByAll(owner: map<nat, (File, nat)>, lists: map<File, seq<nat>>, table: seq<File>)
    requires Inverse(owner, lists) && forall f :: f in lists ==> f in table
    ensures OwnedBy(owner, table, |table|) == owner.Keys
  {
    assert table[..|table|] == table;
  }

  /** A file that has a hole where it is to be written to does not fit on a device without free sectors. */
  lemma {:induction false} OutOfSpace(pool: FilePool, table: seq<File>, store: Store, id: nat, off: nat, n: nat)
    requires id < |store| && AgreesBut(pool, table, store, id) && pool.IsFull() && !store[id].Closed?
    requires table[id] in pool.files && table[id].HoleBefore(off + n)
    requires table[id].sizeBytes <= Max(store[id].Size(), off + n)
    ensures Overfull(SetupOf(pool), store, id, off, n)
  {
    var c := SetupOf(pool);
    var bounds := Needs(c, store)[id := Need(c, Max(store[id].Size(), off + n))];
    HoleFits(table[id], Max(store[id].Size(), off + n), off + n);
    forall i | 0 <= i < |table| && table[i] in pool.files && i != id ensures |NonZero(table[i].sectors)| <= bounds[i] {
      OpenInTable(pool.files, table, store, i);
      FileFits(table[i].sectors, pool.sectorSizeBytes, table[i].sizeBytes, store[i].Size());
    }
    BoundsExceed(pool.owner, pool.Lists(), table, bounds, id, pool.allocator.sectorCount);
  }

  lemma {:induction false} HoleFits(f: File, n: nat, end: nat)
    requires f.fp.sectorSizeBytes > 0 && f.Shape() && f.sizeBytes <= n && end <= n && f.HoleBefore(end)
    ensures |NonZero(f.sectors)| < SectorsFor(n, f.fp.sectorSizeBytes)
  {
    var k: nat :| f.IsHole(k) && k * f.fp.sectorSizeBytes < end;
    FileWithHoleFits(f.sectors, f.fp.sectorSizeBytes, f.sizeBytes, n, k);
  }

  lemma {:induction false} OpenInTable(files: set<File>, table: seq<File>, store: Store, i: nat)
    requires |table| == |store| && files == OpenFiles(table, store) && i < |table| && table[i] in files
    requires forall i, j :: 0 <= i < j < |table| ==> table[i] != table[j]
    ensures !store[i].Closed?
  {
    var j :| 0 <= j < |table| && !store[j].Closed? && table[j] == table[i];
  }

  // ----- Steps -----

  /** One operation on one file has no effect on the others. */
  lemma {:induction false} OthersUnaffected(pool: FilePool, f: File, d0: seq<Byte>)
    requires pool.Valid() && pool.OthersKept(f, d0)
    ensures forall g :: g in pool.files && g != f ==>
      && OnDevice(|d0|, pool.sectorSizeBytes, g.sectors)
      && g.Contents() == Image(d0, pool.sectorSizeBytes, g.sectors, g.holeSource, g.sizeBytes)
      && (ZeroFrom(d0, pool.sectorSizeBytes, g.sectors, g.holeSource, g.sizeBytes) ==> g.ZeroTail())
  {
    forall g | g in pool.files && g != f
      ensures OnDevice(|d0|, pool.sectorSizeBytes, g.sectors)
      ensures g.Contents() == Image(d0, pool.sectorSizeBytes, g.sectors, g.holeSource, g.sizeBytes)
      ensures ZeroFrom(d0, pool.sectorSizeBytes, g.sectors, g.holeSource, g.sizeBytes) ==> g.ZeroTail()
    {
      assert SameBytes(d0, pool.Device(), pool.sectorSizeBytes, g.sectors, g.holeSource);
    }
  }

  method StepNewFile(pool: FilePool, table: seq<File>, ghost store: Store, hole: HoleSource, size: nat)
    returns (table': seq<File>, r: Outcome)
    requires Agrees(pool, table, store)
    modifies pool
    ensures Allowed(SetupOf(pool), store, NewFile(hole, size), r)
    ensures Agrees(pool, table', Apply(store, NewFile(hole, size), r))
    ensures fresh(pool.files - old(pool.files))
  {
    var f := pool.NewFile(hole, size);
    table', r := table + [f], Outcome(Ok, 0, []);
    OpenFilesAppend(table, store, f, Apply(store, NewFile(hole, size), r)[|store|]);
    if ZeroPast(hole, size) {
      assert forall o: nat :: o >= size ==> HoleByte(hole, o) == 0;
    }
  }

  lemma {:induction false} OpenFilesAppend(table: seq<File>, store: Store, f: File, e: Entry)
    requires |table| == |store| && !e.Closed?
    ensures OpenFiles(table + [f], store + [e]) == OpenFiles(table, store) + {f}
  {
    var table', store' := table + [f], store + [e];
    forall g | g in OpenFiles(table, store) ensures g in OpenFiles(table', store') {
      var i :| 0 <= i < |table| && !store[i].Closed? && table[i] == g;
      assert table'[i] == g && !store'[i].Closed?;
    }
    assert table'[|table|] == f;
  }

  method StepReadAt(pool: FilePool, table: seq<File>, ghost store: Store, id: nat, count: nat, off: int)
    returns (r: Outcome)
    requires Agrees(pool, table, store) && Applicable(store, ReadAt(id, count, off))
    ensures Allowed(SetupOf(pool), store, ReadAt(id, count, off), r)
  {
    var bytes, status := table[id].ReadAt(count, off);
    r := Outcome(status, 0, bytes);
    if off >= 0 && store[id].Open? {
      ReadIsSlice(table[id].Contents(), off, count, bytes);
    }
  }

  lemma {:induction false} ReadIsSlice(c: seq<Byte>, off: nat, count: nat, bytes: seq<Byte>)
    requires |bytes| <= count && (bytes != [] ==> off + |bytes| <= |c| && bytes == c[off..off + |bytes|])
    ensures bytes <= Slice(c, off, count) && (|bytes| == |Slice(c, off, count)| ==> bytes == Slice(c, off, count))
  {
  }

  /** The part of a write that is about the files, rather than the specification. */
  method WriteOne(pool: FilePool, table: seq<File>, ghost store: Store, id: nat, p: seq<Byte>, off: int)
    returns (r: Outcome)
    requires Agrees(pool, table, store) && id < |store| && !store[id].Closed?
    modifies pool, table[id], pool.allocator, pool.allocator.freeBitmap, pool.device.data
    ensures pool.files == old(pool.files) && AgreesBut(pool, table, store, id) && Writes(p, off, r)
    ensures table[id] in pool.files && Holds(table[id], Written(store[id], p, off, r))
    ensures r.status == DeviceFailure ==> pool.device.mayFail
    ensures r.status == HoleSourceFailure ==> pool.holeSourcesMayFail
    ensures r.status == ResourceExhausted ==> pool.IsFull() && table[id].HoleBefore(off + |p|)
    ensures off >= 0 ==> table[id].sizeBytes <= Max(store[id].Size(), off + |p|)
  {
    ghost var d0 := pool.Device();
    var n, status;
    ghost var written;
    n, status, written := table[id].WriteAt(p, off);
    r := Outcome(status, n, []);
    OthersUnaffected(pool, table[id], d0);
  }

  method StepWriteAt(pool: FilePool, table: seq<File>, ghost store: Store, id: nat, p: seq<Byte>, off: int)
    returns (r: Outcome)
    requires Agrees(pool, table, store) && Applicable(store, WriteAt(id, p, off))
    modifies pool, table[id], pool.allocator, pool.allocator.freeBitmap, pool.device.data
    ensures pool.files == old(pool.files)
    ensures Allowed(SetupOf(pool), store, WriteAt(id, p, off), r)
    ensures Agrees(pool, table, Apply(store, WriteAt(id, p, off), r))
  {
    r := WriteOne(pool, table, store, id, p, off);
    if r.status == ResourceExhausted {
      OutOfSpace(pool, table, store, id, off, |p|);
    }
    AgreesAgain(pool, table, store, id, Written(store[id], p, off, r));
  }

  method StepTruncate(pool: FilePool, table: seq<File>, ghost store: Store, id: nat, size: int) returns (r: Outcome)
    requires Agrees(pool, table, store) && Applicable(store, Truncate(id, size))
    modifies pool, table[id], pool.allocator, pool.allocator.freeBitmap, pool.device.data
    ensures pool.files == old(pool.files)
    ensures Allowed(SetupOf(pool), store, Truncate(id, size), r)
    ensures Agrees(pool, table, Apply(store, Truncate(id, size), r))
  {
    ghost var d0 := pool.Device();
    var status := table[id].Truncate(size);
    r := Outcome(status, 0, []);
    OthersUnaffected(pool, table[id], d0);
    assert AgreesBut(pool, table, store, id);
    AgreesAgain(pool, table, store, id, Apply(store, Truncate(id, size), r)[id]);
  }

  method StepClose(pool: FilePool, table: seq<File>, ghost store: Store, id: nat) returns (r: Outcome)
    requires Agrees(pool, table, store) && Applicable(store, Close(id))
    modifies pool, table[id], pool.allocator, pool.allocator.freeBitmap
    ensures Allowed(SetupOf(pool), store, Close(id), r) && Agrees(pool, table, Apply(store, Close(id), r))
    ensures pool.files <= old(pool.files)
  {
    table[id].Close();
    r := Outcome(Ok, 0, []);
  }

  /** A step has an outcome that the specification allows, and its effect is the specified one. */
  method Step(pool: FilePool, table: seq<File>, ghost store: Store, op: Op) returns (table': seq<File>, r: Outcome)
    requires Agrees(pool, table, store) && Applicable(store, op)
    modifies pool, pool.files, pool.allocator, pool.allocator.freeBitmap, pool.device.data
    ensures Allowed(SetupOf(pool), store, op, r) && Agrees(pool, table', Apply(store, op, r))
    ensures fresh(pool.files - old(pool.files))
  {
    table' := table;
    match op {
      case NewFile(hole, size) => table', r := StepNewFile(pool, table, store, hole, size);
      case ReadAt(id, count, off) => r := StepReadAt(pool, table, store, id, count, off);
      case WriteAt(id, p, off) => r := StepWriteAt(pool, table, store, id, p, off);
      case Truncate(id, size) => r := StepTruncate(pool, table, store, id, size);
      case Close(id) => r := StepClose(pool, table, store, id);
    }
  }

  lemma {:induction false} NextUsed(open: seq<bool>, ops: seq<Op>, done: nat, store: Store)
    requires done < |ops| && WellUsed(open, ops[done..]) && Tracks(open, store)
    ensures Applicable(store, ops[done])
  {
  }

  lemma {:induction false} StillTracks(
    c: Setup, open: seq<bool>, ops: seq<Op>, done: nat, store: Store, r: Outcome)
    requires done < |ops| && WellUsed(open, ops[done..]) && Tracks(open, store)
    requires Applicable(store, ops[done]) && Allowed(c, store, ops[done], r)
    ensures Tracks(OpenAfter(open, ops[done]), Apply(store, ops[done], r))
    ensures WellUsed(OpenAfter(open, ops[done]), ops[done + 1..])
  {
    assert ops[done..][1..] == ops[done + 1..];
  }

  lemma {:induction false} RunExtended(c: Setup, ops: seq<Op>, done: nat, rs: seq<Outcome>, r: Outcome)
    requires done < |ops| && AllAllowed(c, ops[..done], rs)
    requires Applicable(Run(c, ops[..done], rs), ops[done]) && Allowed(c, Run(c, ops[..done], rs), ops[done], r)
    ensures AllAllowed(c, ops[..done + 1], rs + [r])
    ensures Run(c, ops[..done + 1], rs + [r]) == Apply(Run(c, ops[..done], rs), ops[done], r)
  {
    assert ops[..done + 1][..done] == ops[..done] && (rs + [r])[..done] == rs;
  }

  /** A run that has come to operation `done`. */
  ghost predicate Going(c: Setup, ops: seq<Op>, done: nat, rs: seq<Outcome>, open: seq<bool>, store: Store) {
    && done <= |ops| && AllAllowed(c, ops[..done], rs) && store == Run(c, ops[..done], rs)
    && WellUsed(open, ops[done..]) && Tracks(open, store)
  }

  lemma {:induction false} GoesOn(
    c: Setup, ops: seq<Op>, done: nat, rs: seq<Outcome>, open: seq<bool>, store: Store, r: Outcome)
    requires Going(c, ops, done, rs, open, store) && done < |ops|
    requires Applicable(store, ops[done]) && Allowed(c, store, ops[done], r)
    ensures ops[done].NewFile? || ops[done].id < |open|
    ensures Going(c, ops, done + 1, rs + [r], OpenAfter(open, ops[done]), Apply(store, ops[done], r))
  {
    RunExtended(c, ops, done, rs, r);
    StillTracks(c, open, ops, done, store, r);
  }

  method RunAll(pool: FilePool, ops: seq<Op>) returns (table: seq<File>, rs: seq<Outcome>)
    requires pool.Valid() && pool.files == {} && WellUsed([], ops)
    modifies pool, pool.allocator, pool.allocator.freeBitmap, pool.device.data
    ensures AllAllowed(SetupOf(pool), ops, rs) && Agrees(pool, table, Run(SetupOf(pool), ops, rs))
  {
    table, rs := [], [];
    ghost var open: seq<bool>, store: Store := [], [];
    ghost var c := SetupOf(pool);
    var done := 0;
    while done < |ops|
      invariant Going(c, ops, done, rs, open, store) && Agrees(pool, table, store) && fresh(pool.files)
    {
      NextUsed(open, ops, done, store);
      var r;
      table, r := Step(pool, table, store, ops[done]);
      GoesOn(c, ops, done, rs, open, store, r);
      store, open := Apply(store, ops[done], r), OpenAfter(open, ops[done]);
      rs, done := rs + [r], done + 1;
    }
    assert ops[..done] == ops;
  }

  /** Over every run, whatever fails in it, all reads and the final contents are those of plain byte sequences. If
      nothing may fail, all operations succeed for as long as the files fit on the device. And if the run leaves no file
      open, every sector is free again. */
  method Drive(pool: FilePool, ops: seq<Op>) returns (table: seq<File>, rs: seq<Outcome>)
    requires pool.Valid() && pool.files == {} && WellUsed([], ops)
    modifies pool, pool.allocator, pool.allocator.freeBitmap, pool.device.data
    ensures AllAllowed(SetupOf(pool), ops, rs) && Agrees(pool, table, Run(SetupOf(pool), ops, rs))
    ensures FaultFree(SetupOf(pool), ops) ==> Agrees(pool, table, Plain(ops)) && AllExpected(ops, rs)
    ensures pool.files == {} ==> pool.allocator.FreeSectors() == Sectors(1, pool.allocator.sectorCount)
  {
    table, rs := RunAll(pool, ops);
    if FaultFree(SetupOf(pool), ops) { NothingFails(SetupOf(pool), ops, rs); }
    if pool.files == {} { pool.AllClosedFreesAll(); }
  }
}
