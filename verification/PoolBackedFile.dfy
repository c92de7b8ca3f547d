/**
 pkg/filesystem/virtual/pool_backed_file_allocator.go: files that are written to, linked, and frozen
 while they are uploaded. Every method is what happens while the lock of the file is held once.
 */
module PoolBackedFile {
  import opened Common
  import opened FileImage

  type Digest = nat

  datatype Status = Ok | ErrStale | ErrIO

  /** ShareMask: whether a descriptor is opened for reading, writing, or both; each counts as a reference. */
  datatype Share = Share(read: bool, write: bool) {
    function Count(): nat { (if read then 1 else 0) + if write then 1 else 0 }
  }

  /** What the backing file may make of a write: all of it is written, or some bytes are reported as written, and others
      in the range may have been changed. */
  predicate MayWrite(before: seq<Byte>, buf: seq<Byte>, off: nat, after: seq<Byte>, n: nat, failed: bool) {
    && n <= |buf| && |after| == (if n == 0 then |before| else Max(|before|, off + n))
    && (!failed ==> n == |buf| && after == Overlay(before, off, buf))
    && (forall i :: 0 <= i < |before| && !(off <= i < off + |buf|) ==> after[i] == before[i])
  }

  /** What it may make of a truncation: if that fails, the size is the same, but bytes that were to go may be lost. */
  predicate MayTruncate(before: seq<Byte>, size: nat, after: seq<Byte>, failed: bool) {
    if failed then |after| == |before| && forall i :: 0 <= i < |before| && i < size ==> after[i] == before[i]
    else after == Resize(before, size)
  }

  /** A cached digest, if there is one, is that of the contents. */
  ghost predicate IsDigest(digest: seq<Byte> -> Digest, cached: Option<Digest>, contents: seq<Byte>) {
    cached.Some? ==> cached.value == digest(contents)
  }

  class File {
    const digest: seq<Byte> -> Digest
    var contents: seq<Byte>                  // what the backing file holds
    var closes: nat                          // how often the backing file was closed
    var size: nat
    var referenceCount: nat
    var writableDescriptorsCount: nat
    var frozenDescriptorsCount: nat
    var cachedDigest: Option<Digest>
    var changeID: nat
    ghost var links: nat                     // directory entries
    ghost var shares: nat                    // references held by descriptors
    ghost var writers: nat                   // descriptors opened for writing

    /** References are counted exactly, and the backing file is closed once, when the last one is gone. */
    ghost predicate Valid()
      reads this
    {
      && referenceCount == links + shares + frozenDescriptorsCount && writableDescriptorsCount == writers <= shares
      && closes == (if referenceCount == 0 then 1 else 0) && size == |contents|
    }

    /** The cached digest is that of the contents. */
    ghost predicate DigestOk()
      reads this
    {
      IsDigest(digest, cachedDigest, contents)
    }

    /** NewFile() */
    constructor (digest: seq<Byte> -> Digest, contents: seq<Byte>, share: Share)
      ensures Valid() && DigestOk() && this.digest == digest && this.contents == contents && frozenDescriptorsCount == 0
      ensures links == 1 && shares == share.Count() && writers == (if share.write then 1 else 0)
    {
      this.digest, this.contents, closes, size, cachedDigest, changeID := digest, contents, 0, |contents|, None, 0;
      referenceCount, frozenDescriptorsCount := 1 + share.Count(), 0;
      writableDescriptorsCount := if share.write then 1 else 0;
      links, shares, writers := 1, share.Count(), if share.write then 1 else 0;
    }

    /** releaseReferencesLocked(), for references that the caller has accounted for. */
    method Release(count: nat)
      requires referenceCount == links + shares + frozenDescriptorsCount + count
      requires writableDescriptorsCount == writers <= shares
      requires closes == (if referenceCount == 0 then 1 else 0) && size == |contents|
      requires count > 0
      modifies `referenceCount, `closes
      ensures Valid() && referenceCount == old(referenceCount) - count
    {
      // The "Invalid reference count" panic.
      assert referenceCount >= count;
      referenceCount := referenceCount - count;
      if referenceCount == 0 { closes := closes + 1; }
    }

    method Link() returns (s: Status)
      requires Valid()
      modifies `referenceCount, `links
      ensures Valid() && s == (if old(referenceCount) == 0 then ErrStale else Ok)
      ensures links == old(links) + if s.Ok? then 1 else 0
    {
      if referenceCount == 0 { return ErrStale; }
      referenceCount, links := referenceCount + 1, links + 1;
      s := Ok;
    }

    method Unlink()
      requires Valid() && links > 0
      modifies `referenceCount, `links, `closes
      ensures Valid() && links == old(links) - 1
    {
      links := links - 1;
      Release(1);
    }

    /** VirtualOpenSelf() without truncation. */
    method Open(share: Share) returns (s: Status)
      requires Valid()
      modifies `referenceCount, `writableDescriptorsCount, `shares, `writers
      ensures Valid() && s == if old(referenceCount) == 0 then ErrStale else Ok
      ensures s.Ok? ==> shares == old(shares) + share.Count() && writers == old(writers) + if share.write then 1 else 0
      ensures !s.Ok? ==> shares == old(shares) && writers == old(writers)
    {
      if referenceCount == 0 { return ErrStale; }
      AcquireShareAccess(share);
      s := Ok;
    }

    method AcquireShareAccess(share: Share)
      requires Valid() && referenceCount > 0
      modifies `referenceCount, `writableDescriptorsCount, `shares, `writers
      ensures Valid() && shares == old(shares) + share.Count() && writers == old(writers) + if share.write then 1 else 0
      ensures referenceCount == old(referenceCount) + share.Count()
    {
      referenceCount, shares := referenceCount + share.Count(), shares + share.Count();
      if share.write { writableDescriptorsCount, writers := writableDescriptorsCount + 1, writers + 1; }
    }

    /** VirtualOpenSelf() with truncation, once it no longer has to wait for the file to be unfrozen. */
    method OpenTruncate(share: Share, after: seq<Byte>, failed: bool) returns (s: Status)
      requires Valid() && frozenDescriptorsCount == 0 && MayTruncate(contents, 0, after, failed)
      modifies this
      ensures Valid() && frozenDescriptorsCount == 0 && links == old(links)
      ensures s == if old(referenceCount) == 0 then ErrStale else if failed then ErrIO else Ok
      ensures shares == old(shares) + if s.Ok? then share.Count() else 0
      ensures writers == old(writers) + if s.Ok? && share.write then 1 else 0
      ensures contents == if s.ErrStale? then old(contents) else after
      ensures cachedDigest == if s.Ok? then None else old(cachedDigest)
    {
      if referenceCount == 0 { return ErrStale; }
      s := Truncate(0, after, failed);
      if s.Ok? { AcquireShareAccess(share); }
    }

    /** VirtualClose() */
    method Close(share: Share)
      requires Valid() && share.Count() > 0 && shares >= share.Count() && (share.write ==> writers > 0)
      requires writers - (if share.write then 1 else 0) <= shares - share.Count()
      modifies `referenceCount, `writableDescriptorsCount, `shares, `writers, `closes
      ensures Valid() && shares == old(shares) - share.Count() && writers == old(writers) - if share.write then 1 else 0
    {
      if share.write {
        // The "Invalid writable descriptor count" panic.
        assert writableDescriptorsCount > 0;
        writableDescriptorsCount, writers := writableDescriptorsCount - 1, writers - 1;
      }
      shares := shares - share.Count();
      Release(share.Count());
    }

    /** VirtualWrite(), once it no longer has to wait for the file to be unfrozen. The cached digest is right
        afterwards, unless there is one, and the backing file was changed without having written anything as far as it
        says. */
    method Write(buf: seq<Byte>, off: nat, after: seq<Byte>, n: nat, failed: bool) returns (s: Status)
      requires Valid() && referenceCount > 0 && frozenDescriptorsCount == 0
      requires MayWrite(contents, buf, off, after, n, failed)
      modifies `contents, `size, `cachedDigest, `changeID
      ensures Valid() && contents == after && s == if failed then ErrIO else Ok
      ensures cachedDigest == if n > 0 then None else old(cachedDigest)
      ensures old(DigestOk()) ==>
        (DigestOk() <==> n > 0 || old(cachedDigest).None? || digest(after) == digest(old(contents)))
      ensures changeID == old(changeID) + if n > 0 then 1 else 0
    {
      contents := after;
      if n > 0 {
        cachedDigest := None;
        if size < off + n { size := off + n; }
        changeID := changeID + 1;
      }
      s := if failed then ErrIO else Ok;
    }

    /** virtualTruncate(), which VirtualSetAttributes() and VirtualAllocate() call as well. The cached digest is right
        afterwards, unless there is one, and the backing file was changed even though it failed. */
    method Truncate(newSize: nat, after: seq<Byte>, failed: bool) returns (s: Status)
      requires Valid() && referenceCount > 0 && frozenDescriptorsCount == 0
      requires MayTruncate(contents, newSize, after, failed)
      modifies `contents, `size, `cachedDigest, `changeID
      ensures Valid() && contents == after && s == if failed then ErrIO else Ok
      ensures cachedDigest == if failed then old(cachedDigest) else None
      ensures old(DigestOk()) ==>
        (DigestOk() <==> !failed || old(cachedDigest).None? || digest(after) == digest(old(contents)))
      ensures changeID == old(changeID) + if failed then 0 else 1
    {
      contents := after;
      if failed { return ErrIO; }
      cachedDigest := None;
      size := newSize;
      changeID := changeID + 1;
      s := Ok;
    }

    /** openReadFrozen() */
    method OpenReadFrozen() returns (ok: bool)
      requires Valid()
      modifies `referenceCount, `frozenDescriptorsCount
      ensures Valid() && ok == (old(referenceCount) > 0)
      ensures frozenDescriptorsCount == old(frozenDescriptorsCount) + if ok then 1 else 0
    {
      if referenceCount == 0 { return false; }
      referenceCount, frozenDescriptorsCount := referenceCount + 1, frozenDescriptorsCount + 1;
      ok := true;
    }

    /** frozenFileBackedFile.Close() */
    method CloseFrozen()
      requires Valid() && frozenDescriptorsCount > 0
      modifies `referenceCount, `frozenDescriptorsCount, `closes
      ensures Valid() && frozenDescriptorsCount == old(frozenDescriptorsCount) - 1
    {
      frozenDescriptorsCount := frozenDescriptorsCount - 1;
      Release(1);
    }

    /** The last part of updateCachedDigest(). */
    method StoreDigest(d: Digest)
      requires Valid()
      modifies `cachedDigest
      ensures Valid() && cachedDigest == Some(d)
    {
      cachedDigest := Some(d);
    }
  }

  // ----- Runs -----

  /** An upload: what the file held when it was frozen, and the digest that was computed, if any. */
  datatype Upload = Upload(frozen: seq<Byte>, computed: Option<Digest>)

  /** Those who use the file: directory entries, open descriptors and uploads. */
  datatype Users = Users(links: nat, descriptors: seq<Share>, uploads: map<nat, Upload>)

  datatype Event =
    | Link
    | Unlink
    | Open(share: Share)
    | OpenTruncate(share: Share, after: seq<Byte>, failed: bool)
    | Close(descriptor: nat)
    | Write(buf: seq<Byte>, off: nat, after: seq<Byte>, n: nat, failed: bool)
    | Truncate(size: nat, after: seq<Byte>, failed: bool)
    | Freeze(upload: nat)
    | Compute(upload: nat)
    | Store(upload: nat)
    | Unfreeze(upload: nat)

  ghost function Shares(ds: seq<Share>): nat { if ds == [] then 0 else ds[0].Count() + Shares(ds[1..]) }

  ghost function Writers(ds: seq<Share>): nat {
    if ds == [] then 0 else (if ds[0].write then 1 else 0) + Writers(ds[1..])
  }

  lemma {:induction false} Added(ds: seq<Share>, x: Share)
    ensures Shares(ds + [x]) == Shares(ds) + x.Count() && Writers(ds + [x]) == Writers(ds) + (if x.write then 1 else 0)
  {
    if ds == [] {
      assert ds + [x] == [x] && [x][1..] == [];
    } else {
      assert (ds + [x])[1..] == ds[1..] + [x];
      Added(ds[1..], x);
    }
  }

  lemma {:induction false} Removed(ds: seq<Share>, k: nat)
    requires k < |ds|
    ensures Shares(ds) == Shares(ds[..k] + ds[k + 1..]) + ds[k].Count()
    ensures Writers(ds) == Writers(ds[..k] + ds[k + 1..]) + if ds[k].write then 1 else 0
    ensures Writers(ds[..k] + ds[k + 1..]) <= Shares(ds[..k] + ds[k + 1..])
  {
    WritersShare(ds[..k] + ds[k + 1..]);
    if k == 0 {
      assert ds[..0] + ds[1..] == ds[1..];
    } else {
      Removed(ds[1..], k - 1);
      assert (ds[..k] + ds[k + 1..])[1..] == ds[1..][..k - 1] + ds[1..][k..];
      assert (ds[..k] + ds[k + 1..])[0] == ds[0];
    }
  }

  lemma {:induction false} WritersShare(ds: seq<Share>)
    ensures Writers(ds) <= Shares(ds)
  {
    if ds != [] { WritersShare(ds[1..]); }
  }

  /** References are those of the users; and whatever has been frozen still holds what it held then. */
  ghost predicate InUse(f: File, u: Users)
    reads f
  {
    && f.Valid() && f.links == u.links && f.shares == Shares(u.descriptors) && f.writers == Writers(u.descriptors)
    && |u.uploads| == f.frozenDescriptorsCount
    && (forall k :: 0 <= k < |u.descriptors| ==> u.descriptors[k].Count() > 0)
    && forall i :: i in u.uploads ==>
         u.uploads[i].frozen == f.contents && (u.uploads[i].computed.Some? ==>
           u.uploads[i].computed.value == f.digest(f.contents))
  }

  /** A call that reports to have had no effect has none. */
  predicate Honest(e: Event, contents: seq<Byte>) {
    match e
    case Write(_, _, after, n, _) => n == 0 ==> after == contents
    case Truncate(_, after, failed) => failed ==> after == contents
    case OpenTruncate(_, after, failed) => failed ==> after == contents
    case _ => true
  }

  /** What the backing file does is possible. */
  predicate Possible(e: Event, contents: seq<Byte>) {
    match e
    case Write(buf, off, after, n, failed) => MayWrite(contents, buf, off, after, n, failed)
    case Truncate(size, after, failed) => MayTruncate(contents, size, after, failed)
    case OpenTruncate(_, after, failed) => MayTruncate(contents, 0, after, failed)
    case _ => true
  }

  /** The file without its counters: who uses it, what it holds, and the digest that is cached. */
  datatype Plain = Plain(users: Users, contents: seq<Byte>, cached: Option<Digest>) {
    predicate Alive() { users.links > 0 || users.descriptors != [] || Frozen() }
    predicate Frozen() { users.uploads != map[] }
    predicate Writable() { Alive() && !Frozen() }
  }

  /** What a step means to those who use the file. It can be used as long as anyone does, and changed as long as it is
      not frozen. */
  ghost function Next(p: Plain, e: Event, digest: seq<Byte> -> Digest): Plain {
    var u := p.users;
    match e
    case Link => if p.Alive() then p.(users := u.(links := u.links + 1)) else p
    case Unlink => if u.links > 0 then p.(users := u.(links := u.links - 1)) else p
    case Open(share) =>
      if p.Alive() && share.Count() > 0 then p.(users := u.(descriptors := u.descriptors + [share])) else p
    case OpenTruncate(share, after, failed) =>
      if !p.Writable() || share.Count() == 0 then p
      else if failed then p.(contents := after)
      else Plain(u.(descriptors := u.descriptors + [share]), after, None)
    case Close(k) =>
      if k < |u.descriptors| then p.(users := u.(descriptors := u.descriptors[..k] + u.descriptors[k + 1..])) else p
    case Write(_, _, after, n, _) =>
      if p.Writable() then p.(contents := after, cached := if n > 0 then None else p.cached) else p
    case Truncate(_, after, failed) =>
      if p.Writable() then p.(contents := after, cached := if failed then p.cached else None) else p
    case Freeze(i) =>
      if p.Alive() && i !in u.uploads
      then p.(users := u.(uploads := u.uploads[i := Upload(p.contents, None)])) else p
    case Compute(i) =>
      if i in u.uploads
      then p.(users := u.(uploads := u.uploads[i := u.uploads[i].(computed := Some(digest(p.contents)))])) else p
    case Store(i) =>
      if i in u.uploads && u.uploads[i].computed.Some? then p.(cached := u.uploads[i].computed) else p
    case Unfreeze(i) => if i in u.uploads then p.(users := u.(uploads := u.uploads - {i})) else p
  }

  /** The file can be used as long as it is referenced, and is frozen as long as there are frozen descriptors. */
  lemma {:induction false} AliveIff(f: File, u: Users)
    requires InUse(f, u)
    ensures Plain(u, f.contents, f.cachedDigest).Alive() <==> f.referenceCount > 0
    ensures Plain(u, f.contents, f.cachedDigest).Frozen() <==> f.frozenDescriptorsCount > 0
  {
    NobodyLeft(u.descriptors);
  }

  /** One step of anyone who uses the file. Steps that are not possible, among them those that have to wait until the
      file is no longer frozen, have no effect. */
  method Step(f: File, before: Users, e: Event) returns (u: Users)
    requires InUse(f, before) && Possible(e, f.contents)
    modifies f
    ensures Plain(u, f.contents, f.cachedDigest) ==
      Next(Plain(before, old(f.contents), old(f.cachedDigest)), e, f.digest)
    ensures InUse(f, u)
    ensures old(f.DigestOk()) && Honest(e, old(f.contents)) ==> f.DigestOk()
    ensures old(f.frozenDescriptorsCount) > 0 ==> f.contents == old(f.contents)
    ensures old(f.closes) <= f.closes <= 1
  {
    AliveIff(f, before);
    u := before;
    match e {
      case Freeze(i) => u := StepUpload(f, before, e);
      case Compute(i) => u := StepUpload(f, before, e);
      case Store(i) => u := StepUpload(f, before, e);
      case Unfreeze(i) => u := StepUpload(f, before, e);
      case Write(buf, off, after, n, failed) =>
        if f.referenceCount > 0 && f.frozenDescriptorsCount == 0 {
          var s := f.Write(buf, off, after, n, failed);
        }
      case Truncate(size, after, failed) =>
        if f.referenceCount > 0 && f.frozenDescriptorsCount == 0 {
          var s := f.Truncate(size, after, failed);
        }
      case _ => u := StepReference(f, before, e);
    }
  }

  method StepReference(f: File, before: Users, e: Event) returns (u: Users)
    requires InUse(f, before) && Possible(e, f.contents)
    requires e.Link? || e.Unlink? || e.Open? || e.OpenTruncate? || e.Close?
    modifies f
    ensures Plain(u, f.contents, f.cachedDigest) ==
      Next(Plain(before, old(f.contents), old(f.cachedDigest)), e, f.digest)
    ensures InUse(f, u)
    ensures old(f.DigestOk()) && Honest(e, old(f.contents)) ==> f.DigestOk()
    ensures old(f.frozenDescriptorsCount) > 0 ==> f.contents == old(f.contents)
    ensures old(f.closes) <= f.closes <= 1
  {
    AliveIff(f, before);
    u := before;
    var s;
    match e {
      case Link =>
        s := f.Link();
        if s.Ok? { u := u.(links := u.links + 1); }
      case Unlink =>
        if u.links > 0 {
          f.Unlink();
          u := u.(links := u.links - 1);
        }
      case Open(share) =>
        if share.Count() > 0 {
          s := f.Open(share);
          Added(u.descriptors, share);
          if s.Ok? { u := u.(descriptors := u.descriptors + [share]); }
        }
      case OpenTruncate(share, after, failed) =>
        if share.Count() > 0 && f.frozenDescriptorsCount == 0 {
          u := StepOpenTruncate(f, before, share, after, failed);
        }
      case Close(k) =>
        if k < |u.descriptors| {
          u := StepClose(f, before, k);
        }
      case _ =>
    }
  }

  method StepOpenTruncate(f: File, before: Users, share: Share, after: seq<Byte>, failed: bool) returns (u: Users)
    requires InUse(f, before) && share.Count() > 0 && f.frozenDescriptorsCount == 0
    requires MayTruncate(f.contents, 0, after, failed)
    modifies f
    ensures Plain(u, f.contents, f.cachedDigest) ==
      Next(Plain(before, old(f.contents), old(f.cachedDigest)), Event.OpenTruncate(share, after, failed), f.digest)
    ensures InUse(f, u) && old(f.closes) <= f.closes <= 1
    ensures old(f.DigestOk()) && (failed ==> after == old(f.contents)) ==> f.DigestOk()
  {
    AliveIff(f, before);
    u := before;
    Added(u.descriptors, share);
    var s := f.OpenTruncate(share, after, failed);
    if s.Ok? { u := u.(descriptors := u.descriptors + [share]); }
  }

  method StepClose(f: File, before: Users, k: nat) returns (u: Users)
    requires InUse(f, before) && k < |before.descriptors|
    modifies f
    ensures InUse(f, u) && old(f.closes) <= f.closes <= 1 && f.contents == old(f.contents)
    ensures f.cachedDigest == old(f.cachedDigest)
    ensures u == before.(descriptors := before.descriptors[..k] + before.descriptors[k + 1..])
  {
    Removed(before.descriptors, k);
    f.Close(before.descriptors[k]);
    u := before.(descriptors := before.descriptors[..k] + before.descriptors[k + 1..]);
  }

  method StepUpload(f: File, before: Users, e: Event) returns (u: Users)
    requires InUse(f, before) && (e.Freeze? || e.Compute? || e.Store? || e.Unfreeze?)
    modifies f
    ensures Plain(u, f.contents, f.cachedDigest) ==
      Next(Plain(before, old(f.contents), old(f.cachedDigest)), e, f.digest)
    ensures InUse(f, u) && f.contents == old(f.contents) && (old(f.DigestOk()) ==> f.DigestOk())
    ensures old(f.closes) <= f.closes <= 1
  {
    AliveIff(f, before);
    u := before;
    match e {
      case Freeze(i) =>
        if i !in u.uploads {
          var ok := f.OpenReadFrozen();
          if ok { u := u.(uploads := u.uploads[i := Upload(f.contents, None)]); }
        }
      case Compute(i) =>
        if i in u.uploads { u := u.(uploads := u.uploads[i := u.uploads[i].(computed := Some(f.digest(f.contents)))]); }
      case Store(i) =>
        if i in u.uploads && u.uploads[i].computed.Some? { f.StoreDigest(u.uploads[i].computed.value); }
      case Unfreeze(i) =>
        if i in u.uploads {
          Fewer(u.uploads, i);
          f.CloseFrozen();
          u := u.(uploads := u.uploads - {i});
        }
      case _ =>
    }
  }

  lemma {:induction false} Fewer<K, V>(m: map<K, V>, k: K)
    requires k in m
    ensures |m - {k}| == |m| - 1
  {
    assert (m - {k}).Keys == m.Keys - {k};
    assert |(m - {k}).Keys| == |m.Keys| - 1;
  }

  /** Events whose outcome is not possible are skipped. (The layers are there for the verifier, which is to look at the
      definition only where it is opened.) */
  ghost function NextIf(p: Plain, e: Event, honest: bool, digest: seq<Byte> -> Digest, layers: nat := 3): Plain
    decreases p, layers
  {
    if layers > 0 then NextIf(p, e, honest, digest, layers - 1)
    else if Possible(e, p.contents) && (honest ==> Honest(e, p.contents)) then Next(p, e, digest) else p
  }

  lemma {:induction false} OpenNextIf(p: Plain, e: Event, honest: bool, digest: seq<Byte> -> Digest)
    ensures NextIf(p, e, honest, digest) ==
      if Possible(e, p.contents) && (honest ==> Honest(e, p.contents)) then Next(p, e, digest) else p
  {
    assert NextIf(p, e, honest, digest) == NextIf(p, e, honest, digest, 2);
    assert NextIf(p, e, honest, digest, 2) == NextIf(p, e, honest, digest, 1);
    assert NextIf(p, e, honest, digest, 1) == NextIf(p, e, honest, digest, 0);
  }

  /** What a run means to those who use the file. */
  ghost function After(p: Plain, events: seq<Event>, honest: bool, digest: seq<Byte> -> Digest): Plain {
    if events == [] then p
    else
      NextIf(After(p, events[..|events| - 1], honest, digest), events[|events| - 1], honest, digest)
  }

  /** From when a file is frozen for an upload until it is unfrozen by it, whatever others do in between, the file holds
      what it held then, and can be used. */
  lemma {:induction false} FrozenUntilUnfrozen(
    p: Plain, i: nat, events: seq<Event>, honest: bool, digest: seq<Byte> -> Digest)
    requires p.Alive() && i !in p.users.uploads && Unfreeze(i) !in events
    ensures var q := After(p, [Freeze(i)] + events, honest, digest);
      q.contents == p.contents && i in q.users.uploads && q.users.uploads[i].frozen == p.contents && q.Alive()
    decreases |events|
  {
    var all := [Freeze(i)] + events;
    if events == [] {
      assert all[..0] == [] && all[0] == Freeze(i) && |all| == 1;
      OpenNextIf(p, Freeze(i), honest, digest);
    } else {
      var n := |events| - 1;
      assert all[..|all| - 1] == [Freeze(i)] + events[..n];
      FrozenUntilUnfrozen(p, i, events[..n], honest, digest);
      var q := After(p, [Freeze(i)] + events[..n], honest, digest);
      OpenNextIf(q, events[n], honest, digest);
      assert events[n] != Unfreeze(i);
    }
  }

  /** In every run: the file is what it is without counters; the contents do not change while it is frozen; the backing
      file is closed once, when the last link, descriptor and upload is gone; and a cached digest is that of the
      contents, provided that calls on the backing file that report to have had no effect have none. */
  method Drive(f: File, start: Users, events: seq<Event>, honest: bool) returns (u: Users)
    requires InUse(f, start) && f.DigestOk()
    modifies f
    ensures Plain(u, f.contents, f.cachedDigest) ==
      After(Plain(start, old(f.contents), old(f.cachedDigest)), events, honest, f.digest)
    ensures InUse(f, u) && (honest ==> f.DigestOk())
    ensures f.closes == if u.links == 0 && u.descriptors == [] && u.uploads == map[] then 1 else 0
  {
    u := start;
    ghost var p := Plain(start, f.contents, f.cachedDigest);
    var k := 0;
    while k < |events|
      invariant k <= |events| && InUse(f, u) && (honest ==> f.DigestOk())
      invariant Plain(u, f.contents, f.cachedDigest) == After(p, events[..k], honest, f.digest)
    {
      assert events[..k + 1][..k] == events[..k];
      u := StepIf(f, u, events[k], honest);
      k := k + 1;
    }
    assert events[..k] == events;
    AliveIff(f, u);
  }

  method StepIf(f: File, before: Users, e: Event, honest: bool) returns (u: Users)
    requires InUse(f, before) && (honest ==> f.DigestOk())
    modifies f
    ensures InUse(f, u) && (honest ==> f.DigestOk())
    ensures Plain(u, f.contents, f.cachedDigest) ==
      NextIf(Plain(before, old(f.contents), old(f.cachedDigest)), e, honest, f.digest)
  {
    u := before;
    OpenNextIf(Plain(before, f.contents, f.cachedDigest), e, honest, f.digest);
    if Possible(e, f.contents) && (honest ==> Honest(e, f.contents)) {
      u := Step(f, before, e);
    }
  }

  lemma {:induction false} NobodyLeft(ds: seq<Share>)
    requires forall k :: 0 <= k < |ds| ==> ds[k].Count() > 0
    ensures Shares(ds) == 0 <==> ds == []
  {
  }

  // ----- Exactly when a cached digest survives every outcome -----

  ghost predicate Injective(digest: seq<Byte> -> Digest) { forall a, b :: digest(a) == digest(b) ==> a == b }

  /** A byte that differs from the one at offset `k`. */
  function Flipped(contents: seq<Byte>, k: nat): (r: seq<Byte>)
    requires k < |contents|
    ensures r != contents && |r| == |contents| && forall i :: 0 <= i < |r| && i != k ==> r[i] == contents[i]
  {
    var r := contents[k := if contents[k] == 0 then 1 else 0];
    assert r[k] != contents[k];
    r
  }

  /** What `Truncate` leaves cached is right whatever the backing file does, if and only if nothing was cached or
      nothing is cut off. */
  lemma {:induction false} TruncateKeepsDigest(
    digest: seq<Byte> -> Digest, cached: Option<Digest>, contents: seq<Byte>, size: nat)
    requires Injective(digest) && IsDigest(digest, cached, contents)
    ensures
      (forall after, failed :: MayTruncate(contents, size, after, failed) ==>
         IsDigest(digest, if failed then cached else None, after))
      <==> cached.None? || |contents| <= size
  {
    if cached.Some? && size < |contents| {
      var after := Flipped(contents, size);
      assert MayTruncate(contents, size, after, true) && !IsDigest(digest, cached, after);
    } else {
      forall after, failed | MayTruncate(contents, size, after, failed)
        ensures IsDigest(digest, if failed then cached else None, after)
      {
        if failed && |contents| <= size { assert after == contents; }
      }
    }
  }

  /** What `Write` leaves cached is right whatever the backing file does, if and only if nothing was cached or nothing
      is overwritten. */
  lemma {:induction false} WriteKeepsDigest(
    digest: seq<Byte> -> Digest, cached: Option<Digest>, contents: seq<Byte>, buf: seq<Byte>, off: nat)
    requires Injective(digest) && IsDigest(digest, cached, contents)
    ensures
      (forall after, n, failed :: MayWrite(contents, buf, off, after, n, failed) ==>
         IsDigest(digest, if n > 0 then None else cached, after))
      <==> cached.None? || buf == [] || |contents| <= off
  {
    if cached.Some? && buf != [] && off < |contents| {
      var after := Flipped(contents, off);
      assert MayWrite(contents, buf, off, after, 0, true) && !IsDigest(digest, cached, after);
    } else {
      forall after, n, failed | MayWrite(contents, buf, off, after, n, failed)
        ensures IsDigest(digest, if n > 0 then None else cached, after)
      {
        if n == 0 && cached.Some? { assert after == contents; }
      }
    }
  }

  /** A digest that is wrong: the file holds two bytes and their digest is cached; a truncation to one byte fails after
      the second one is gone. */
  method StaleDigest(digest: seq<Byte> -> Digest) returns (f: File)
    requires digest([1, 2]) != digest([1, 0])
    ensures f.Valid() && f.referenceCount > 0 && !f.DigestOk()
  {
    f := new File(digest, [1, 2], Share(true, true));
    var ok := f.OpenReadFrozen();
    f.StoreDigest(digest(f.contents));
    f.CloseFrozen();
    var s := f.Truncate(1, [1, 0], true);
  }
}
