/**
 pkg/filesystem/access/bloom_filter_computing_monitor.go: which paths get recorded; and
 pkg/builder/prefetching_build_executor.go: which paths get prefetched with a Bloom filter of them.
 */
module Prefetching {
  import opened PathHashes
  import opened BloomFilter

  // ----- Recording -----

  /** Every path is recorded along with its parent directory. */
  ghost predicate Closed(paths: set<Path>) {
    forall p :: p in paths && p != [] ==> p[..|p| - 1] in paths
  }

  /** bloomFilterComputingState */
  class Recorder {
    var allHashes: set<Hash>
    var directoriesResolved: nat
    var directoriesRead: nat
    var filesRead: nat
    ghost var paths: set<Path>

    ghost predicate Valid()
      reads this
    {
      Closed(paths) && allHashes == set p | p in paths :: HashOf(p)
    }

    constructor ()
      ensures Valid() && paths == {} && directoriesResolved == 1
    {
      allHashes, directoriesResolved, directoriesRead, filesRead, paths := {}, 1, 0, 0, {};
    }
  }

  /** A directory whose contents have not been read. */
  class UnreadDirectoryMonitor {
    const state: Recorder
    const hashes: Hash
    ghost const path: Path

    /** Its parent has been read; so nothing but the root is monitored without. */
    ghost predicate Valid()
      reads this, state
    {
      state.Valid() && hashes == HashOf(path) && (path != [] ==> path[..|path| - 1] in state.paths)
    }

    constructor Root()
      ensures Valid() && path == [] && fresh(state) && state.paths == {}
    {
      state := new Recorder();
      hashes, path := FNV1A_OFFSET_BASIS, [];
    }

    constructor (state: Recorder, hashes: Hash, ghost path: Path)
      requires state.Valid() && hashes == HashOf(path) && path != [] && path[..|path| - 1] in state.paths
      ensures Valid() && this.state == state && this.path == path
    {
      this.state, this.hashes, this.path := state, hashes, path;
    }

    /** ReadDirectory() */
    method ReadDirectory() returns (r: ReadDirectoryMonitor)
      requires Valid()
      modifies state
      ensures r.Valid() && r.state == state && r.path == path && state.paths == old(state.paths) + {path}
    {
      state.directoriesRead := state.directoriesRead + 1;
      state.allHashes, state.paths := state.allHashes + {hashes}, state.paths + {path};
      r := new ReadDirectoryMonitor(state, hashes, path);
    }
  }

  /** A directory whose contents have been read. */
  class ReadDirectoryMonitor {
    const state: Recorder
    const hashes: Hash
    ghost const path: Path

    ghost predicate Valid()
      reads this, state
    {
      state.Valid() && hashes == HashOf(path) && path in state.paths
    }

    constructor (state: Recorder, hashes: Hash, ghost path: Path)
      requires state.Valid() && hashes == HashOf(path) && path in state.paths
      ensures Valid() && this.state == state && this.path == path
    {
      this.state, this.hashes, this.path := state, hashes, path;
    }

    /** ResolvedDirectory() */
    method ResolvedDirectory(name: Name) returns (r: UnreadDirectoryMonitor)
      requires Valid()
      modifies state
      ensures r.Valid() && r.state == state && r.path == path + [name] && state.paths == old(state.paths)
      ensures state.directoriesResolved == old(state.directoriesResolved) + 1
    {
      state.directoriesResolved := state.directoriesResolved + 1;
      assert (path + [name])[..|path|] == path;
      var child := AppendComponent(hashes, name);
      r := new UnreadDirectoryMonitor(state, child, path + [name]);
    }

    /** ReadFile() */
    method ReadFile(name: Name)
      requires Valid()
      modifies state
      ensures Valid() && state.paths == old(state.paths) + {path + [name]}
    {
      assert (path + [name])[..|path|] == path;
      var child := AppendComponent(hashes, name);
      state.filesRead := state.filesRead + 1;
      state.allHashes, state.paths := state.allHashes + {child}, state.paths + {path + [name]};
    }
  }

  // ----- Runs -----

  /** What is done with the monitors obtained so far, by number. */
  datatype Access =
    | Reads(monitor: nat)
    | Resolves(monitor: nat, name: Name)
    | ReadsFile(monitor: nat, name: Name)

  /** The paths of all monitors, and those of what was read. */
  datatype Log = Log(unread: seq<Path>, read: seq<Path>, accessed: set<Path>)

  /** What was accessed. Monitors that do not exist are not used. */
  ghost function LogOf(accesses: seq<Access>): Log {
    if accesses == [] then Log([[]], [], {})
    else
      var n := |accesses| - 1;
      Logged(LogOf(accesses[..n]), accesses[n])
  }

  ghost function Logged(l: Log, a: Access): Log {
    match a
    case Reads(i) =>
      if i < |l.unread| then l.(read := l.read + [l.unread[i]], accessed := l.accessed + {l.unread[i]}) else l
    case Resolves(i, name) => if i < |l.read| then l.(unread := l.unread + [l.read[i] + [name]]) else l
    case ReadsFile(i, name) => if i < |l.read| then l.(accessed := l.accessed + {l.read[i] + [name]}) else l
  }

  datatype Way = ReadsDirectory | ResolvesChild | ReadsChild

  /** An access through a monitor that exists: to read directory `p`, or in a directory that has been read, to resolve
      or to read its child at `p`. */
  ghost predicate Accesses(l: Log, a: Access, way: Way, p: Path) {
    match way
    case ReadsDirectory => a.Reads? && a.monitor < |l.unread| && l.unread[a.monitor] == p
    case ResolvesChild => a.Resolves? && a.monitor < |l.read| && l.read[a.monitor] + [a.name] == p
    case ReadsChild => a.ReadsFile? && a.monitor < |l.read| && l.read[a.monitor] + [a.name] == p
  }

  ghost predicate AccessAt(accesses: seq<Access>, k: nat, way: Way, p: Path)
    requires k < |accesses|
  {
    Accesses(LogOf(accesses[..k]), accesses[k], way, p)
  }

  ghost predicate WasAccessed(accesses: seq<Access>, way: Way, p: Path) {
    exists k: nat :: k < |accesses| && AccessAt(accesses, k, way, p)
  }

  lemma {:induction false} OneMoreAccess(accesses: seq<Access>, way: Way, p: Path)
    requires accesses != []
    ensures var n := |accesses| - 1;
      WasAccessed(accesses, way, p) <==>
      WasAccessed(accesses[..n], way, p) || Accesses(LogOf(accesses[..n]), accesses[n], way, p)
  {
    var n := |accesses| - 1;
    var before := accesses[..n];
    forall k: nat | k < n ensures AccessAt(before, k, way, p) == AccessAt(accesses, k, way, p) {
      assert before[..k] == accesses[..k];
    }
    assert AccessAt(accesses, n, way, p) == Accesses(LogOf(before), accesses[n], way, p);
  }

  /** What is accessed are the directories that are read, and the files that are read in them; there are monitors for
      the root and all directories that are resolved in those that are read. */
  lemma {:induction false} AccessedExact(accesses: seq<Access>, p: Path)
    ensures p in LogOf(accesses).read <==> WasAccessed(accesses, ReadsDirectory, p)
    ensures p in LogOf(accesses).unread <==> p == [] || WasAccessed(accesses, ResolvesChild, p)
    ensures p in LogOf(accesses).accessed <==>
      WasAccessed(accesses, ReadsDirectory, p) || WasAccessed(accesses, ReadsChild, p)
  {
    if accesses != [] {
      var n := |accesses| - 1;
      AccessedExact(accesses[..n], p);
      OneMoreAccess(accesses, ReadsDirectory, p);
      OneMoreAccess(accesses, ResolvesChild, p);
      OneMoreAccess(accesses, ReadsChild, p);
      LoggedExact(LogOf(accesses[..n]), accesses[n], p);
    }
  }

  lemma {:induction false} LoggedExact(l: Log, a: Access, p: Path)
    ensures p in Logged(l, a).read <==> p in l.read || Accesses(l, a, ReadsDirectory, p)
    ensures p in Logged(l, a).unread <==> p in l.unread || Accesses(l, a, ResolvesChild, p)
    ensures p in Logged(l, a).accessed <==>
      p in l.accessed || Accesses(l, a, ReadsDirectory, p) || Accesses(l, a, ReadsChild, p)
  {
  }

  /** The monitors are those of the log, and what is recorded is what was accessed. */
  ghost predicate Recorded(
    state: Recorder, unread: seq<UnreadDirectoryMonitor>, read: seq<ReadDirectoryMonitor>, l: Log)
    reads state, unread, read
  {
    && state.Valid() && state.paths == l.accessed && |unread| == |l.unread| && |read| == |l.read|
    && (forall i :: 0 <= i < |unread| ==>
      unread[i].state == state && unread[i].Valid() && unread[i].path == l.unread[i])
    && (forall i :: 0 <= i < |read| ==> read[i].state == state && read[i].Valid() && read[i].path == l.read[i])
  }

  method AccessDirectory(
    state: Recorder, unread: seq<UnreadDirectoryMonitor>, read: seq<ReadDirectoryMonitor>, ghost l: Log, i: nat)
    returns (read': seq<ReadDirectoryMonitor>)
    requires Recorded(state, unread, read, l) && i < |unread|
    modifies state
    ensures Recorded(state, unread, read', Logged(l, Reads(i)))
  {
    var r := unread[i].ReadDirectory();
    read' := read + [r];
  }

  method AccessChild(
    state: Recorder, unread: seq<UnreadDirectoryMonitor>, read: seq<ReadDirectoryMonitor>, ghost l: Log, i: nat,
    name: Name)
    returns (unread': seq<UnreadDirectoryMonitor>)
    requires Recorded(state, unread, read, l) && i < |read|
    modifies state
    ensures Recorded(state, unread', read, Logged(l, Resolves(i, name)))
  {
    var r := read[i].ResolvedDirectory(name);
    unread' := unread + [r];
  }

  method AccessOne(
    state: Recorder, unread: seq<UnreadDirectoryMonitor>, read: seq<ReadDirectoryMonitor>, ghost l: Log, a: Access)
    returns (unread': seq<UnreadDirectoryMonitor>, read': seq<ReadDirectoryMonitor>)
    requires Recorded(state, unread, read, l)
    modifies state
    ensures Recorded(state, unread', read', Logged(l, a))
  {
    unread', read' := unread, read;
    match a {
      case Reads(i) =>
        if i < |unread| { read' := AccessDirectory(state, unread, read, l, i); }
      case Resolves(i, name) =>
        if i < |read| { unread' := AccessChild(state, unread, read, l, i, name); }
      case ReadsFile(i, name) =>
        if i < |read| { read[i].ReadFile(name); }
    }
  }

  /** In every run over any number of monitors, what is recorded is exactly what was accessed. */
  method Record(accesses: seq<Access>) returns (state: Recorder)
    ensures fresh(state) && state.Valid() && state.paths == LogOf(accesses).accessed
    ensures forall p :: p in state.paths <==>
      WasAccessed(accesses, ReadsDirectory, p) || WasAccessed(accesses, ReadsChild, p)
  {
    var root := new UnreadDirectoryMonitor.Root();
    state := root.state;
    var unread: seq<UnreadDirectoryMonitor>, read: seq<ReadDirectoryMonitor> := [root], [];
    var k := 0;
    while k < |accesses|
      invariant k <= |accesses| && fresh(state) && Recorded(state, unread, read, LogOf(accesses[..k]))
    {
      unread, read := AccessOne(state, unread, read, LogOf(accesses[..k]), accesses[k]);
      assert accesses[..k + 1][..k] == accesses[..k];
      k := k + 1;
    }
    assert accesses[..k] == accesses;
    forall p ensures p in state.paths <==>
      WasAccessed(accesses, ReadsDirectory, p) || WasAccessed(accesses, ReadsChild, p) { AccessedExact(accesses, p); }
  }

  // ----- Prefetching -----

  /** An input root as it is in storage. A directory, or the digest of a file, may turn out to be unusable. */
  datatype Directory = Directory(usable: bool, files: seq<File>, directories: seq<Subdirectory>)
  datatype File = File(name: Name, usable: bool)
  datatype Subdirectory = Subdirectory(name: Name, directory: Directory)

  /** path.NewComponent() */
  predicate ValidComponent(name: Name) {
    name != [] && name != [46] && name != [46, 46] && 47 !in name && 0 !in name
  }

  ghost predicate HasFile(d: Directory, name: Name) { exists f :: f in d.files && f.name == name }

  /** The input root has a file or directory with this path, relative to `d`. */
  ghost predicate Present(d: Directory, p: Path)
    decreases |p|
  {
    || p == []
    || (|p| == 1 && HasFile(d, p[0]))
    || exists s :: s in d.directories && s.name == p[0] && Present(s.directory, p[1..])
  }

  /** All that was recorded and is present in `d`, which is at a given path, has been prefetched. */
  ghost predicate Reached(recorded: set<Path>, d: Directory, at: Path, done: set<Path>) {
    forall p :: Present(d, p) && at + p in recorded ==> at + p in done
  }

  ghost predicate FilesReached(recorded: set<Path>, files: seq<File>, at: Path, done: set<Path>) {
    forall k :: 0 <= k < |files| && at + [files[k].name] in recorded ==> at + [files[k].name] in done
  }

  /** The same for the first `n` subdirectories. */
  ghost predicate DirectoriesReached(
    recorded: set<Path>, directories: seq<Subdirectory>, n: nat, at: Path, done: set<Path>)
    requires n <= |directories|
  {
    forall k :: 0 <= k < n ==> Reached(recorded, directories[k].directory, at + [directories[k].name], done)
  }

  lemma {:induction false} NextReached(
    recorded: set<Path>, directories: seq<Subdirectory>, n: nat, at: Path, done: set<Path>, more: set<Path>)
    requires n < |directories| && DirectoriesReached(recorded, directories, n, at, done)
    requires Reached(recorded, directories[n].directory, at + [directories[n].name], more)
    ensures DirectoriesReached(recorded, directories, n + 1, at, done + more)
  {
    forall k | 0 <= k < n + 1
      ensures Reached(recorded, directories[k].directory, at + [directories[k].name], done + more)
    {
      assert k == n || Reached(recorded, directories[k].directory, at + [directories[k].name], done);
    }
  }

  /** Nothing about what the filter contains of this input root, at a given path, leads to an error. */
  ghost predicate Usable(r: Reader, d: Directory, at: Path)
    requires 0 < r.sizeBits < 8 * |r.filter|
    decreases d, 1
  {
    MayContain(r, HashOf(at)) ==>
      && d.usable && FilesUsable(r, d.files, |d.files|, at) && DirectoriesUsable(r, d, |d.directories|, at)
  }

  ghost predicate FilesUsable(r: Reader, files: seq<File>, n: nat, at: Path)
    requires 0 < r.sizeBits < 8 * |r.filter| && n <= |files|
  {
    forall k :: 0 <= k < n ==>
      ValidComponent(files[k].name) && (MayContain(r, HashOf(at + [files[k].name])) ==> files[k].usable)
  }

  ghost predicate DirectoriesUsable(r: Reader, d: Directory, n: nat, at: Path)
    requires 0 < r.sizeBits < 8 * |r.filter| && n <= |d.directories|
    decreases d, 0
  {
    forall k :: 0 <= k < n ==>
      ValidComponent(d.directories[k].name) && Usable(r, d.directories[k].directory, at + [d.directories[k].name])
  }

  /** Everything that was prefetched is in the input root. */
  ghost predicate AllPresent(d: Directory, at: Path, done: set<Path>) {
    forall p :: p in done ==> at <= p && Present(d, p[|at|..])
  }

  ghost predicate AllContained(r: Reader, done: set<Path>)
    requires 0 < r.sizeBits < 8 * |r.filter|
  {
    forall p :: p in done ==> MayContain(r, HashOf(p))
  }

  /** prefetchRecursively(), which collects the paths of what is prefetched. */
  method Prefetch(r: Reader, ghost recorded: set<Path>, d: Directory, at: Path, hashes: Hash)
    returns (ok: bool, done: set<Path>)
    requires 0 < r.sizeBits < 8 * |r.filter| && hashes == HashOf(at)
    requires Closed(recorded) && forall p :: p in recorded ==> MayContain(r, HashOf(p))
    ensures ok ==> Reached(recorded, d, at, done)
    ensures AllContained(r, done) && AllPresent(d, at, done) && (ok <==> Usable(r, d, at))
    decreases d, 1
  {
    done, ok := {}, true;
    var contained := Contains(r, hashes);
    if !contained {
      NothingToReach(r, recorded, d, at);
      return;
    }
    if !d.usable { return false, done; }
    var more;
    ok, done := PrefetchFiles(r, recorded, d, at, hashes);
    if !ok { return; }
    ok, more := PrefetchDirectories(r, recorded, d, d.directories, at, hashes);
    if ok { AllReached(recorded, d, at, done, more); }
    done := done + more + {at};
  }

  lemma {:induction false} NothingToReach(r: Reader, recorded: set<Path>, d: Directory, at: Path)
    requires 0 < r.sizeBits < 8 * |r.filter| && !MayContain(r, HashOf(at))
    requires Closed(recorded) && forall p :: p in recorded ==> MayContain(r, HashOf(p))
    ensures Reached(recorded, d, at, {})
  {
    forall p ensures at + p !in recorded {
      if at + p in recorded { AncestorRecorded(recorded, at, p); }
    }
  }

  lemma {:induction false} AllReached(
    recorded: set<Path>, d: Directory, at: Path, files: set<Path>, directories: set<Path>)
    requires FilesReached(recorded, d.files, at, files)
    requires DirectoriesReached(recorded, d.directories, |d.directories|, at, directories)
    ensures Reached(recorded, d, at, files + directories + {at})
  {
    forall p | Present(d, p) && at + p in recorded ensures at + p in files + directories + {at} {
      if p == [] {
        assert at + p == at;
      } else if |p| == 1 && HasFile(d, p[0]) {
        var f :| f in d.files && f.name == p[0];
        var k :| 0 <= k < |d.files| && d.files[k] == f;
        assert at + [d.files[k].name] == at + p;
      } else {
        var s :| s in d.directories && s.name == p[0] && Present(s.directory, p[1..]);
        var k :| 0 <= k < |d.directories| && d.directories[k] == s;
        assert at + [s.name] + p[1..] == at + p;
      }
    }
  }

  method PrefetchFiles(r: Reader, ghost recorded: set<Path>, d: Directory, at: Path, hashes: Hash)
    returns (ok: bool, done: set<Path>)
    requires 0 < r.sizeBits < 8 * |r.filter| && hashes == HashOf(at)
    requires forall p :: p in recorded ==> MayContain(r, HashOf(p))
    ensures ok ==> FilesReached(recorded, d.files, at, done)
    ensures AllContained(r, done) && AllPresent(d, at, done) && (ok <==> FilesUsable(r, d.files, |d.files|, at))
  {
    var files := d.files;
    ok, done := true, {};
    var i := 0;
    while i < |files|
      invariant i <= |files| && FilesUsable(r, files, i, at)
      invariant AllContained(r, done) && AllPresent(d, at, done) && ok
      invariant forall k :: 0 <= k < i && at + [files[k].name] in recorded ==> at + [files[k].name] in done
    {
      var f := files[i];
      if !ValidComponent(f.name) { return false, done; }
      var child := AppendComponent(hashes, f.name);
      HashOfChild(at, f.name);
      var contained := Contains(r, child);
      if contained {
        if !f.usable { return false, done; }
        FilePresent(d, at, f);
        done := done + {at + [f.name]};
      }
      i := i + 1;
    }
  }

  method PrefetchDirectories(
    r: Reader, ghost recorded: set<Path>, ghost parent: Directory, directories: seq<Subdirectory>, at: Path,
    hashes: Hash)
    returns (ok: bool, done: set<Path>)
    requires 0 < r.sizeBits < 8 * |r.filter| && hashes == HashOf(at)
    requires Closed(recorded) && forall p :: p in recorded ==> MayContain(r, HashOf(p))
    requires parent.directories == directories
    ensures ok ==> DirectoriesReached(recorded, directories, |directories|, at, done)
    ensures AllContained(r, done) && AllPresent(parent, at, done)
    ensures ok <==> DirectoriesUsable(r, parent, |directories|, at)
    decreases parent, 0
  {
    ok, done := true, {};
    var i: nat := 0;
    while i < |directories|
      invariant i <= |directories| && DirectoriesUsable(r, parent, i, at) && AllPresent(parent, at, done)
      invariant DirectoriesReached(recorded, directories, i, at, done) && AllContained(r, done) && ok
    {
      var s := directories[i];
      if !ValidComponent(s.name) { return false, done; }
      var child := AppendComponent(hashes, s.name);
      HashOfChild(at, s.name);
      var more;
      ok, more := Prefetch(r, recorded, s.directory, at + [s.name], child);
      PresentBelow(parent, s, at, more);
      if !ok { return false, done + more; }
      NextReached(recorded, directories, i, at, done, more);
      done := done + more;
      i := i + 1;
    }
  }

  lemma {:induction false} FilePresent(d: Directory, at: Path, f: File)
    requires f in d.files
    ensures AllPresent(d, at, {at + [f.name]})
  {
    assert (at + [f.name])[|at|..] == [f.name];
  }

  lemma {:induction false} PresentBelow(d: Directory, s: Subdirectory, at: Path, done: set<Path>)
    requires s in d.directories && AllPresent(s.directory, at + [s.name], done)
    ensures AllPresent(d, at, done)
  {
    forall p | p in done ensures at <= p && Present(d, p[|at|..]) {
      var q := p[|at|..];
      assert at + [s.name] <= p && q[0] == s.name && q[1..] == p[|at| + 1..];
    }
  }

  lemma {:induction false} HashOfChild(at: Path, name: Name)
    ensures HashOf(at + [name]) == Child(HashOf(at), name)
  {
    assert (at + [name])[..|at|] == at;
  }

  lemma {:induction false} AncestorRecorded(recorded: set<Path>, at: Path, p: Path)
    requires Closed(recorded) && at + p in recorded
    ensures at in recorded
    decreases |p|
  {
    if p == [] {
      assert at + p == at;
    } else {
      assert (at + p)[..|at + p| - 1] == at + p[..|p| - 1];
      AncestorRecorded(recorded, at, p[..|p| - 1]);
    }
  }

  /** End to end: whatever was accessed, a Bloom filter of it makes everything of it that is in another input root be
      prefetched, unless part of that input root is unusable. */
  method RecordAndPrefetch(accesses: seq<Access>, bitsPerElement: nat, maximumSizeBytes: int, root: Directory)
    returns (ok: bool, done: set<Path>, r: Reader)
    ensures 0 < r.sizeBits < 8 * |r.filter| && forall p :: p in LogOf(accesses).accessed ==> MayContain(r, HashOf(p))
    ensures ok ==> forall p :: p in LogOf(accesses).accessed && Present(root, p) ==> p in done
    ensures AllContained(r, done) && AllPresent(root, [], done)
    ensures (ok <==> Usable(r, root, [])) && (WhollyUsable(root) ==> ok)
  {
    var state := Record(accesses);
    ok, done, r := PrefetchRecorded(state, bitsPerElement, maximumSizeBytes, root);
    if WhollyUsable(root) { NeverUnusable(r, root, []); }
  }

  method PrefetchRecorded(state: Recorder, bitsPerElement: nat, maximumSizeBytes: int, root: Directory)
    returns (ok: bool, done: set<Path>, r: Reader)
    requires state.Valid()
    ensures 0 < r.sizeBits < 8 * |r.filter| && forall p :: p in state.paths ==> MayContain(r, HashOf(p))
    ensures ok ==> forall p :: p in state.paths && Present(root, p) ==> p in done
    ensures AllContained(r, done) && AllPresent(root, [], done) && (ok <==> Usable(r, root, []))
  {
    var filter, hashFunctions;
    ghost var sizeBits, best;
    filter, hashFunctions, sizeBits, best := GetBloomFilter(state.allHashes, bitsPerElement, maximumSizeBytes);
    RecordedAreContained(state, filter, sizeBits, hashFunctions);
    r := NewReader(filter, hashFunctions).value;
    ok, done := Prefetch(r, state.paths, root, [], FNV1A_OFFSET_BASIS);
    if ok { ReachedFromRoot(state.paths, root, done); }
  }

  /** Nothing about this input root leads to an error, whatever the filter contains. */
  ghost predicate WhollyUsable(d: Directory) {
    && d.usable && (forall k :: 0 <= k < |d.files| ==> ValidComponent(d.files[k].name) && d.files[k].usable)
    && (forall k :: 0 <= k < |d.directories| ==>
          ValidComponent(d.directories[k].name) && WhollyUsable(d.directories[k].directory))
  }

  lemma {:induction false} NeverUnusable(r: Reader, d: Directory, at: Path)
    requires 0 < r.sizeBits < 8 * |r.filter| && WhollyUsable(d)
    ensures Usable(r, d, at)
    decreases d
  {
    forall k | 0 <= k < |d.directories| ensures Usable(r, d.directories[k].directory, at + [d.directories[k].name]) {
      NeverUnusable(r, d.directories[k].directory, at + [d.directories[k].name]);
    }
  }

  lemma {:induction false} ReachedFromRoot(recorded: set<Path>, root: Directory, done: set<Path>)
    requires Reached(recorded, root, [], done)
    ensures forall p :: p in recorded && Present(root, p) ==> p in done
  {
    forall p | p in recorded && Present(root, p) ensures p in done {
      assert [] + p == p;
    }
  }

  lemma {:induction false} RecordedAreContained(state: Recorder, filter: seq<Byte>, sizeBits: nat, hashFunctions: nat)
    requires state.Valid() && Encodes(filter, sizeBits, hashFunctions, state.allHashes)
    ensures NewReader(filter, hashFunctions).Ok?
    ensures forall p :: p in state.paths ==> MayContain(NewReader(filter, hashFunctions).value, HashOf(p))
  {
    ReaderRecoversSize(filter, sizeBits, hashFunctions, state.allHashes);
    forall p | p in state.paths ensures MayContain(NewReader(filter, hashFunctions).value, HashOf(p)) {
      NoFalseNegatives(filter, sizeBits, hashFunctions, state.allHashes, HashOf(p));
    }
  }
}
