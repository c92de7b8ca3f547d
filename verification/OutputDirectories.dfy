/**
 pkg/builder/output_hierarchy.go: collecting the directories of an output directory, and what the
 resulting Tree message lists.
 */
module OutputDirectories {
  import opened Common
  import opened TreeEncoding

  type Digest = nat
  type Name = string

  // ----- What is uploaded -----

  /** An output directory as found on disk. Reading or entering it, uploading a file, or reading a symbolic
      link may fail. */
  datatype Dir = Dir(readable: bool, entries: seq<Entry>)
  datatype Entry = Entry(name: Name, kind: Kind)
  datatype Kind =
    | Regular(uploaded: bool, digest: Digest, executable: bool)
    | Subdirectory(entered: bool, dir: Dir)
    | Symlink(read: bool, target: string)
    | Other

  /** A Directory message. */
  datatype Message = Message(files: seq<FileNode>, directories: seq<DirectoryNode>, symlinks: seq<SymlinkNode>)
  datatype FileNode = FileNode(name: Name, digest: Digest, executable: bool)
  datatype DirectoryNode = DirectoryNode(name: Name, digest: Digest)
  datatype SymlinkNode = SymlinkNode(name: Name, target: string)

  /** How messages are marshalled and digests are computed. */
  datatype Codec = Codec(marshal: Message -> Bytes, digest: Bytes -> Digest)

  /** Different directories have different digests. */
  ghost predicate Injective(c: Codec) {
    && (forall a, b :: c.marshal(a) == c.marshal(b) ==> a == b)
    && (forall a, b :: c.digest(a) == c.digest(b) ==> a == b)
  }

  /** The message for the first entries of a directory. */
  ghost function MessageFor(c: Codec, entries: seq<Entry>): Message {
    if entries == [] then Message([], [], [])
    else
      var m, e := MessageFor(c, entries[..|entries| - 1]), entries[|entries| - 1];
      match e.kind
      case Regular(uploaded, digest, executable) =>
        if uploaded then m.(files := m.files + [FileNode(e.name, digest, executable)]) else m
      case Subdirectory(entered, dir) =>
        if entered && dir.readable then
          var digest := c.digest(c.marshal(MessageFor(c, dir.entries)));
          m.(directories := m.directories + [DirectoryNode(e.name, digest)])
        else m
      case Symlink(read, target) =>
        if read then m.(symlinks := m.symlinks + [SymlinkNode(e.name, target)]) else m
      case Other => m
  }

  ghost function DataOf(c: Codec, d: Dir): Bytes { c.marshal(MessageFor(c, d.entries)) }

  ghost function DigestOf(c: Codec, d: Dir): Digest { c.digest(DataOf(c, d)) }

  /** `x` is `d`, or a directory below it that can be entered and read. */
  ghost predicate Within(x: Dir, d: Dir) {
    x == d || exists k :: 0 <= k < |d.entries| && Child(d.entries[k]) && Within(x, d.entries[k].kind.dir)
  }

  ghost predicate Child(e: Entry) { e.kind.Subdirectory? && e.kind.entered && e.kind.dir.readable }

  // ----- What a message lists -----

  /** All of `s` in increasing order. */
  ghost predicate InOrder(indices: seq<nat>, s: set<nat>) {
    && (forall i, j :: 0 <= i < j < |indices| ==> indices[i] < indices[j])
    && (forall k :: k in s <==> k in indices)
  }

  ghost function Files(entries: seq<Entry>): set<nat> {
    set k: nat | k < |entries| && entries[k].kind.Regular? && entries[k].kind.uploaded
  }

  ghost function Children(entries: seq<Entry>): set<nat> {
    set k: nat | k < |entries| && Child(entries[k])
  }

  ghost function Symlinks(entries: seq<Entry>): set<nat> {
    set k: nat | k < |entries| && entries[k].kind.Symlink? && entries[k].kind.read
  }

  /** The files are these entries, with their names, digests and executable bits. */
  ghost predicate ListsFiles(entries: seq<Entry>, nodes: seq<FileNode>, files: seq<nat>) {
    && |nodes| == |files|
    && forall i :: 0 <= i < |files| && files[i] in Files(entries) ==>
         var e := entries[files[i]]; nodes[i] == FileNode(e.name, e.kind.digest, e.kind.executable)
  }

  /** The symbolic links are these entries, with their names and targets. */
  ghost predicate ListsSymlinks(entries: seq<Entry>, nodes: seq<SymlinkNode>, symlinks: seq<nat>) {
    && |nodes| == |symlinks|
    && forall i :: 0 <= i < |symlinks| && symlinks[i] in Symlinks(entries) ==>
         var e := entries[symlinks[i]]; nodes[i] == SymlinkNode(e.name, e.kind.target)
  }

  /** The directories are these entries. */
  ghost predicate ListsChildren(c: Codec, entries: seq<Entry>, nodes: seq<DirectoryNode>, children: seq<nat>)
    decreases entries, 0
  {
    && |nodes| == |children|
    && forall i :: 0 <= i < |children| && children[i] in Children(entries) ==>
         ListsChild(c, entries[children[i]], nodes[i])
  }

  /** With its name, and the digest of a message that describes it. (The layers are there for the verifier, which is to
      look at the definition only where it is opened.) */
  ghost predicate ListsChild(c: Codec, e: Entry, node: DirectoryNode, layers: nat := 3)
    requires Child(e)
    decreases e, layers
  {
    if layers > 0 then ListsChild(c, e, node, layers - 1)
    else
      && node.name == e.name
      && exists x :: node.digest == c.digest(c.marshal(x)) && Describes(c, e.kind.dir.entries, x)
  }

  lemma {:induction false} OpenListsChild(c: Codec, e: Entry, node: DirectoryNode)
    requires Child(e)
    ensures ListsChild(c, e, node) <==>
      && node.name == e.name
      && exists x :: node.digest == c.digest(c.marshal(x)) && Describes(c, e.kind.dir.entries, x)
  {
    assert ListsChild(c, e, node) == ListsChild(c, e, node, 2);
    assert ListsChild(c, e, node, 2) == ListsChild(c, e, node, 1);
    assert ListsChild(c, e, node, 1) == ListsChild(c, e, node, 0);
  }

  /** Message `m` lists, in their order, exactly the files that were uploaded, the directories that could be entered and
      read, and the symbolic links that could be read. */
  ghost predicate Describes(c: Codec, entries: seq<Entry>, m: Message)
    decreases entries, 1
  {
    exists files, children, symlinks ::
      && InOrder(files, Files(entries)) && InOrder(children, Children(entries)) && InOrder(symlinks, Symlinks(entries))
      && ListsFiles(entries, m.files, files) && ListsSymlinks(entries, m.symlinks, symlinks)
      && ListsChildren(c, entries, m.directories, children)
  }

  lemma {:induction false} OneMoreIndex(indices: seq<nat>, s: set<nat>, n: nat, s': set<nat>, yes: bool)
    requires InOrder(indices, s) && s' == (if yes then s + {n} else s) && forall k :: k in s ==> k < n
    ensures InOrder(if yes then indices + [n] else indices, s')
  {
    var next := if yes then indices + [n] else indices;
    forall i, j | 0 <= i < j < |next| ensures next[i] < next[j] {
      if j == |indices| { assert indices[i] in s; }
    }
  }

  lemma {:induction false} FilesListed(c: Codec, entries: seq<Entry>) returns (files: seq<nat>)
    ensures InOrder(files, Files(entries)) && ListsFiles(entries, MessageFor(c, entries).files, files)
  {
    if entries == [] { return []; }
    var n := |entries| - 1;
    var yes := entries[n].kind.Regular? && entries[n].kind.uploaded;
    var fs := FilesListed(c, entries[..n]);
    assert Files(entries) == if yes then Files(entries[..n]) + {n} else Files(entries[..n]);
    OneMoreIndex(fs, Files(entries[..n]), n, Files(entries), yes);
    NextFile(c, entries, fs);
    files := if yes then fs + [n] else fs;
  }

  lemma {:induction false} SymlinksListed(c: Codec, entries: seq<Entry>) returns (symlinks: seq<nat>)
    ensures InOrder(symlinks, Symlinks(entries)) && ListsSymlinks(entries, MessageFor(c, entries).symlinks, symlinks)
  {
    if entries == [] { return []; }
    var n := |entries| - 1;
    var yes := entries[n].kind.Symlink? && entries[n].kind.read;
    var ls := SymlinksListed(c, entries[..n]);
    assert Symlinks(entries) == if yes then Symlinks(entries[..n]) + {n} else Symlinks(entries[..n]);
    OneMoreIndex(ls, Symlinks(entries[..n]), n, Symlinks(entries), yes);
    NextSymlink(c, entries, ls);
    symlinks := if yes then ls + [n] else ls;
  }

  lemma {:induction false} ChildrenListed(c: Codec, entries: seq<Entry>) returns (children: seq<nat>)
    ensures InOrder(children, Children(entries))
    ensures ListsChildren(c, entries, MessageFor(c, entries).directories, children)
    decreases entries, 0
  {
    if entries == [] { return []; }
    var n := |entries| - 1;
    var e := entries[n];
    var ds := ChildrenListed(c, entries[..n]);
    assert Children(entries) == if Child(e) then Children(entries[..n]) + {n} else Children(entries[..n]);
    OneMoreIndex(ds, Children(entries[..n]), n, Children(entries), Child(e));
    if Child(e) {
      MessageDescribes(c, e.kind.dir.entries);
      OpenListsChild(c, e, NodeOf(c, e));
    }
    NextChild(c, entries, ds);
    children := if Child(e) then ds + [n] else ds;
  }

  lemma {:induction false} NextFile(c: Codec, entries: seq<Entry>, files: seq<nat>)
    requires entries != []
    requires var before := entries[..|entries| - 1];
      InOrder(files, Files(before)) && ListsFiles(before, MessageFor(c, before).files, files)
    ensures var n := |entries| - 1; var e := entries[n];
      ListsFiles(entries, MessageFor(c, entries).files,
        if e.kind.Regular? && e.kind.uploaded then files + [n] else files)
  {
    forall i | 0 <= i < |files| ensures files[i] in Files(entries[..|entries| - 1]) {}
  }

  lemma {:induction false} NextSymlink(c: Codec, entries: seq<Entry>, symlinks: seq<nat>)
    requires entries != []
    requires var before := entries[..|entries| - 1];
      InOrder(symlinks, Symlinks(before)) && ListsSymlinks(before, MessageFor(c, before).symlinks, symlinks)
    ensures var n := |entries| - 1; var e := entries[n];
      ListsSymlinks(entries, MessageFor(c, entries).symlinks,
        if e.kind.Symlink? && e.kind.read then symlinks + [n] else symlinks)
  {
    forall i | 0 <= i < |symlinks| ensures symlinks[i] in Symlinks(entries[..|entries| - 1]) {}
  }

  ghost function NodeOf(c: Codec, e: Entry): DirectoryNode
    requires Child(e)
  {
    DirectoryNode(e.name, DigestOf(c, e.kind.dir))
  }

  lemma {:induction false} NextChild(c: Codec, entries: seq<Entry>, children: seq<nat>)
    requires entries != []
    requires var before := entries[..|entries| - 1];
      InOrder(children, Children(before)) && ListsChildren(c, before, MessageFor(c, before).directories, children)
    requires var e := entries[|entries| - 1]; Child(e) ==> ListsChild(c, e, NodeOf(c, e))
    ensures var n := |entries| - 1; var e := entries[n];
      ListsChildren(c, entries, MessageFor(c, entries).directories, if Child(e) then children + [n] else children)
  {
    var n := |entries| - 1;
    var e, before := entries[n], entries[..n];
    var nodes := MessageFor(c, before).directories;
    assert MessageFor(c, entries).directories == if Child(e) then nodes + [NodeOf(c, e)] else nodes;
    forall i | 0 <= i < |children|
      ensures children[i] in Children(before) && before[children[i]] == entries[children[i]] {}
  }

  /** The message that is built describes the directory ... */
  lemma {:induction false} MessageDescribes(c: Codec, entries: seq<Entry>)
    ensures Describes(c, entries, MessageFor(c, entries))
    decreases entries, 1
  {
    var files := FilesListed(c, entries);
    var children := ChildrenListed(c, entries);
    var symlinks := SymlinksListed(c, entries);
  }

  lemma {:induction false} LastIsMost(a: seq<nat>, s: set<nat>)
    requires InOrder(a, s) && a != []
    ensures a[|a| - 1] in s && forall k :: k in s ==> k <= a[|a| - 1]
  {
    forall k | k in s ensures k <= a[|a| - 1] {
      var i :| 0 <= i < |a| && a[i] == k;
    }
  }

  lemma {:induction false} EmptyOrder(a: seq<nat>, s: set<nat>)
    requires InOrder(a, s)
    ensures a == [] <==> s == {}
  {
    if a != [] { assert a[0] in s; }
  }

  lemma {:induction false} SameOrder(a: seq<nat>, b: seq<nat>, s: set<nat>)
    requires InOrder(a, s) && InOrder(b, s)
    ensures a == b
    decreases |a|
  {
    EmptyOrder(a, s);
    EmptyOrder(b, s);
    if s != {} {
      LastIsMost(a, s);
      LastIsMost(b, s);
      var x := a[|a| - 1];
      Shorter(a, s);
      Shorter(b, s);
      SameOrder(a[..|a| - 1], b[..|b| - 1], s - {x});
      assert a == a[..|a| - 1] + [x] && b == b[..|b| - 1] + [x];
    }
  }

  lemma {:induction false} Shorter(a: seq<nat>, s: set<nat>)
    requires InOrder(a, s) && a != []
    ensures InOrder(a[..|a| - 1], s - {a[|a| - 1]})
  {
    var n := |a| - 1;
    var b := a[..n];
    assert forall i :: 0 <= i < n ==> b[i] == a[i] && b[i] in a && b[i] < a[n];
    forall k ensures k in s - {a[n]} <==> k in b {
      if k in s - {a[n]} {
        var i :| 0 <= i < |a| && a[i] == k;
        assert b[i] == k;
      }
    }
  }

  /** ... and is the only one that does. */
  lemma {:induction false} OnlyMessage(c: Codec, entries: seq<Entry>, m: Message)
    requires Describes(c, entries, m)
    ensures m == MessageFor(c, entries)
    decreases entries
  {
    var fs, ds, ls :|
      && InOrder(fs, Files(entries)) && InOrder(ds, Children(entries)) && InOrder(ls, Symlinks(entries))
      && ListsFiles(entries, m.files, fs) && ListsSymlinks(entries, m.symlinks, ls)
      && ListsChildren(c, entries, m.directories, ds);
    var files := FilesListed(c, entries);
    var children := ChildrenListed(c, entries);
    var symlinks := SymlinksListed(c, entries);
    SameOrder(fs, files, Files(entries));
    SameOrder(ds, children, Children(entries));
    SameOrder(ls, symlinks, Symlinks(entries));
    var n := MessageFor(c, entries);
    forall i | 0 <= i < |files| ensures m.files[i] == n.files[i] { assert files[i] in Files(entries); }
    forall i | 0 <= i < |symlinks| ensures m.symlinks[i] == n.symlinks[i] { assert symlinks[i] in Symlinks(entries); }
    forall i | 0 <= i < |children| ensures m.directories[i] == n.directories[i] {
      assert children[i] in Children(entries);
      var below := entries[children[i]].kind.dir.entries;
      OpenListsChild(c, entries[children[i]], m.directories[i]);
      OpenListsChild(c, entries[children[i]], n.directories[i]);
      var x :| m.directories[i].digest == c.digest(c.marshal(x)) && Describes(c, below, x);
      var y :| n.directories[i].digest == c.digest(c.marshal(y)) && Describes(c, below, y);
      OnlyMessage(c, below, x);
      OnlyMessage(c, below, y);
    }
  }

  /** These bytes are those of a message that describes the directory. */
  ghost predicate Holds(c: Codec, d: Dir, b: Bytes) {
    exists m :: b == c.marshal(m) && Describes(c, d.entries, m)
  }

  /** The digest of such a message. */
  ghost predicate Identifies(c: Codec, d: Dir, digest: Digest) {
    exists b :: Holds(c, d, b) && digest == c.digest(b)
  }

  lemma {:induction false} DigestIdentifies(c: Codec, d: Dir)
    ensures Identifies(c, d, DigestOf(c, d))
  {
    HoldsExact(c, d, DataOf(c, d));
  }

  lemma {:induction false} HoldsExact(c: Codec, d: Dir, b: Bytes)
    ensures Holds(c, d, b) <==> b == DataOf(c, d)
  {
    MessageDescribes(c, d.entries);
    if m :| b == c.marshal(m) && Describes(c, d.entries, m) {
      OnlyMessage(c, d.entries, m);
    }
  }

  // ----- What goes wrong -----

  /** Why something is missing from the Tree. */
  datatype Problem = FileNotStored(name: Name) | NotEntered(name: Name) | NotReadable | SymlinkNotRead(name: Name)

  /** All that goes wrong with the first entries of a directory, in order. */
  ghost function Problems(entries: seq<Entry>): seq<Problem> {
    if entries == [] then []
    else Problems(entries[..|entries| - 1]) + ProblemsWith(entries[|entries| - 1])
  }

  ghost function ProblemsWith(e: Entry): seq<Problem> {
    match e.kind
    case Regular(uploaded, _, _) => if uploaded then [] else [FileNotStored(e.name)]
    case Subdirectory(entered, dir) => if entered then ProblemsOf(dir) else [NotEntered(e.name)]
    case Symlink(read, _) => if read then [] else [SymlinkNotRead(e.name)]
    case Other => []
  }

  ghost function ProblemsOf(d: Dir): seq<Problem> { if d.readable then Problems(d.entries) else [NotReadable] }

  /** Everything below can be read and uploaded. */
  ghost predicate Intact(d: Dir) {
    d.readable && forall k :: 0 <= k < |d.entries| ==> EntryIntact(d.entries[k])
  }

  ghost predicate EntryIntact(e: Entry) {
    match e.kind
    case Regular(uploaded, _, _) => uploaded
    case Subdirectory(entered, dir) => entered && Intact(dir)
    case Symlink(read, _) => read
    case Other => true
  }

  /** There is a problem unless everything below is intact. */
  lemma {:induction false} NoProblems(entries: seq<Entry>)
    ensures Problems(entries) == [] <==> forall k :: 0 <= k < |entries| ==> EntryIntact(entries[k])
    decreases entries
  {
    if entries != [] {
      var n := |entries| - 1;
      NoProblems(entries[..n]);
      var e := entries[n];
      if e.kind.Subdirectory? { NoProblems(e.kind.dir.entries); }
      assert ProblemsWith(e) == [] <==> EntryIntact(e);
      assert forall k :: 0 <= k < n ==> entries[..n][k] == entries[k];
    }
  }

  lemma {:induction false} IntactIff(d: Dir)
    ensures ProblemsOf(d) == [] <==> Intact(d)
  {
    NoProblems(d.entries);
  }

  ghost function FirstOf(first: Option<Problem>, problems: seq<Problem>): Option<Problem> {
    if first.Some? || problems == [] then first else Some(problems[0])
  }

  lemma {:induction false} FirstOfBoth(first: Option<Problem>, a: seq<Problem>, b: seq<Problem>)
    ensures FirstOf(FirstOf(first, a), b) == FirstOf(first, a + b)
  {
  }

  // ----- Directories do not contain themselves -----

  /** How deep the directories below the first entries go. */
  ghost function Height(entries: seq<Entry>): nat {
    if entries == [] then 0
    else
      var h, e := Height(entries[..|entries| - 1]), entries[|entries| - 1];
      if Child(e) then Max(h, 1 + Height(e.kind.dir.entries)) else h
  }

  /** The message of a directory, through the digests it has, tells how deep the directory is. */
  lemma {:induction false} SameHeight(c: Codec, es: seq<Entry>, fs: seq<Entry>)
    requires Injective(c) && MessageFor(c, es).directories == MessageFor(c, fs).directories
    ensures Height(es) == Height(fs)
    decreases es, fs
  {
    if es != [] && !Child(es[|es| - 1]) {
      SameHeight(c, es[..|es| - 1], fs);
    } else if fs != [] && !Child(fs[|fs| - 1]) {
      SameHeight(c, es, fs[..|fs| - 1]);
    } else if es != [] && fs != [] {
      var e, f := es[|es| - 1], fs[|fs| - 1];
      var a, b := MessageFor(c, es[..|es| - 1]).directories, MessageFor(c, fs[..|fs| - 1]).directories;
      var x, y := MessageFor(c, e.kind.dir.entries), MessageFor(c, f.kind.dir.entries);
      SameEnds(a, DirectoryNode(e.name, c.digest(c.marshal(x))), b, DirectoryNode(f.name, c.digest(c.marshal(y))));
      assert c.digest(c.marshal(x)) == c.digest(c.marshal(y)) && c.marshal(x) == c.marshal(y);
      SameHeight(c, es[..|es| - 1], fs[..|fs| - 1]);
      SameHeight(c, e.kind.dir.entries, f.kind.dir.entries);
    }
  }

  lemma {:induction false} SameEnds<T>(a: seq<T>, x: T, b: seq<T>, y: T)
    requires a + [x] == b + [y]
    ensures a == b && x == y
  {
    assert (a + [x])[|a|] == x && (b + [y])[|b|] == y;
    assert a == (a + [x])[..|a|] && b == (b + [y])[..|b|];
  }

  lemma {:induction false} HeightOfChild(entries: seq<Entry>, k: nat)
    requires k < |entries| && Child(entries[k])
    ensures Height(entries[k].kind.dir.entries) < Height(entries)
  {
    if k < |entries| - 1 { HeightOfChild(entries[..|entries| - 1], k); }
  }

  lemma {:induction false} HeightWithin(x: Dir, d: Dir)
    requires Within(x, d)
    ensures Height(x.entries) <= Height(d.entries)
    decreases d
  {
    if x != d {
      var k :| 0 <= k < |d.entries| && Child(d.entries[k]) && Within(x, d.entries[k].kind.dir);
      HeightWithin(x, d.entries[k].kind.dir);
      HeightOfChild(d.entries, k);
    }
  }

  /** A directory is different from all that is below it. */
  lemma {:induction false} NotBelowItself(c: Codec, x: Dir, d: Dir, k: nat)
    requires Injective(c) && k < |d.entries| && Child(d.entries[k]) && Within(x, d.entries[k].kind.dir)
    ensures DataOf(c, x) != DataOf(c, d)
  {
    HeightWithin(x, d.entries[k].kind.dir);
    HeightOfChild(d.entries, k);
    if DataOf(c, x) == DataOf(c, d) {
      SameHeight(c, x.entries, d.entries);
    }
  }

  // ----- Collecting directories -----

  /** Every directory is preceded by those it references. */
  ghost predicate Referenced(c: Codec, directories: seq<Bytes>, m: Message, i: nat)
    requires i <= |directories|
  {
    forall n :: n in m.directories ==> exists j :: 0 <= j < i && c.digest(directories[j]) == n.digest
  }

  ghost predicate Seen(c: Codec, directories: seq<Bytes>, seen: map<Digest, Bytes>) {
    && (forall i :: 0 <= i < |directories| ==> c.digest(directories[i]) in seen)
    && (forall g :: g in seen ==>
      exists i :: 0 <= i < |directories| && directories[i] == seen[g] && c.digest(directories[i]) == g)
  }

  ghost predicate Collected(c: Codec, directories: seq<Bytes>, messages: seq<Message>) {
    && |messages| == |directories|
    && (forall i :: 0 <= i < |directories| ==>
      directories[i] == c.marshal(messages[i]) && Referenced(c, directories, messages[i], i))
    && (forall i, j :: 0 <= i < j < |directories| ==> directories[i] != directories[j])
  }

  /** uploadOutputDirectoryState */
  class Collector {
    const c: Codec
    var directories: seq<Bytes>
    var directoriesSeen: map<Digest, Bytes>
    var firstError: Option<Problem>
    ghost var messages: seq<Message>

    ghost predicate Valid()
      reads this
    {
      Collected(c, directories, messages) && Seen(c, directories, directoriesSeen)
    }

    constructor (c: Codec)
      ensures Valid() && this.c == c && directories == [] && firstError == None
    {
      this.c, directories, directoriesSeen, firstError, messages := c, [], map[], None, [];
    }

    /** saveError() */
    method SaveError(problem: Problem)
      modifies `firstError
      ensures firstError == FirstOf(old(firstError), [problem])
    {
      if firstError.None? { firstError := Some(problem); }
    }

    /** uploadDirectory() */
    method UploadDirectory(d: Dir) returns (digest: Option<Digest>)
      requires Valid() && Injective(c)
      modifies this
      ensures Valid() && old(directories) <= directories
      ensures digest == if d.readable then Some(DigestOf(c, d)) else None
      ensures if d.readable then Complete(c, d, directories)
        else directories == old(directories) && directoriesSeen == old(directoriesSeen)
      ensures forall k {:trigger FromWithin(c, d, directories[k])} ::
        |old(directories)| <= k < |directories| ==> FromWithin(c, d, directories[k])
      ensures d.readable && DataOf(c, d) !in old(directories) ==>
        |directories| > 0 && directories[|directories| - 1] == DataOf(c, d)
      ensures firstError == if d.readable then FirstOf(old(firstError), ProblemsOf(d)) else old(firstError)
      decreases d, 1
    {
      if !d.readable { return None; }
      var directory := UploadEntries(d);
      ghost var before := directories;
      AddDirectory(directory);
      digest := Some(c.digest(c.marshal(directory)));
      UploadDone(c, d, old(directories), before, directories);
    }

    method UploadEntries(d: Dir) returns (directory: Message)
      requires Valid() && Injective(c)
      modifies this
      ensures Valid() && old(directories) <= directories && directory == MessageFor(c, d.entries)
      ensures forall n :: n in directory.directories ==> n.digest in directoriesSeen
      ensures ChildrenComplete(c, d, |d.entries|, directories)
      ensures forall k {:trigger FromChild(c, d, |d.entries|, directories[k])} ::
        |old(directories)| <= k < |directories| ==> FromChild(c, d, |d.entries|, directories[k])
      ensures firstError == FirstOf(old(firstError), Problems(d.entries))
      decreases d, 0, 1
    {
      directory := Message([], [], []);
      var i: nat := 0;
      while i < |d.entries|
        invariant i <= |d.entries| && Valid() && old(directories) <= directories
        invariant directory == MessageFor(c, d.entries[..i])
        invariant forall n :: n in directory.directories ==> n.digest in directoriesSeen
        invariant ChildrenComplete(c, d, i, directories)
        invariant firstError == FirstOf(old(firstError), Problems(d.entries[..i]))
        invariant forall k {:trigger FromChild(c, d, i, directories[k])} :: |old(directories)| <= k < |directories| ==>
          FromChild(c, d, i, directories[k])
      {
        ghost var before := directories;
        directory := UploadEntry(d, i, directory);
        EntryDone(c, d, i, old(directories), before, directories);
        MessageNext(c, d.entries, i);
        FirstOfBoth(old(firstError), Problems(d.entries[..i]), ProblemsWith(d.entries[i]));
        i := i + 1;
      }
      assert d.entries[..i] == d.entries;
    }

    /** One entry of a directory. */
    method UploadEntry(d: Dir, i: nat, before: Message) returns (directory: Message)
      requires Valid() && Injective(c) && i < |d.entries| && before == MessageFor(c, d.entries[..i])
      requires forall n :: n in before.directories ==> n.digest in directoriesSeen
      modifies this
      ensures Valid() && old(directories) <= directories && directory == MessageFor(c, d.entries[..i + 1])
      ensures forall n :: n in directory.directories ==> n.digest in directoriesSeen
      ensures if Child(d.entries[i]) then Complete(c, d.entries[i].kind.dir, directories)
        else directories == old(directories)
      ensures Child(d.entries[i]) ==>
        forall k {:trigger FromWithin(c, d.entries[i].kind.dir, directories[k])} ::
          |old(directories)| <= k < |directories| ==> FromWithin(c, d.entries[i].kind.dir, directories[k])
      ensures firstError == FirstOf(old(firstError), ProblemsWith(d.entries[i]))
      decreases d, 0, 0
    {
      var e := d.entries[i];
      directory := before;
      MessageNext(c, d.entries, i);
      match e.kind {
        case Regular(uploaded, digest, executable) =>
          if uploaded {
            directory := directory.(files := directory.files + [FileNode(e.name, digest, executable)]);
          } else {
            SaveError(FileNotStored(e.name));
          }
        case Subdirectory(entered, dir) =>
          if entered {
            var digest := UploadDirectory(dir);
            StillSeen(c, old(directories), old(directoriesSeen), directories, directoriesSeen);
            if digest.Some? {
              directory := directory.(directories := directory.directories + [DirectoryNode(e.name, digest.value)]);
              SeenDigest(c, dir, directories, directoriesSeen);
            } else {
              SaveError(NotReadable);
            }
          } else {
            SaveError(NotEntered(e.name));
          }
        case Symlink(read, target) =>
          if read {
            directory := directory.(symlinks := directory.symlinks + [SymlinkNode(e.name, target)]);
          } else {
            SaveError(SymlinkNotRead(e.name));
          }
        case Other =>
      }
    }

    /** The last part of uploadDirectory(): the directory is added, unless an identical one has been seen. */
    method AddDirectory(directory: Message)
      requires Valid() && Injective(c) && forall n :: n in directory.directories ==> n.digest in directoriesSeen
      modifies `directories, `directoriesSeen, `messages
      ensures Valid()
      ensures directories == if c.marshal(directory) in old(directories) then old(directories)
        else old(directories) + [c.marshal(directory)]
    {
      var data := c.marshal(directory);
      if c.digest(data) !in directoriesSeen {
        Added(c, directories, messages, directory);
        SeenAdded(c, directories, directoriesSeen, data);
        directories, messages := directories + [data], messages + [directory];
        directoriesSeen := directoriesSeen[c.digest(data) := data];
      }
    }
  }

  /** All of `d` is there. */
  ghost predicate Complete(c: Codec, d: Dir, directories: seq<Bytes>) {
    forall x :: Within(x, d) ==> DataOf(c, x) in directories
  }

  ghost predicate FromWithin(c: Codec, d: Dir, b: Bytes) { exists x :: Within(x, d) && DataOf(c, x) == b }

  /** All of the first `n` entries is there. */
  ghost predicate ChildrenComplete(c: Codec, d: Dir, n: nat, directories: seq<Bytes>)
    requires n <= |d.entries|
  {
    forall k :: 0 <= k < n && Child(d.entries[k]) ==> Complete(c, d.entries[k].kind.dir, directories)
  }

  ghost predicate FromChild(c: Codec, d: Dir, n: nat, b: Bytes)
    requires n <= |d.entries|
  {
    exists k :: 0 <= k < n && Child(d.entries[k]) && FromWithin(c, d.entries[k].kind.dir, b)
  }

  lemma {:induction false} MessageNext(c: Codec, entries: seq<Entry>, i: nat)
    requires i < |entries|
    ensures entries[..i + 1][..i] == entries[..i] && entries[..i + 1][i] == entries[i]
  {
  }

  lemma {:induction false} CompleteMore(c: Codec, d: Dir, a: seq<Bytes>, b: seq<Bytes>)
    requires Complete(c, d, a) && a <= b
    ensures Complete(c, d, b)
  {
  }

  /** One more entry has been dealt with. */
  lemma {:induction false} EntryDone(c: Codec, d: Dir, i: nat, first: seq<Bytes>, before: seq<Bytes>, after: seq<Bytes>)
    requires i < |d.entries| && first <= before <= after && ChildrenComplete(c, d, i, before)
    requires forall k {:trigger FromChild(c, d, i, before[k])} :: |first| <= k < |before| ==>
      FromChild(c, d, i, before[k])
    requires if Child(d.entries[i]) then Complete(c, d.entries[i].kind.dir, after) else after == before
    requires Child(d.entries[i]) ==>
      forall k {:trigger FromWithin(c, d.entries[i].kind.dir, after[k])} ::
        |before| <= k < |after| ==> FromWithin(c, d.entries[i].kind.dir, after[k])
    ensures ChildrenComplete(c, d, i + 1, after)
    ensures forall k {:trigger FromChild(c, d, i + 1, after[k])} :: |first| <= k < |after| ==>
      FromChild(c, d, i + 1, after[k])
  {
    forall k | 0 <= k < i && Child(d.entries[k]) ensures Complete(c, d.entries[k].kind.dir, after) {
      CompleteMore(c, d.entries[k].kind.dir, before, after);
    }
    forall k | |first| <= k < |after| ensures FromChild(c, d, i + 1, after[k]) {
      if k < |before| { assert FromChild(c, d, i, before[k]); }
    }
  }

  lemma {:induction false} CompleteFromChildren(c: Codec, d: Dir, before: seq<Bytes>, after: seq<Bytes>)
    requires ChildrenComplete(c, d, |d.entries|, before) && before <= after && DataOf(c, d) in after
    ensures Complete(c, d, after)
  {
    forall x | Within(x, d) ensures DataOf(c, x) in after {
      if x != d {
        var k :| 0 <= k < |d.entries| && Child(d.entries[k]) && Within(x, d.entries[k].kind.dir);
        assert Complete(c, d.entries[k].kind.dir, before);
      }
    }
  }

  /** What uploadDirectory() has achieved, given what was there on entry, after the entries, and at the end. */
  lemma {:induction false} UploadDone(c: Codec, d: Dir, first: seq<Bytes>, before: seq<Bytes>, after: seq<Bytes>)
    requires Injective(c) && first <= before && ChildrenComplete(c, d, |d.entries|, before)
    requires forall k {:trigger FromChild(c, d, |d.entries|, before[k])} :: |first| <= k < |before| ==>
      FromChild(c, d, |d.entries|, before[k])
    requires after == if DataOf(c, d) in before then before else before + [DataOf(c, d)]
    ensures Complete(c, d, after)
    ensures forall k {:trigger FromWithin(c, d, after[k])} :: |first| <= k < |after| ==> FromWithin(c, d, after[k])
    ensures DataOf(c, d) !in first ==> |after| > 0 && after[|after| - 1] == DataOf(c, d)
  {
    assert DataOf(c, d) in after;
    CompleteFromChildren(c, d, before, after);
    forall k | |first| <= k < |after| ensures FromWithin(c, d, after[k]) {
      if k < |before| { WithinFromChild(c, d, |d.entries|, before[k]); } else { assert Within(d, d); }
    }
    forall k | |first| <= k < |before| ensures before[k] != DataOf(c, d) { NotFromChild(c, d, |d.entries|, before[k]); }
  }

  lemma {:induction false} WithinFromChild(c: Codec, d: Dir, n: nat, b: Bytes)
    requires n <= |d.entries| && FromChild(c, d, n, b)
    ensures FromWithin(c, d, b)
  {
    var k :| 0 <= k < n && Child(d.entries[k]) && FromWithin(c, d.entries[k].kind.dir, b);
    var x :| Within(x, d.entries[k].kind.dir) && DataOf(c, x) == b;
    assert Within(x, d);
  }

  lemma {:induction false} NotFromChild(c: Codec, d: Dir, n: nat, b: Bytes)
    requires Injective(c) && n <= |d.entries| && FromChild(c, d, n, b)
    ensures b != DataOf(c, d)
  {
    var k :| 0 <= k < n && Child(d.entries[k]) && FromWithin(c, d.entries[k].kind.dir, b);
    var x :| Within(x, d.entries[k].kind.dir) && DataOf(c, x) == b;
    NotBelowItself(c, x, d, k);
  }

  lemma {:induction false} SeenDigest(c: Codec, d: Dir, directories: seq<Bytes>, seen: map<Digest, Bytes>)
    requires Complete(c, d, directories) && Seen(c, directories, seen)
    ensures DigestOf(c, d) in seen
  {
    assert Within(d, d);
    var i :| 0 <= i < |directories| && directories[i] == DataOf(c, d);
  }

  lemma {:induction false} StillSeen(
    c: Codec, a: seq<Bytes>, seen: map<Digest, Bytes>, b: seq<Bytes>, seen': map<Digest, Bytes>)
    requires Seen(c, a, seen) && Seen(c, b, seen') && a <= b
    ensures forall g :: g in seen ==> g in seen'
  {
    forall g | g in seen ensures g in seen' {
      var i :| 0 <= i < |a| && a[i] == seen[g] && c.digest(a[i]) == g;
      assert b[i] == a[i];
    }
  }

  lemma {:induction false} SeenAdded(c: Codec, directories: seq<Bytes>, seen: map<Digest, Bytes>, data: Bytes)
    requires Seen(c, directories, seen) && Injective(c) && c.digest(data) !in seen
    ensures Seen(c, directories + [data], seen[c.digest(data) := data]) && data !in directories
  {
    var directories', seen' := directories + [data], seen[c.digest(data) := data];
    forall g | g in seen'
      ensures exists i :: 0 <= i < |directories'| && directories'[i] == seen'[g] && c.digest(directories'[i]) == g
    {
      if g == c.digest(data) {
        assert directories'[|directories|] == data;
      } else {
        var i :| 0 <= i < |directories| && directories[i] == seen[g] && c.digest(directories[i]) == g;
        assert directories'[i] == directories[i];
      }
    }
  }

  lemma {:induction false} Added(c: Codec, directories: seq<Bytes>, messages: seq<Message>, m: Message)
    requires Collected(c, directories, messages) && c.marshal(m) !in directories
    requires Referenced(c, directories, m, |directories|)
    ensures Collected(c, directories + [c.marshal(m)], messages + [m])
  {
    var ds, ms := directories + [c.marshal(m)], messages + [m];
    forall i | 0 <= i < |ds| ensures ds[i] == c.marshal(ms[i]) && Referenced(c, ds, ms[i], i) {
      if i < |directories| {
        assert Referenced(c, directories, messages[i], i);
        forall n | n in ms[i].directories ensures exists j :: 0 <= j < i && c.digest(ds[j]) == n.digest {
          var j :| 0 <= j < i && c.digest(directories[j]) == n.digest;
          assert ds[j] == directories[j];
        }
      } else {
        forall n | n in m.directories ensures exists j :: 0 <= j < i && c.digest(ds[j]) == n.digest {
          var j :| 0 <= j < i && c.digest(directories[j]) == n.digest;
          assert ds[j] == directories[j];
        }
      }
    }
  }

  // ----- The Tree -----

  /** The fields of a Tree that lists each directory once, starting with the root, and before any directory it
      references. */
  ghost predicate IsTreeOf(c: Codec, d: Dir, fs: seq<Field>) {
    && fs != [] && fs[0] == Field(ROOT_TAG, DataOf(c, d))
    && (forall k :: 1 <= k < |fs| ==> fs[k].tag == CHILDREN_TAG)
    && ListsOnce(c, d, fs) && TopologicallySorted(c, fs)
  }

  ghost predicate ListsOnce(c: Codec, d: Dir, fs: seq<Field>) {
    && (forall i, j :: 0 <= i < j < |fs| ==> fs[i].data != fs[j].data)
    && (forall x :: Within(x, d) ==> exists k :: 0 <= k < |fs| && fs[k].data == DataOf(c, x))
    && (forall k {:trigger FromWithin(c, d, fs[k].data)} :: 0 <= k < |fs| ==> FromWithin(c, d, fs[k].data))
  }

  /** Every directory below `d` is listed, and nothing else is. */
  ghost predicate HoldsAll(c: Codec, d: Dir, fs: seq<Field>) {
    && (forall x :: Within(x, d) ==> HeldBy(c, x, fs))
    && (forall k {:trigger HeldWithin(c, d, fs[k].data)} :: 0 <= k < |fs| ==> HeldWithin(c, d, fs[k].data))
  }

  ghost predicate HeldBy(c: Codec, x: Dir, fs: seq<Field>) { exists k :: 0 <= k < |fs| && Holds(c, x, fs[k].data) }

  ghost predicate HeldWithin(c: Codec, d: Dir, b: Bytes) { exists x :: Within(x, d) && Holds(c, x, b) }

  /** The Tree starts with a message that describes `d`, and consists of those that describe the directories below it.
      (The layers are there for the verifier, which is to look at the definition only where it is opened.) */
  ghost predicate TreeDescribes(c: Codec, d: Dir, fs: seq<Field>, layers: nat := 3)
    decreases fs, layers
  {
    if layers == 0 then fs != [] && fs[0].tag == ROOT_TAG && Holds(c, d, fs[0].data) && HoldsAll(c, d, fs)
    else TreeDescribes(c, d, fs, layers - 1)
  }

  lemma {:induction false} OpenTreeDescribes(c: Codec, d: Dir, fs: seq<Field>)
    ensures TreeDescribes(c, d, fs) <==>
      fs != [] && fs[0].tag == ROOT_TAG && Holds(c, d, fs[0].data) && HoldsAll(c, d, fs)
  {
    assert TreeDescribes(c, d, fs) == TreeDescribes(c, d, fs, 2);
    assert TreeDescribes(c, d, fs, 2) == TreeDescribes(c, d, fs, 1);
    assert TreeDescribes(c, d, fs, 1) == TreeDescribes(c, d, fs, 0);
  }

  lemma {:induction false} FromHeld(c: Codec, d: Dir, b: Bytes)
    requires FromWithin(c, d, b)
    ensures HeldWithin(c, d, b)
  {
    var x :| Within(x, d) && DataOf(c, x) == b;
    HoldsExact(c, x, b);
  }

  lemma {:induction false} EachHeld(c: Codec, d: Dir, fs: seq<Field>)
    requires forall x :: Within(x, d) ==> exists k :: 0 <= k < |fs| && fs[k].data == DataOf(c, x)
    ensures forall x :: Within(x, d) ==> HeldBy(c, x, fs)
  {
    forall x | Within(x, d) ensures HeldBy(c, x, fs) {
      var k :| 0 <= k < |fs| && fs[k].data == DataOf(c, x);
      HoldsExact(c, x, fs[k].data);
    }
  }

  lemma {:induction false} NothingElseHeld(c: Codec, d: Dir, fs: seq<Field>)
    requires forall k {:trigger FromWithin(c, d, fs[k].data)} :: 0 <= k < |fs| ==> FromWithin(c, d, fs[k].data)
    ensures forall k {:trigger HeldWithin(c, d, fs[k].data)} :: 0 <= k < |fs| ==> HeldWithin(c, d, fs[k].data)
  {
    forall k | 0 <= k < |fs| ensures HeldWithin(c, d, fs[k].data) {
      assert FromWithin(c, d, fs[k].data);
      FromHeld(c, d, fs[k].data);
    }
  }

  lemma {:induction false} TreeHolds(c: Codec, d: Dir, fs: seq<Field>)
    requires IsTreeOf(c, d, fs)
    ensures TreeDescribes(c, d, fs)
  {
    EachHeld(c, d, fs);
    NothingElseHeld(c, d, fs);
    HoldsExact(c, d, fs[0].data);
    OpenTreeDescribes(c, d, fs);
  }

  ghost predicate TopologicallySorted(c: Codec, fs: seq<Field>) {
    forall k, m, r :: 0 <= k < |fs| && fs[k].data == c.marshal(m) && r in m.directories ==>
      FollowedBy(c, fs, k, r.digest)
  }

  ghost predicate FollowedBy(c: Codec, fs: seq<Field>, k: nat, digest: Digest) {
    exists j :: k < j < |fs| && c.digest(fs[j].data) == digest
  }

  lemma {:induction false} FieldsListOnce(c: Codec, d: Dir, directories: seq<Bytes>, messages: seq<Message>)
    requires Collected(c, directories, messages) && Complete(c, d, directories)
    requires forall k {:trigger FromWithin(c, d, directories[k])} ::
        0 <= k < |directories| ==> FromWithin(c, d, directories[k])
    ensures ListsOnce(c, d, TreeFields(directories))
  {
    var fs, n := TreeFields(directories), |directories|;
    forall x | Within(x, d) ensures exists k :: 0 <= k < |fs| && fs[k].data == DataOf(c, x) {
      var i :| 0 <= i < n && directories[i] == DataOf(c, x);
      assert fs[n - 1 - i].data == directories[i];
    }
  }

  lemma {:induction false} FieldsAreSorted(c: Codec, directories: seq<Bytes>, messages: seq<Message>)
    requires Injective(c) && Collected(c, directories, messages)
    ensures TopologicallySorted(c, TreeFields(directories))
  {
    var fs, n := TreeFields(directories), |directories|;
    forall k, m, r | 0 <= k < |fs| && fs[k].data == c.marshal(m) && r in m.directories
      ensures FollowedBy(c, fs, k, r.digest)
    {
      var i := n - 1 - k;
      assert messages[i] == m && Referenced(c, directories, messages[i], i);
      var j :| 0 <= j < i && c.digest(directories[j]) == r.digest;
      assert fs[n - 1 - j].data == directories[j];
    }
  }

  lemma {:induction false} FieldsAreTree(c: Codec, d: Dir, directories: seq<Bytes>, messages: seq<Message>)
    requires Injective(c) && Collected(c, directories, messages) && Complete(c, d, directories)
    requires directories != [] && directories[|directories| - 1] == DataOf(c, d)
    requires forall k {:trigger FromWithin(c, d, directories[k])} ::
        0 <= k < |directories| ==> FromWithin(c, d, directories[k])
    ensures IsTreeOf(c, d, TreeFields(directories))
  {
    FieldsListOnce(c, d, directories, messages);
    FieldsAreSorted(c, directories, messages);
  }

  lemma {:induction false} TreeUploaded(c: Codec, d: Dir, directories: seq<Bytes>, messages: seq<Message>)
    requires Injective(c) && Collected(c, directories, messages) && Complete(c, d, directories)
    requires directories != [] && directories[|directories| - 1] == DataOf(c, d)
    requires forall k {:trigger FromWithin(c, d, directories[k])} ::
        0 <= k < |directories| ==> FromWithin(c, d, directories[k])
    ensures IsTreeOf(c, d, TreeFields(directories)) && DirectoriesOf(TreeFields(directories)) == directories
  {
    FieldsAreTree(c, d, directories, messages);
    DirectoriesBack(directories);
  }

  /** uploadOutputDirectoryEntered(), up to where the Tree is stored: nothing is uploaded if the directory cannot be
      read. What is can be read back, and lists the directories as `OutputDirectory.is_topologically_sorted` demands. */
  method UploadOutputDirectory(c: Codec, d: Dir) returns (tree: Option<Bytes>, firstError: Option<Problem>)
    requires Injective(c)
    ensures tree.Some? <==> d.readable
    ensures tree.Some? ==>
      && ReadFields(tree.value).Some? && IsTreeOf(c, d, ReadFields(tree.value).value)
      && TreeDescribes(c, d, ReadFields(tree.value).value)
      && |tree.value| <= MaximumTreeSize(DirectoriesOf(ReadFields(tree.value).value))
    ensures firstError == FirstOf(None, ProblemsOf(d)) && (firstError.None? <==> Intact(d))
  {
    IntactIff(d);
    var collector := new Collector(c);
    var digest := collector.UploadDirectory(d);
    if digest.None? {
      collector.SaveError(NotReadable);
      return None, collector.firstError;
    }
    TreeUploaded(c, d, collector.directories, collector.messages);
    TreeHolds(c, d, TreeFields(collector.directories));
    var treeData := BuildTree(collector.directories);
    tree, firstError := Some(treeData), collector.firstError;
  }
}
