/**
 pkg/filesystem/virtual/in_memory_prepopulated_directory.go: the entries of a directory, and listing
 them in parts while they change.
 */
module DirectoryContents {
  type Name = string

  /** A directory entry. Leaves may be hidden; directories never are. */
  datatype Entry = Entry(name: Name, normalizedName: Name, cookie: nat, isDirectory: bool, hidden: bool)

  predicate Visible(e: Entry) { e.isDirectory || !e.hidden }

  /** Cookies increase along the list. */
  ghost predicate Increasing(list: seq<Entry>) {
    forall i, j :: 0 <= i < j < |list| ==> list[i].cookie < list[j].cookie
  }

  ghost predicate Below(list: seq<Entry>, cookie: nat) { forall k :: 0 <= k < |list| ==> list[k].cookie < cookie }

  ghost predicate SameEntries(m: map<Name, Entry>, list: seq<Entry>) {
    && (forall k :: 0 <= k < |list| ==> list[k].normalizedName in m && m[list[k].normalizedName] == list[k])
    && (forall n :: n in m ==> m[n].normalizedName == n && m[n] in list)
  }

  lemma {:induction false} Appended(m: map<Name, Entry>, list: seq<Entry>, e: Entry)
    requires SameEntries(m, list) && e.normalizedName !in m
    ensures SameEntries(m[e.normalizedName := e], list + [e])
  {
    assert (list + [e])[|list|] == e;
  }

  lemma {:induction false} Removed(m: map<Name, Entry>, list: seq<Entry>, k: nat)
    requires SameEntries(m, list) && Increasing(list) && k < |list|
    ensures SameEntries(m - {list[k].normalizedName}, list[..k] + list[k + 1..])
  {
    var m', list' := m - {list[k].normalizedName}, list[..k] + list[k + 1..];
    forall n | n in m' ensures m'[n].normalizedName == n && m'[n] in list' {
      var i :| 0 <= i < |list| && list[i] == m[n];
      assert list'[if i < k then i else i - 1] == list[i];
    }
    forall i | 0 <= i < |list'| ensures list'[i].normalizedName in m' && m'[list'[i].normalizedName] == list'[i] {
      var j := if i < k then i else i + 1;
      assert list'[i] == list[j] && m[list[j].normalizedName] == list[j];
      assert list[j].cookie != list[k].cookie;
    }
  }

  lemma {:induction false} StillIncreasing(list: seq<Entry>, k: nat, id: nat, attached: set<Entry>)
    requires Increasing(list) && Below(list, id) && k < |list| && forall e :: e in list ==> e in attached
    ensures var r := list[..k] + list[k + 1..]; Increasing(r) && Below(r, id) && forall e :: e in r ==> e in attached
  {
    var r := list[..k] + list[k + 1..];
    assert forall i :: 0 <= i < |r| ==> r[i] == list[if i < k then i else i + 1];
  }

  datatype Status = Ok | NoEntry | Exists

  /** What others do to the directory while it is not locked. */
  datatype Change =
    | Attach(name: Name, normalizedName: Name, isDirectory: bool, hidden: bool)
    | Detach(normalizedName: Name)

  /** Where the entry with a given name is, or the length of the list if there is none. */
  ghost function IndexOf(list: seq<Entry>, normalizedName: Name): nat {
    if list == [] || list[0].normalizedName == normalizedName then 0 else 1 + IndexOf(list[1..], normalizedName)
  }

  lemma {:induction false} FirstIndex(list: seq<Entry>, normalizedName: Name, k: nat)
    requires k <= |list| && (forall i :: 0 <= i < k ==> list[i].normalizedName != normalizedName)
    requires k < |list| ==> list[k].normalizedName == normalizedName
    ensures IndexOf(list, normalizedName) == k
  {
    if k > 0 { FirstIndex(list[1..], normalizedName, k - 1); }
  }

  /** There is no other entry by that name. */
  lemma {:induction false} OnlyIndex(m: map<Name, Entry>, list: seq<Entry>, k: nat)
    requires SameEntries(m, list) && Increasing(list) && k < |list|
    ensures IndexOf(list, list[k].normalizedName) == k
  {
    forall i | 0 <= i < k ensures list[i].normalizedName != list[k].normalizedName {
      assert list[i].cookie != list[k].cookie;
    }
    FirstIndex(list, list[k].normalizedName, k);
  }

  /** The list and the cookie for the next entry, after a change that is possible only if there is no entry by that name
      yet and the directory still exists, or if there is one. */
  ghost function AfterChange(list: seq<Entry>, id: nat, deleted: bool, change: Change): (seq<Entry>, nat) {
    match change
    case Attach(name, normalizedName, isDirectory, hidden) =>
      if deleted || IndexOf(list, normalizedName) < |list| then (list, id)
      else (list + [Entry(name, normalizedName, id, isDirectory, hidden)], id + 1)
    case Detach(normalizedName) =>
      var k := IndexOf(list, normalizedName);
      if k < |list| then (list[..k] + list[k + 1..], id + 1) else (list, id)
  }

  ghost function AfterChanges(list: seq<Entry>, id: nat, deleted: bool, changes: seq<Change>): (seq<Entry>, nat) {
    if changes == [] then (list, id)
    else
      var (list', id') := AfterChanges(list, id, deleted, changes[..|changes| - 1]);
      AfterChange(list', id', deleted, changes[|changes| - 1])
  }

  /** After the first `n` groups of changes. */
  ghost function AfterGroups(
    list: seq<Entry>, id: nat, deleted: bool, groups: seq<seq<Change>>, n: nat): (seq<Entry>, nat)
    requires n <= |groups|
  {
    if n == 0 then (list, id)
    else
      var (list', id') := AfterGroups(list, id, deleted, groups, n - 1);
      AfterChanges(list', id', deleted, groups[n - 1])
  }

  /** What `n` groups of changes lead to. (The layers are there for the verifier, which is to look at the definition
      only where it is opened.) */
  ghost predicate Reaches(
    o: Origin, deleted: bool, groups: seq<seq<Change>>, n: nat, list: seq<Entry>, id: nat, layers: nat := 3)
    decreases o, layers
  {
    if layers == 0 then n <= |groups| && (list, id) == AfterGroups(o.list, o.id, deleted, groups, n)
    else Reaches(o, deleted, groups, n, list, id, layers - 1)
  }

  lemma {:induction false} OpenReaches(
    o: Origin, deleted: bool, groups: seq<seq<Change>>, n: nat, list: seq<Entry>, id: nat)
    ensures Reaches(o, deleted, groups, n, list, id) <==>
      n <= |groups| && (list, id) == AfterGroups(o.list, o.id, deleted, groups, n)
  {
    assert Reaches(o, deleted, groups, n, list, id) == Reaches(o, deleted, groups, n, list, id, 2);
    assert Reaches(o, deleted, groups, n, list, id, 2) == Reaches(o, deleted, groups, n, list, id, 1);
    assert Reaches(o, deleted, groups, n, list, id, 1) == Reaches(o, deleted, groups, n, list, id, 0);
  }

  class Contents {
    var entriesMap: map<Name, Entry>
    var entriesList: seq<Entry>
    var isDeleted: bool
    var changeID: nat
    ghost var attached: set<Entry>           // all entries that have ever been attached

    /** The map and the list hold the same entries, and cookies increase along the list and are below `changeID`. */
    ghost predicate Valid()
      reads this
    {
      && SameEntries(entriesMap, entriesList) && Increasing(entriesList) && Below(entriesList, changeID)
      && (forall e :: e in entriesList ==> e in attached) && (forall e :: e in attached ==> e.cookie < changeID)
    }

    /** initialize() */
    constructor ()
      ensures Valid() && entriesList == [] && attached == {}
    {
      entriesMap, entriesList, isDeleted, changeID, attached := map[], [], false, 0, {};
    }

    /** mayAttach() */
    function MayAttach(normalizedName: Name): Status
      reads this
    {
      if isDeleted then NoEntry else if normalizedName in entriesMap then Exists else Ok
    }

    /** attach() */
    method AttachEntry(name: Name, normalizedName: Name, isDirectory: bool, hidden: bool)
      requires Valid() && MayAttach(normalizedName).Ok?
      modifies `entriesMap, `entriesList, `changeID, `attached
      ensures Valid() && changeID == old(changeID) + 1
      ensures entriesList == old(entriesList) + [Entry(name, normalizedName, old(changeID), isDirectory, hidden)]
      ensures attached == old(attached) + {Entry(name, normalizedName, old(changeID), isDirectory, hidden)}
    {
      var entry := Entry(name, normalizedName, changeID, isDirectory, hidden);
      Appended(entriesMap, entriesList, entry);
      entriesMap := entriesMap[normalizedName := entry];
      entriesList := entriesList + [entry];
      attached := attached + {entry};
      changeID := changeID + 1;
    }

    /** detach() */
    method DetachEntry(k: nat)
      requires Valid() && k < |entriesList|
      modifies `entriesMap, `entriesList, `changeID
      ensures Valid() && changeID == old(changeID) + 1
      ensures entriesList == old(entriesList)[..k] + old(entriesList)[k + 1..]
    {
      Removed(entriesMap, entriesList, k);
      StillIncreasing(entriesList, k, changeID, attached);
      entriesMap := entriesMap - {entriesList[k].normalizedName};
      entriesList := entriesList[..k] + entriesList[k + 1..];
      changeID := changeID + 1;
    }

    /** getEntryAtCookie(): the first entry whose cookie is at least the given one. */
    method GetEntryAtCookie(firstCookie: nat) returns (k: nat)
      ensures AtCookie(entriesList, firstCookie, k)
    {
      k := 0;
      while k < |entriesList| && entriesList[k].cookie < firstCookie
        invariant k <= |entriesList| && forall i :: 0 <= i < k ==> entriesList[i].cookie < firstCookie
      {
        k := k + 1;
      }
    }

    /** Changes that others make, as far as they are possible. */
    method Apply(changes: seq<Change>)
      requires Valid()
      modifies `entriesMap, `entriesList, `changeID, `attached
      ensures Valid() && changeID >= old(changeID)
      ensures OnlyNewer(old(entriesList), entriesList, old(changeID))
      ensures old(attached) <= attached && Known(old(entriesList), attached - old(attached), entriesList)
      ensures (entriesList, changeID) == AfterChanges(old(entriesList), old(changeID), isDeleted, changes)
    {
      var i := 0;
      while i < |changes|
        invariant i <= |changes| && Valid() && changeID >= old(changeID)
        invariant (entriesList, changeID) == AfterChanges(old(entriesList), old(changeID), isDeleted, changes[..i])
        invariant OnlyNewer(old(entriesList), entriesList, old(changeID))
        invariant old(attached) <= attached && Known(old(entriesList), attached - old(attached), entriesList)
      {
        ghost var list, before := entriesList, attached;
        assert changes[..i + 1][..i] == changes[..i];
        ApplyOne(changes[i]);
        KnownSince(old(entriesList), old(attached), list, before, attached, entriesList);
        i := i + 1;
      }
      assert changes[..i] == changes;
    }

    method ApplyOne(change: Change)
      requires Valid()
      modifies `entriesMap, `entriesList, `changeID, `attached
      ensures Valid() && changeID >= old(changeID)
      ensures OnlyNewer(old(entriesList), entriesList, old(changeID))
      ensures old(attached) <= attached && Known(old(entriesList), attached - old(attached), entriesList)
      ensures (entriesList, changeID) == AfterChange(old(entriesList), old(changeID), isDeleted, change)
    {
      NameIndex(change.normalizedName);
      match change {
        case Attach(name, normalizedName, isDirectory, hidden) =>
          if MayAttach(normalizedName).Ok? { AttachEntry(name, normalizedName, isDirectory, hidden); }
        case Detach(normalizedName) =>
          if normalizedName in entriesMap {
            var k := GetEntryAtCookie(entriesMap[normalizedName].cookie);
            DetachEntry(k);
          }
      }
    }

    /** An entry is in the map exactly if it is in the list, where it can be found by its cookie. */
    lemma {:induction false} NameIndex(normalizedName: Name)
      requires Valid()
      ensures var k := IndexOf(entriesList, normalizedName);
        && k <= |entriesList| && (normalizedName in entriesMap <==> k < |entriesList|)
        && (normalizedName in entriesMap ==>
              forall i: nat :: AtCookie(entriesList, entriesMap[normalizedName].cookie, i) ==> i == k)
    {
      if normalizedName in entriesMap {
        var k :| 0 <= k < |entriesList| && entriesList[k] == entriesMap[normalizedName];
        OnlyIndex(entriesMap, entriesList, k);
        assert forall i :: 0 <= i < k ==> entriesList[i].cookie < entriesList[k].cookie;
      } else {
        FirstIndex(entriesList, normalizedName, |entriesList|);
      }
    }

    /** How far a listing has got. */
    ghost function Scanned(o: Origin, p: Plan, n: nat, lo: nat, pos: nat, k: nat, reported: seq<Entry>): Scan
      reads this
    {
      Scan(o, p, n, entriesList, attached, changeID, lo, pos, k, reported)
    }

    /** The directory is unlocked for a while, and the entry looked up again. */
    method Unlocked(
      changes: seq<Change>, cookie: nat, ghost o: Origin, ghost p: Plan, ghost n: nat, ghost lo: nat, ghost k0: nat,
      ghost reported: seq<Entry>)
      returns (k: nat)
      requires Valid() && Scanning(Scanned(o, p, n, lo, cookie, k0, reported))
      requires n < |p.groups| && changes == p.groups[n] && p.deleted == isDeleted
      modifies `entriesMap, `entriesList, `changeID, `attached
      ensures Valid() && k <= |entriesList| && Scanning(Scanned(o, p, n + 1, lo, cookie, k, reported))
    {
      ghost var z := Scanned(o, p, n, lo, cookie, k0, reported);
      OpenScan(z);
      ApplyGroup(changes, o, p, n);
      KnownSince(o.list, o.attached, z.list, z.attached, attached, entriesList);
      k := GetEntryAtCookie(cookie);
      Changed(z.list, entriesList, z.id, lo, cookie, reported);
      OpenScan(Scanned(o, p, n + 1, lo, cookie, k, reported));
    }

    method ApplyGroup(changes: seq<Change>, ghost o: Origin, ghost p: Plan, ghost n: nat)
      requires Valid() && n < |p.groups| && changes == p.groups[n] && p.deleted == isDeleted
      requires Reaches(o, p.deleted, p.groups, n, entriesList, changeID)
      modifies `entriesMap, `entriesList, `changeID, `attached
      ensures Valid() && changeID >= old(changeID) && Reaches(o, p.deleted, p.groups, n + 1, entriesList, changeID)
      ensures OnlyNewer(old(entriesList), entriesList, old(changeID))
      ensures old(attached) <= attached && Known(old(entriesList), attached - old(attached), entriesList)
    {
      OpenReaches(o, p.deleted, p.groups, n, entriesList, changeID);
      Apply(changes);
      OpenReaches(o, p.deleted, p.groups, n + 1, entriesList, changeID);
    }

    /** Reports one entry, unless it is hidden, or the reporter has had enough. */
    method Visit(k: nat, budget: nat, reported0: seq<Entry>, ghost o: Origin, ghost p: Plan,
      ghost n: nat, ghost lo: nat)
      returns (full: bool, reported: seq<Entry>)
      requires Valid() && k < |entriesList| && |reported0| <= budget
      requires Scanning(Scanned(o, p, n, lo, entriesList[k].cookie, k, reported0))
      ensures |reported| <= budget && (full ==> reported == reported0 && |reported| == budget)
      ensures !full ==> Scanning(Scanned(o, p, n, lo, entriesList[k].cookie + 1, k + 1, reported))
    {
      var e := entriesList[k];
      OpenScan(Scanned(o, p, n, lo, e.cookie, k, reported0));
      full, reported := false, reported0;
      if Visible(e) {
        if |reported| == budget { return true, reported; }
        Report(entriesList, lo, k, reported, e);
        reported := reported + [e];
      } else {
        Pass(entriesList, lo, k, reported, e);
      }
      OpenScan(Scanned(o, p, n, lo, e.cookie + 1, k + 1, reported));
    }

    /** VirtualReadDir(): reports entries from `firstCookie` on until the reporter has had enough. Where the attributes
        of a child directory are wanted, the directory may be unlocked for a while; what others do then is given by
        `interference`. */
    method ReadDir(firstCookie: nat, locked: bool, budget: nat, interference: seq<seq<Change>>)
      returns (reported: seq<Entry>, atEnd: bool, n: nat)
      requires Valid() && firstCookie <= changeID
      modifies `entriesMap, `entriesList, `changeID, `attached
      ensures Valid() && changeID >= old(changeID) && |reported| <= budget && (!atEnd ==> |reported| == budget)
      ensures OnlyNewer(old(entriesList), entriesList, old(changeID))
      ensures AllKnown(old(entriesList), old(attached), entriesList, attached, reported)
      ensures InRange(reported, firstCookie, changeID)
      ensures Covers(entriesList, firstCookie, if atEnd then changeID else After(reported, firstCookie), reported)
      ensures n <= |interference| && (!locked ==> n == 0)
      ensures Reaches(old(Origin(entriesList, attached, changeID)), isDeleted, interference, n, entriesList, changeID)
    {
      reported, n := [], 0;
      var k: nat := GetEntryAtCookie(firstCookie);
      ghost var pos: nat := firstCookie;      // all entries below have been dealt with
      ghost var o, p := Origin(entriesList, attached, changeID), Plan(isDeleted, interference);
      OpenReaches(o, isDeleted, interference, 0, entriesList, changeID);
      OpenScan(Scanned(o, p, n, firstCookie, pos, k, reported));
      while k < |entriesList|
        invariant Valid() && |reported| <= budget && Scanning(Scanned(o, p, n, firstCookie, pos, k, reported))
        invariant n <= |interference| && (!locked ==> n == 0)
        decreases |interference| - n, |entriesList| - k
      {
        var full;
        k, n, full, reported, pos := ReadEntry(k, locked, budget, interference, n, reported, o, p, firstCookie, pos);
        if full {
          ScanFull(Scanned(o, p, n, firstCookie, pos, k, reported));
          return reported, false, n;
        }
      }
      ScanEnded(Scanned(o, p, n, firstCookie, pos, k, reported));
      atEnd := true;
    }

    /** The entry that is next; if it is gone by the time that the directory is locked again, nothing is reported. */
    method ReadEntry(
      k0: nat, locked: bool, budget: nat, interference: seq<seq<Change>>, n0: nat, reported0: seq<Entry>,
      ghost o: Origin, ghost p: Plan, ghost lo: nat, ghost pos0: nat)
      returns (k: nat, n: nat, full: bool, reported: seq<Entry>, ghost pos: nat)
      requires Valid() && k0 < |entriesList| && |reported0| <= budget && n0 <= |interference|
      requires p == Plan(isDeleted, interference) && Scanning(Scanned(o, p, n0, lo, pos0, k0, reported0))
      modifies `entriesMap, `entriesList, `changeID, `attached
      ensures Valid() && |reported| <= budget && Scanning(Scanned(o, p, n, lo, pos, k, reported))
      ensures n0 <= n <= |interference| && (!locked ==> n == n0) && (full ==> |reported| == budget)
      ensures !full && n == n0 ==> k == k0 + 1 && entriesList == old(entriesList)
    {
      var e := entriesList[k0];
      SkipTo(Scanned(o, p, n0, lo, pos0, k0, reported0));
      k, n, full, reported, pos := k0, n0, false, reported0, e.cookie;
      if e.isDirectory && locked && n < |interference| {
        k := Unlocked(interference[n], e.cookie, o, p, n, lo, k, reported);
        n := n + 1;
        if k == |entriesList| || entriesList[k] != e { return; }
      }
      full, reported := Visit(k, budget, reported, o, p, n, lo);
      if !full { pos, k := e.cookie + 1, k + 1; }
    }
  }

  /** Entries that were not there before are newer. */
  ghost predicate OnlyNewer(before: seq<Entry>, after: seq<Entry>, id: nat) {
    forall e :: e in after ==> e in before || e.cookie >= id
  }

  /** Entries are from a list, or new. */
  ghost predicate Known(list: seq<Entry>, new_: set<Entry>, es: seq<Entry>) {
    forall e :: e in es ==> e in list || e in new_
  }

  /** All entries that are there now, or have been reported, were there at the start or have been attached since. */
  ghost predicate AllKnown(
    list0: seq<Entry>, attached0: set<Entry>, list: seq<Entry>, attached: set<Entry>, reported: seq<Entry>)
  {
    attached0 <= attached && Known(list0, attached - attached0, list) && Known(list0, attached - attached0, reported)
  }

  /** Where a listing started: what was there then. */
  datatype Origin = Origin(list: seq<Entry>, attached: set<Entry>, id: nat)

  /** What others are going to do while the directory is unlocked. */
  datatype Plan = Plan(deleted: bool, groups: seq<seq<Change>>)

  /** A listing of the entries from cookie `lo` on, which has dealt with those below `pos`, and is about to look at the
      one at index `k`. */
  datatype Scan = Scan(
    o: Origin, plan: Plan, n: nat, list: seq<Entry>, attached: set<Entry>, id: nat, lo: nat, pos: nat, k: nat,
    reported: seq<Entry>)

  ghost predicate ScanOk(z: Scan) {
    && Reaches(z.o, z.plan.deleted, z.plan.groups, z.n, z.list, z.id)
    && z.id >= z.o.id && OnlyNewer(z.o.list, z.list, z.o.id) && z.lo <= z.pos <= z.id
    && AllKnown(z.o.list, z.o.attached, z.list, z.attached, z.reported)
    && AtCookie(z.list, z.pos, z.k) && InRange(z.reported, z.lo, z.pos) && Covers(z.list, z.lo, z.pos, z.reported)
  }

  /** `ScanOk`, kept away from proofs that need not look into it. */
  ghost predicate Scanning(z: Scan, layers: nat := 3)
    decreases z, layers
  {
    if layers == 0 then ScanOk(z) else Scanning(z, layers - 1)
  }

  lemma {:induction false} OpenScan(z: Scan)
    ensures Scanning(z) <==> ScanOk(z)
  {
    assert Scanning(z) == Scanning(z, 2);
    assert Scanning(z, 2) == Scanning(z, 1);
    assert Scanning(z, 1) == Scanning(z, 0);
  }

  lemma {:induction false} SkipTo(z: Scan)
    requires Scanning(z) && z.k < |z.list| && Increasing(z.list) && Below(z.list, z.id)
    ensures Scanning(z.(pos := z.list[z.k].cookie))
  {
    OpenScan(z);
    Skip(z.list, z.lo, z.pos, z.k, z.reported);
    OpenScan(z.(pos := z.list[z.k].cookie));
  }

  /** What a listing that is full has reported. */
  lemma {:induction false} ScanFull(z: Scan)
    requires Scanning(z)
    ensures Reaches(z.o, z.plan.deleted, z.plan.groups, z.n, z.list, z.id)
    ensures z.id >= z.o.id && OnlyNewer(z.o.list, z.list, z.o.id) && InRange(z.reported, z.lo, z.id)
    ensures AllKnown(z.o.list, z.o.attached, z.list, z.attached, z.reported)
    ensures Covers(z.list, z.lo, After(z.reported, z.lo), z.reported)
  {
    OpenScan(z);
  }

  /** What a listing that has come to the end has reported. */
  lemma {:induction false} ScanEnded(z: Scan)
    requires Scanning(z) && z.k >= |z.list|
    ensures Reaches(z.o, z.plan.deleted, z.plan.groups, z.n, z.list, z.id)
    ensures z.id >= z.o.id && OnlyNewer(z.o.list, z.list, z.o.id) && InRange(z.reported, z.lo, z.id)
    ensures AllKnown(z.o.list, z.o.attached, z.list, z.attached, z.reported)
    ensures Covers(z.list, z.lo, z.id, z.reported)
  {
    OpenScan(z);
  }

  lemma {:induction false} KnownSince(
    list0: seq<Entry>, attached0: set<Entry>, list1: seq<Entry>, attached1: set<Entry>, attached2: set<Entry>,
    es: seq<Entry>)
    requires attached0 <= attached1 <= attached2
    requires Known(list0, attached1 - attached0, list1) && Known(list1, attached2 - attached1, es)
    ensures Known(list0, attached2 - attached0, es)
  {
  }

  /** Entries that were reported: in order, and visible. */
  ghost predicate InRange(reported: seq<Entry>, lo: nat, hi: nat) {
    Increasing(reported) && forall k :: 0 <= k < |reported| ==> lo <= reported[k].cookie < hi && Visible(reported[k])
  }

  /** There is nothing between where the scan was and the first entry from there on. */
  lemma {:induction false} Skip(list: seq<Entry>, lo: nat, pos: nat, k: nat, reported: seq<Entry>)
    requires Increasing(list) && AtCookie(list, pos, k) && k < |list| && Covers(list, lo, pos, reported)
    ensures Covers(list, lo, list[k].cookie, reported) && AtCookie(list, list[k].cookie, k)
  {
    forall e | e in list && Visible(e) && lo <= e.cookie < list[k].cookie ensures e in reported {
      var i :| 0 <= i < |list| && list[i] == e;
      assert i < k;
    }
  }

  lemma {:induction false} Extend(reported: seq<Entry>, lo: nat, e: Entry)
    requires InRange(reported, lo, e.cookie) && Visible(e) && lo <= e.cookie
    ensures InRange(reported + [e], lo, e.cookie + 1) && (forall x :: x in reported ==> x in reported + [e])
    ensures e in reported + [e]
  {
  }

  lemma {:induction false} Report(list: seq<Entry>, lo: nat, k: nat, reported: seq<Entry>, e: Entry)
    requires Increasing(list) && k < |list| && list[k] == e && AtCookie(list, e.cookie, k) && Visible(e)
    requires InRange(reported, lo, e.cookie) && lo <= e.cookie && Covers(list, lo, e.cookie, reported)
    ensures InRange(reported + [e], lo, e.cookie + 1) && Covers(list, lo, e.cookie + 1, reported + [e])
    ensures AtCookie(list, e.cookie + 1, k + 1)
    ensures forall x :: x in reported + [e] ==> x in reported || x == e
  {
    Extend(reported, lo, e);
    Pass(list, lo, k, reported + [e], e);
  }

  lemma {:induction false} Changed(
    before: seq<Entry>, after: seq<Entry>, id: nat, lo: nat, pos: nat, reported: seq<Entry>)
    requires Covers(before, lo, pos, reported) && pos <= id && OnlyNewer(before, after, id)
    ensures Covers(after, lo, pos, reported)
  {
  }

  lemma {:induction false} Pass(list: seq<Entry>, lo: nat, k: nat, reported: seq<Entry>, e: Entry)
    requires Increasing(list) && k < |list| && list[k] == e && AtCookie(list, e.cookie, k)
    requires Visible(e) ==> e in reported
    requires forall x :: x in list && Visible(x) && lo <= x.cookie < e.cookie ==> x in reported
    ensures Covers(list, lo, e.cookie + 1, reported) && AtCookie(list, e.cookie + 1, k + 1)
  {
    forall x | x in list && Visible(x) && lo <= x.cookie < e.cookie + 1 ensures x in reported {
      var i :| 0 <= i < |list| && list[i] == x;
      if x.cookie == e.cookie { assert i == k; }
    }
  }

  ghost predicate AtCookie(list: seq<Entry>, cookie: nat, k: nat) {
    && k <= |list| && (forall i :: 0 <= i < k ==> list[i].cookie < cookie) && (k < |list| ==> list[k].cookie >= cookie)
  }

  /** The cookie to resume at: one past that of the last entry that was accepted. */
  ghost function After(reported: seq<Entry>, firstCookie: nat): nat {
    if reported == [] then firstCookie else reported[|reported| - 1].cookie + 1
  }

  /** All visible entries with cookies in a range have been reported. */
  ghost predicate Covers(list: seq<Entry>, lo: nat, hi: nat, reported: seq<Entry>) {
    forall e :: e in list && Visible(e) && lo <= e.cookie < hi ==> e in reported
  }

  // ----- Listings in parts -----

  /** A call to VirtualReadDir(), and what others do until the next one. */
  datatype Page = Page(locked: bool, budget: nat, interference: seq<seq<Change>>, changes: seq<Change>)

  /** How many entries there is room for. */
  ghost function Budget(pages: seq<Page>): nat {
    if pages == [] then 0 else Budget(pages[..|pages| - 1]) + pages[|pages| - 1].budget
  }

  /** A listing that resumes where it left off. It reaches the end if there is enough room. Everything is reported at
      most once and in order; and once it has reached the end, everything visible that is there has been reported, and
      thus all that was there throughout. Nothing is reported that was not there at the start or has been attached
      since. */
  method List(c: Contents, pages: seq<Page>) returns (reported: seq<Entry>, atEnd: bool)
    requires c.Valid()
    modifies c
    ensures c.Valid() && InRange(reported, 0, c.changeID)
    ensures atEnd ==> forall e :: e in c.entriesList && Visible(e) ==> ReportedOnce(reported, e)
    ensures !atEnd ==> |reported| == Budget(pages)
    ensures AllKnown(old(c.entriesList), old(c.attached), c.entriesList, c.attached, reported)
  {
    reported, atEnd := [], false;
    var resume: nat := 0;
    ghost var o := Origin(c.entriesList, c.attached, c.changeID);
    var i := 0;
    while i < |pages| && !atEnd
      invariant c.Valid() && Resuming(c, o, resume, atEnd, reported)
      invariant i <= |pages| && (!atEnd ==> |reported| == Budget(pages[..i]))
    {
      assert pages[..i + 1][..i] == pages[..i];
      var more, next;
      more, next, atEnd := ReadPage(c, pages[i], resume, o, reported);
      reported, resume, i := reported + more, next, i + 1;
    }
    assert i == |pages| ==> pages[..i] == pages;
    if atEnd {
      forall e | e in c.entriesList && Visible(e) ensures ReportedOnce(reported, e) { Once(reported, e); }
    }
  }

  /** A listing that has reported everything up to where it resumes, or up to the end. */
  ghost predicate Resuming(c: Contents, o: Origin, resume: nat, atEnd: bool, reported: seq<Entry>)
    reads c
  {
    && resume <= c.changeID && InRange(reported, 0, resume)
    && Covers(c.entriesList, 0, if atEnd then c.changeID else resume, reported)
    && AllKnown(o.list, o.attached, c.entriesList, c.attached, reported)
  }

  method ReadPage(c: Contents, page: Page, resume: nat, ghost o: Origin, ghost reported: seq<Entry>)
    returns (more: seq<Entry>, next: nat, atEnd: bool)
    requires c.Valid() && Resuming(c, o, resume, false, reported)
    modifies c
    ensures c.Valid() && Resuming(c, o, next, atEnd, reported + more) && (!atEnd ==> |more| == page.budget)
  {
    ghost var list, id, attached := c.entriesList, c.changeID, c.attached;
    var n;
    more, atEnd, n := c.ReadDir(resume, page.locked, page.budget, page.interference);
    KnownSince(o.list, o.attached, list, attached, c.attached, c.entriesList);
    KnownSince(o.list, o.attached, list, attached, c.attached, more);
    UpToLast(more, resume, c.changeID);
    Continued(list, c.entriesList, id, resume, if atEnd then c.changeID else After(more, resume), reported, more);
    next := if more == [] then resume else more[|more| - 1].cookie + 1;
    RangeOfBoth(reported, more, resume);
    if !atEnd {
      ApplyBetween(c, page.changes, next, o, reported + more);
    }
  }

  /** What others do between two pages. */
  method ApplyBetween(c: Contents, changes: seq<Change>, ghost resume: nat, ghost o: Origin, ghost reported: seq<Entry>)
    requires c.Valid() && Resuming(c, o, resume, false, reported)
    modifies c
    ensures c.Valid() && Resuming(c, o, resume, false, reported)
  {
    ghost var list, id, attached := c.entriesList, c.changeID, c.attached;
    c.Apply(changes);
    KnownSince(o.list, o.attached, list, attached, c.attached, c.entriesList);
    Changed(list, c.entriesList, id, 0, resume, reported);
  }

  lemma {:induction false} RangeOfBoth(reported: seq<Entry>, more: seq<Entry>, resume: nat)
    requires InRange(reported, 0, resume) && InRange(more, resume, After(more, resume))
    ensures InRange(reported + more, 0, After(more, resume))
  {
  }

  lemma {:induction false} UpToLast(more: seq<Entry>, resume: nat, hi: nat)
    requires InRange(more, resume, hi) && resume <= hi
    ensures InRange(more, resume, After(more, resume)) && resume <= After(more, resume) <= hi
  {
  }

  ghost predicate ReportedOnce(reported: seq<Entry>, e: Entry) {
    exists k :: 0 <= k < |reported| && reported[k] == e &&
      forall i :: 0 <= i < |reported| && i != k ==> reported[i] != e
  }

  lemma {:induction false} Once(reported: seq<Entry>, e: Entry)
    requires Increasing(reported) && e in reported
    ensures ReportedOnce(reported, e)
  {
    var k :| 0 <= k < |reported| && reported[k] == e;
    forall i | 0 <= i < |reported| && i != k ensures reported[i] != e {
      assert reported[i].cookie != reported[k].cookie;
    }
  }

  lemma {:induction false} Continued(
    before: seq<Entry>, after: seq<Entry>, id: nat, resume: nat, hi: nat, reported: seq<Entry>, more: seq<Entry>)
    requires Covers(before, 0, resume, reported) && resume <= id && OnlyNewer(before, after, id)
    requires Covers(after, resume, hi, more)
    requires InRange(reported, 0, resume) && InRange(more, resume, hi) && resume <= hi
    ensures Covers(after, 0, hi, reported + more) && InRange(reported + more, 0, hi)
  {
    forall e | e in after && Visible(e) && 0 <= e.cookie < hi ensures e in reported + more {
      if e.cookie < resume { assert e in before; }
    }
  }
}
