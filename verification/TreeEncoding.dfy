/**
 pkg/builder/output_hierarchy.go: the bytes of a Tree message that is put together from directories
 that have been marshalled already, in the encoding of Protocol Buffers.
 */
module TreeEncoding {
  import opened Common

  type Octet = b: nat | b < 256
  type Bytes = seq<Octet>

  // ----- Varints -----

  /** protowire.SizeVarint() */
  function SizeVarint(v: nat): (n: nat)
    ensures n >= 1
  {
    if v < 128 then 1 else 1 + SizeVarint(v / 128)
  }

  /** What protowire.AppendVarint() appends. */
  function Varint(v: nat): (s: Bytes)
    ensures |s| == SizeVarint(v)
  {
    if v < 128 then [v] else [v % 128 + 128] + Varint(v / 128)
  }

  lemma {:induction false} SizeVarintGrows(a: nat, b: nat)
    requires a <= b
    ensures SizeVarint(a) <= SizeVarint(b)
  {
    if a >= 128 { SizeVarintGrows(a / 128, b / 128); }
  }

  /** Reads a varint: its value and its size. */
  function ReadVarint(s: Bytes): Option<(nat, nat)> {
    if s == [] then None
    else if s[0] < 128 then Some((s[0], 1))
    else
      var r := ReadVarint(s[1..]);
      if r.None? then None else Some((r.value.0 * 128 + s[0] - 128, r.value.1 + 1))
  }

  lemma {:induction false} ReadWritten(v: nat, rest: Bytes)
    ensures ReadVarint(Varint(v) + rest) == Some((v, SizeVarint(v)))
  {
    var s := Varint(v) + rest;
    if v >= 128 {
      ReadWritten(v / 128, rest);
      assert s[1..] == Varint(v / 128) + rest;
    }
  }

  // ----- Messages with length-delimited fields -----

  const ROOT_TAG: Octet := 10           // field 1, length-delimited
  const CHILDREN_TAG: Octet := 18       // field 2, length-delimited

  datatype Field = Field(tag: Octet, data: Bytes)

  function Written(f: Field): Bytes { [f.tag] + Varint(|f.data|) + f.data }

  function WrittenAll(fs: seq<Field>): Bytes {
    if fs == [] then [] else WrittenAll(fs[..|fs| - 1]) + Written(fs[|fs| - 1])
  }

  /** Reads fields until there is nothing left. */
  function ReadFields(s: Bytes): Option<seq<Field>>
    decreases |s|
  {
    if s == [] then Some([])
    else
      var v := ReadVarint(s[1..]);
      if v.None? || 1 + v.value.1 + v.value.0 > |s| then None
      else
        var (length, size) := v.value;
        var rest := ReadFields(s[1 + size + length..]);
        if rest.None? then None else Some([Field(s[0], s[1 + size..1 + size + length])] + rest.value)
  }

  /** Where the parts of a field are. */
  lemma {:induction false} Parts(tag: Octet, header: Bytes, data: Bytes, rest: Bytes)
    ensures var s := [tag] + header + data + rest; var n, m := 1 + |header|, 1 + |header| + |data|;
      s[0] == tag && s[1..] == header + (data + rest) && s[n..m] == data && s[m..] == rest && |s| == m + |rest|
  {
  }

  lemma {:induction false} ReadFirst(f: Field, rest: Bytes)
    requires ReadFields(rest).Some?
    ensures ReadFields(Written(f) + rest) == Some([f] + ReadFields(rest).value)
  {
    var header := Varint(|f.data|);
    Parts(f.tag, header, f.data, rest);
    ReadWritten(|f.data|, f.data + rest);
    ReadField([f.tag] + header + f.data + rest, |f.data|, |header|, rest);
  }

  lemma {:induction false} ReadField(s: Bytes, length: nat, size: nat, rest: Bytes)
    requires s != [] && ReadVarint(s[1..]) == Some((length, size)) && 1 + size + length <= |s|
    requires s[1 + size + length..] == rest && ReadFields(rest).Some?
    ensures ReadFields(s) == Some([Field(s[0], s[1 + size..1 + size + length])] + ReadFields(rest).value)
  {
  }

  lemma {:induction false} Associative(a: Bytes, b: Bytes, c: Bytes)
    ensures a + b + c == a + (b + c)
  {
  }

  lemma {:induction false} WrittenLast(fs: seq<Field>, f: Field)
    ensures WrittenAll(fs + [f]) == WrittenAll(fs) + Written(f)
  {
    assert (fs + [f])[..|fs|] == fs && (fs + [f])[|fs|] == f;
  }

  lemma {:induction false} WrittenAllFirst(f: Field, fs: seq<Field>)
    ensures WrittenAll([f] + fs) == Written(f) + WrittenAll(fs)
  {
    if fs == [] {
      assert [f] + fs == [] + [f];
      WrittenLast([], f);
    } else {
      var n := |fs| - 1;
      assert [f] + fs == ([f] + fs[..n]) + [fs[n]] && fs == fs[..n] + [fs[n]];
      WrittenLast([f] + fs[..n], fs[n]);
      WrittenLast(fs[..n], fs[n]);
      WrittenAllFirst(f, fs[..n]);
      Associative(Written(f), WrittenAll(fs[..n]), Written(fs[n]));
    }
  }

  /** What was written can be read back. */
  lemma {:induction false} RoundTrip(fs: seq<Field>)
    ensures ReadFields(WrittenAll(fs)) == Some(fs)
  {
    if fs != [] {
      RoundTrip(fs[1..]);
      assert fs == [fs[0]] + fs[1..];
      WrittenAllFirst(fs[0], fs[1..]);
      ReadFirst(fs[0], WrittenAll(fs[1..]));
    }
  }

  // ----- Putting a Tree together -----

  function Total(directories: seq<Bytes>): nat {
    if directories == [] then 0 else Total(directories[..|directories| - 1]) + |directories[|directories| - 1]|
  }

  /** The size that is reserved for the Tree. */
  function MaximumTreeSize(directories: seq<Bytes>): nat {
    Total(directories) + |directories| * (1 + SizeVarint(Total(directories)))
  }

  /** The fields of the Tree: the last directory is the root, and comes first. */
  function TreeFields(directories: seq<Bytes>): (fs: seq<Field>)
    ensures |fs| == |directories|
    ensures forall k :: 0 <= k < |fs| ==>
      fs[k] == Field(if k == 0 then ROOT_TAG else CHILDREN_TAG, directories[|directories| - 1 - k])
  {
    seq(|directories|, k requires 0 <= k < |directories| =>
      Field(if k == 0 then ROOT_TAG else CHILDREN_TAG, directories[|directories| - 1 - k]))
  }

  /** The directories that the fields of a Tree were made from. */
  function DirectoriesOf(fs: seq<Field>): (r: seq<Bytes>)
    ensures |r| == |fs| && forall k :: 0 <= k < |fs| ==> r[k] == fs[|fs| - 1 - k].data
  {
    seq(|fs|, k requires 0 <= k < |fs| => fs[|fs| - 1 - k].data)
  }

  lemma {:induction false} DirectoriesBack(directories: seq<Bytes>)
    ensures DirectoriesOf(TreeFields(directories)) == directories
  {
    var r := DirectoriesOf(TreeFields(directories));
    assert |r| == |directories| && forall k :: 0 <= k < |r| ==> r[k] == directories[k];
  }

  lemma {:induction false} WrittenNext(fs: seq<Field>, k: nat)
    requires k < |fs|
    ensures WrittenAll(fs[..k + 1]) == WrittenAll(fs[..k]) + Written(fs[k])
  {
    assert fs[..k + 1][..k] == fs[..k];
  }

  lemma {:induction false} Appended(s: Bytes, tag: Octet, data: Bytes)
    ensures s + [tag] + Varint(|data|) + data == s + Written(Field(tag, data))
  {
  }

  lemma {:induction false} OneMoreWritten(fs: seq<Field>, k: nat, tag: Octet, data: Bytes)
    requires k < |fs| && fs[k] == Field(tag, data)
    ensures WrittenAll(fs[..k + 1]) == WrittenAll(fs[..k]) + [tag] + Varint(|data|) + data
  {
    WrittenNext(fs, k);
    Appended(WrittenAll(fs[..k]), tag, data);
  }

  /** The loop of uploadOutputDirectoryEntered() that puts the Tree together; the space that was reserved suffices. */
  method BuildTree(directories: seq<Bytes>) returns (treeData: Bytes)
    ensures treeData == WrittenAll(TreeFields(directories))
    ensures ReadFields(treeData) == Some(TreeFields(directories))
    ensures |treeData| <= MaximumTreeSize(directories)
  {
    treeData := [];
    var tag := ROOT_TAG;
    var i := |directories|;
    ghost var fs := TreeFields(directories);
    while i > 0
      invariant 0 <= i <= |directories| && tag == if i == |directories| then ROOT_TAG else CHILDREN_TAG
      invariant treeData == WrittenAll(fs[..|directories| - i])
    {
      var directory := directories[i - 1];
      ghost var k := |directories| - i;
      OneMoreWritten(fs, k, tag, directory);
      treeData := treeData + [tag] + Varint(|directory|) + directory;
      tag := CHILDREN_TAG;
      i := i - 1;
    }
    assert fs[..|directories|] == fs;
    RoundTrip(fs);
    TreeSize(directories);
  }

  lemma {:induction false} TreeSize(directories: seq<Bytes>)
    ensures |WrittenAll(TreeFields(directories))| <= MaximumTreeSize(directories)
  {
    var fs := TreeFields(directories);
    ReversedTotal(directories, |directories|);
    DataSize(fs, Total(directories));
  }

  function DataTotal(fs: seq<Field>): nat {
    if fs == [] then 0 else DataTotal(fs[..|fs| - 1]) + |fs[|fs| - 1].data|
  }

  lemma {:induction false} DataSize(fs: seq<Field>, bound: nat)
    requires DataTotal(fs) <= bound
    ensures |WrittenAll(fs)| <= DataTotal(fs) + |fs| * (1 + SizeVarint(bound))
  {
    if fs != [] {
      var f := fs[|fs| - 1];
      DataSize(fs[..|fs| - 1], bound);
      SizeVarintGrows(|f.data|, bound);
      Distribute(|fs| - 1, 1 + SizeVarint(bound));
    }
  }

  lemma {:induction false} Distribute(n: nat, c: nat)
    ensures (n + 1) * c == n * c + c
  {
  }

  lemma {:induction false} TotalSplit(a: seq<Bytes>, x: Bytes)
    ensures Total([x] + a) == |x| + Total(a)
  {
    if a == [] {
      assert ([x] + a)[..0] == [] && ([x] + a)[0] == x;
    } else {
      var n := |a| - 1;
      assert ([x] + a)[..n + 1] == [x] + a[..n] && ([x] + a)[n + 1] == a[n];
      TotalSplit(a[..n], x);
    }
  }

  /** The first fields hold the last directories. */
  lemma {:induction false} ReversedTotal(directories: seq<Bytes>, n: nat)
    requires n <= |directories|
    ensures DataTotal(TreeFields(directories)[..n]) == Total(directories[|directories| - n..])
    ensures n == |directories| ==> DataTotal(TreeFields(directories)) == Total(directories)
  {
    var fs, m := TreeFields(directories), |directories|;
    if n > 0 {
      ReversedTotal(directories, n - 1);
      assert fs[..n][..n - 1] == fs[..n - 1];
      assert directories[m - n..] == [directories[m - n]] + directories[m - n + 1..];
      TotalSplit(directories[m - n + 1..], directories[m - n]);
    }
    if n == m {
      assert fs[..n] == fs && directories[0..] == directories;
    }
  }
}
