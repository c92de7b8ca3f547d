/**
 pkg/filesystem/access/path_hashes.go: the hashes that stand for a path in a Bloom filter.
 */
module PathHashes {
  const TWO_64: nat := 18446744073709551616

  type Hash = h: nat | h < 18446744073709551616     // uint64
  type Octet = b: nat | b < 256                     // uint8
  type Name = seq<Octet>
  type Path = seq<Name>

  const FNV1A_PRIME: nat := 1099511628211
  const FNV1A_OFFSET_BASIS: Hash := 14695981039346656037
  const SEPARATOR: Octet := 47

  /** Exclusive or of the lowest `n` bits. */
  function Xor(a: nat, b: nat, n: nat): nat {
    if n == 0 then 0 else 2 * Xor(a / 2, b / 2, n - 1) + (a + b) % 2
  }

  /** One round of FNV-1a: exclusive or with a byte, and multiplication modulo 2^64. */
  function Mix(hash: Hash, b: Octet): Hash { ((hash - hash % 256 + Xor(hash % 256, b, 8)) * FNV1A_PRIME) % TWO_64 }

  function MixAll(hash: Hash, bytes: seq<Octet>): Hash {
    if bytes == [] then hash else Mix(MixAll(hash, bytes[..|bytes| - 1]), bytes[|bytes| - 1])
  }

  /** The hash of a child of a directory. */
  function Child(base: Hash, name: Name): Hash { MixAll(Mix(base, SEPARATOR), name) }

  /** The hash of a path, starting at the root. */
  function HashOf(p: Path): Hash {
    if p == [] then FNV1A_OFFSET_BASIS else Child(HashOf(p[..|p| - 1]), p[|p| - 1])
  }

  /** A path as it is written, with a slash in front of every name. */
  ghost function Written(p: Path): seq<Octet> {
    if p == [] then [] else Written(p[..|p| - 1]) + [SEPARATOR] + p[|p| - 1]
  }

  lemma {:induction false} MixConcat(hash: Hash, a: seq<Octet>, b: seq<Octet>)
    ensures MixAll(hash, a + b) == MixAll(MixAll(hash, a), b)
    decreases |b|
  {
    if b == [] {
      assert a + b == a;
    } else {
      assert (a + b)[..|a + b| - 1] == a + b[..|b| - 1];
      MixConcat(hash, a, b[..|b| - 1]);
    }
  }

  /** Although it is computed name by name, the hash of a path is the 64-bit FNV-1a of the path as it is written; and
      further hashes are those of the path followed by slashes. */
  lemma {:induction false} HashOfWritten(p: Path, i: nat)
    ensures Nth(HashOf(p), i) == MixAll(FNV1A_OFFSET_BASIS, Written(p) + seq(i, _ => SEPARATOR))
    decreases |p|, i
  {
    var slashes := seq(i, _ => SEPARATOR);
    if i > 0 {
      HashOfWritten(p, i - 1);
      var w := Written(p) + slashes;
      assert w[..|w| - 1] == Written(p) + seq(i - 1, _ => SEPARATOR);
    } else if p != [] {
      var n := |p| - 1;
      HashOfWritten(p[..n], 0);
      assert Written(p[..n]) + seq(0, _ => SEPARATOR) == Written(p[..n]);
      assert Written(p) + slashes == Written(p[..n]) + [SEPARATOR] + p[n];
      MixConcat(FNV1A_OFFSET_BASIS, Written(p[..n]) + [SEPARATOR], p[n]);
    }
  }

  /** AppendComponent() */
  method AppendComponent(base: Hash, name: Name) returns (hash: Hash)
    ensures hash == Child(base, name)
  {
    hash := Mix(base, SEPARATOR);
    var i := 0;
    while i < |name|
      invariant i <= |name| && hash == MixAll(Mix(base, SEPARATOR), name[..i])
    {
      assert name[..i + 1][..i] == name[..i];
      hash := Mix(hash, name[i]);
      i := i + 1;
    }
    assert name[..i] == name;
  }

  /** The hashes that an iterator yields. */
  function Nth(hash: Hash, i: nat): Hash { if i == 0 then hash else Mix(Nth(hash, i - 1), SEPARATOR) }

  class PathHashIterator {
    var nextHash: Hash
    ghost const base: Hash
    ghost var count: nat

    ghost predicate Valid()
      reads this
    {
      nextHash == Nth(base, count)
    }

    /** Finalize() */
    constructor (hash: Hash)
      ensures Valid() && base == hash && count == 0
    {
      nextHash, base, count := hash, hash, 0;
    }

    /** GetNextHash() */
    method GetNextHash() returns (hash: Hash)
      requires Valid()
      modifies this
      ensures Valid() && count == old(count) + 1 && hash == Nth(base, old(count))
    {
      hash := nextHash;
      nextHash := Mix(hash, SEPARATOR);
      count := count + 1;
    }
  }
}
