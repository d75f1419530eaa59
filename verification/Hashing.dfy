/**
 Digests and the hashes built on BLAKE2b.  The hash itself is a parameter: every result holds for
 every function from byte strings to 32-byte digests.
 */
module Hashing {
  import opened Basics
  import opened TreeFold

  const DIGEST_LENGTH: nat := 32

  type Digest = d: Bytes | |d| == DIGEST_LENGTH witness Repeat(0, DIGEST_LENGTH)
  type Hasher = Bytes -> Digest

  /** Terminates `HashSliceRfold`. */
  const SENTINEL_RFOLD: Digest := Repeat(1, DIGEST_LENGTH)
  /** The root of a tree with no leaves. */
  const SENTINEL_MERKLE_TREE: Digest := Repeat(2, DIGEST_LENGTH)

  /** Two distinct byte strings with one digest. */
  predicate Collision(h: Hasher, x: Bytes, y: Bytes) {
    x != y && h(x) == h(y)
  }

  /** What the binding theorems return: nothing, or a collision that was computed. */
  type Clash = Option<(Bytes, Bytes)>

  predicate Sound(h: Hasher, c: Clash) {
    c.Some? ==> Collision(h, c.value.0, c.value.1)
  }

  function HashPair(h: Hasher, a: Digest, b: Digest): Digest {
    h(a + b)
  }

  function Pairing(h: Hasher): (Digest, Digest) -> Digest {
    (a: Digest, b: Digest) => HashPair(h, a, b)
  }

  /** The bytes fed to the hash for a final root: a chunk of zeros, the leaf count, the raw root. */
  function MerkleRootInput(chunkSize: nat, leafCount: U64, root: Digest): (input: Bytes)
    ensures |input| == chunkSize + 8 + DIGEST_LENGTH
  {
    Repeat(0, chunkSize) + LeBytes(leafCount, 8) + root
  }

  /** The three fields can be read back from their places. */
  lemma MerkleRootInputLayout(chunkSize: nat, leafCount: U64, root: Digest)
    ensures var input := MerkleRootInput(chunkSize, leafCount, root);
            && (forall i | 0 <= i < chunkSize :: input[i] == 0)
            && FromLe(input[chunkSize..chunkSize + 8]) == leafCount
            && input[chunkSize + 8..] == root
  {
    var input := MerkleRootInput(chunkSize, leafCount, root);
    WordLimits();
    LeRoundTrip(leafCount, 8);
    assert input[chunkSize..chunkSize + 8] == LeBytes(leafCount, 8);
  }

  function HashMerkleRoot(h: Hasher, chunkSize: nat, leafCount: U64, root: Digest): Digest {
    h(MerkleRootInput(chunkSize, leafCount, root))
  }

  function HashMerkleTree(h: Hasher, chunkSize: nat, leaves: seq<Digest>): Digest {
    if leaves == [] then SENTINEL_MERKLE_TREE
    else HashMerkleRoot(h, chunkSize, |leaves| % U64_LIMIT, LevelFold(Pairing(h), leaves))
  }

  /** A right fold over a slice whose missing tail is summed up by `proof`. */
  function HashSliceWithProof(h: Hasher, slice: seq<Digest>, proof: Digest): Digest {
    if slice == [] then proof
    else HashPair(h, slice[0], HashSliceWithProof(h, slice[1..], proof))
  }

  function HashSliceRfold(h: Hasher, slice: seq<Digest>): Digest {
    HashSliceWithProof(h, slice, SENTINEL_RFOLD)
  }

  /** The reserved digests: 32 bytes of 2 for no leaves, 32 bytes of 1 for an empty slice. */
  lemma EmptyDigests(h: Hasher, chunkSize: nat, i: nat)
    requires i < 32
    ensures |HashMerkleTree(h, chunkSize, [])| == 32 && HashMerkleTree(h, chunkSize, [])[i] == 2
    ensures |HashSliceRfold(h, [])| == 32 && HashSliceRfold(h, [])[i] == 1
  {
  }

  /** The raw root of a non-empty tree, computed top-down. */
  function RawRoot(h: Hasher, leaves: seq<Digest>): Digest
    requires leaves != []
  {
    SplitFold(Pairing(h), leaves)
  }

  lemma RawRootOfLeaf(h: Hasher, leaves: seq<Digest>)
    requires |leaves| == 1
    ensures RawRoot(h, leaves) == leaves[0]
  {
  }

  lemma RawRootStep(h: Hasher, leaves: seq<Digest>)
    requires |leaves| > 1
    ensures var k := SplitPoint(|leaves|);
            RawRoot(h, leaves) == h(RawRoot(h, leaves[..k]) + RawRoot(h, leaves[k..]))
  {
    hide SplitPoint;
  }

  lemma SmallWord(n: nat)
    requires n < U64_LIMIT
    ensures n % U64_LIMIT == n
  {
  }

  lemma HashMerkleTreeIsRawRoot(h: Hasher, chunkSize: nat, leaves: seq<Digest>)
    requires 0 < |leaves| < U64_LIMIT
    ensures HashMerkleTree(h, chunkSize, leaves)
         == HashMerkleRoot(h, chunkSize, |leaves|, RawRoot(h, leaves))
  {
    hide LevelFold, SplitFold, HashMerkleRoot;
    LevelFoldIsSplitFold(Pairing(h), leaves);
    SmallWord(|leaves|);
  }

  /** The final hash input determines the leaf count and the raw root. */
  lemma MerkleRootInputInjective(chunkSize: nat, n: U64, r: Digest, m: U64, s: Digest)
    requires MerkleRootInput(chunkSize, n, r) == MerkleRootInput(chunkSize, m, s)
    ensures n == m && r == s
  {
    MerkleRootInputLayout(chunkSize, n, r);
    MerkleRootInputLayout(chunkSize, m, s);
  }

  /** The hash of a tail can stand in for the tail, at any cut. */
  lemma {:induction false} RfoldResumes(h: Hasher, slice: seq<Digest>, k: nat)
    requires k <= |slice|
    ensures HashSliceWithProof(h, slice[..k], HashSliceRfold(h, slice[k..])) == HashSliceRfold(h, slice)
  {
    if k > 0 {
      RfoldResumes(h, slice[1..], k - 1);
      assert slice[..k][1..] == slice[1..][..k - 1];
      assert slice[k..] == slice[1..][k - 1..];
    } else {
      assert slice[0..] == slice;
    }
  }

  /** Walks down two right folds, the first not longer, to the first inputs that differ. */
  function SliceClash(h: Hasher, xs: seq<Digest>, p: Digest, ys: seq<Digest>, q: Digest): Clash
    requires |xs| <= |ys|
  {
    if xs == [] then None else
    var x: Bytes := xs[0] + HashSliceWithProof(h, xs[1..], p);
    var y: Bytes := ys[0] + HashSliceWithProof(h, ys[1..], q);
    if x != y then Some((x, y)) else SliceClash(h, xs[1..], p, ys[1..], q)
  }

  /** Equal right folds: one slice continues the other and its proof sums up the rest, or a collision is in hand. */
  lemma {:induction false} SliceBinding(h: Hasher, xs: seq<Digest>, p: Digest, ys: seq<Digest>, q: Digest)
    requires |xs| <= |ys|
    requires HashSliceWithProof(h, xs, p) == HashSliceWithProof(h, ys, q)
    ensures Sound(h, SliceClash(h, xs, p, ys, q))
    ensures SliceClash(h, xs, p, ys, q).Some? || (xs <= ys && p == HashSliceWithProof(h, ys[|xs|..], q))
  {
    if xs == [] {
      assert ys[0..] == ys;
    } else {
      var a: Bytes, b: Bytes := xs[0], HashSliceWithProof(h, xs[1..], p);
      var c: Bytes, d: Bytes := ys[0], HashSliceWithProof(h, ys[1..], q);
      if a + b == c + d {
        ConcatInjective(a, b, c, d);
        SliceBinding(h, xs[1..], p, ys[1..], q);
        assert ys[|xs|..] == ys[1..][|xs[1..]|..];
        assert xs == [xs[0]] + xs[1..] && ys == [ys[0]] + ys[1..];
      }
    }
  }

  function RfoldClash(h: Hasher, xs: seq<Digest>, ys: seq<Digest>): Clash {
    if |xs| <= |ys| then SliceClash(h, xs, SENTINEL_RFOLD, ys, SENTINEL_RFOLD)
    else SliceClash(h, ys, SENTINEL_RFOLD, xs, SENTINEL_RFOLD)
  }

  /** The input hashed at one position of a right fold. */
  function RfoldInput(h: Hasher, slice: seq<Digest>, i: nat): Bytes
    requires i < |slice|
  {
    slice[i] + HashSliceRfold(h, slice[i + 1..])
  }

  /**
   Two slices with one right fold are equal, or a collision is in hand, or the longer one yields an
   input that hashes to the reserved digest.
   */
  lemma RfoldBinding(h: Hasher, xs: seq<Digest>, ys: seq<Digest>)
    requires HashSliceRfold(h, xs) == HashSliceRfold(h, ys)
    ensures Sound(h, RfoldClash(h, xs, ys))
    ensures RfoldClash(h, xs, ys).Some? || xs == ys
         || (|xs| < |ys| && h(RfoldInput(h, ys, |xs|)) == SENTINEL_RFOLD)
         || (|ys| < |xs| && h(RfoldInput(h, xs, |ys|)) == SENTINEL_RFOLD)
  {
    var (short, long) := if |xs| <= |ys| then (xs, ys) else (ys, xs);
    SliceBinding(h, short, SENTINEL_RFOLD, long, SENTINEL_RFOLD);
    var tail := long[|short|..];
    if tail == [] {
      assert long[..|short|] == long;
    } else {
      assert tail[0] == long[|short|] && tail[1..] == long[|short| + 1..];
    }
  }

  /** Descends both trees to a pair of nodes that hash equal but differ. */
  function TreeClash(h: Hasher, xs: seq<Digest>, ys: seq<Digest>): Clash
    requires |xs| == |ys| > 0
    decreases |xs|
  {
    if |xs| == 1 then None else
    var k := SplitPoint(|xs|);
    var x := RawRoot(h, xs[..k]) + RawRoot(h, xs[k..]);
    var y := RawRoot(h, ys[..k]) + RawRoot(h, ys[k..]);
    if x != y then Some((x, y))
    else if xs[..k] != ys[..k] then TreeClash(h, xs[..k], ys[..k])
    else TreeClash(h, xs[k..], ys[k..])
  }

  /** Equal raw roots over equally many leaves: the leaves are equal, or a collision is in hand. */
  lemma {:induction false} TreeBinding(h: Hasher, xs: seq<Digest>, ys: seq<Digest>)
    requires |xs| == |ys| > 0
    requires RawRoot(h, xs) == RawRoot(h, ys)
    ensures Sound(h, TreeClash(h, xs, ys))
    ensures xs == ys || TreeClash(h, xs, ys).Some?
    decreases |xs|
  {
    hide SplitPoint, RawRoot;
    if |xs| == 1 {
      RawRootOfLeaf(h, xs);
      RawRootOfLeaf(h, ys);
    } else {
      RawRootStep(h, xs);
      RawRootStep(h, ys);
      var k := SplitPoint(|xs|);
      var l: Bytes, r: Bytes := RawRoot(h, xs[..k]), RawRoot(h, xs[k..]);
      var l': Bytes, r': Bytes := RawRoot(h, ys[..k]), RawRoot(h, ys[k..]);
      if l + r == l' + r' {
        ConcatInjective(l, r, l', r');
        TreeBinding(h, xs[..k], ys[..k]);
        TreeBinding(h, xs[k..], ys[k..]);
        assert xs == xs[..k] + xs[k..] && ys == ys[..k] + ys[k..];
      }
    }
  }

  function MerkleClash(h: Hasher, chunkSize: nat, xs: seq<Digest>, ys: seq<Digest>): Clash
    requires 0 < |xs| < U64_LIMIT && 0 < |ys| < U64_LIMIT
  {
    var x := MerkleRootInput(chunkSize, |xs|, RawRoot(h, xs));
    var y := MerkleRootInput(chunkSize, |ys|, RawRoot(h, ys));
    if x != y then Some((x, y))
    else if |xs| == |ys| then TreeClash(h, xs, ys)
    else None
  }

  /** `hash_merkle_tree` binds the number of leaves and every leaf. */
  lemma MerkleBinding(h: Hasher, chunkSize: nat, xs: seq<Digest>, ys: seq<Digest>)
    requires 0 < |xs| < U64_LIMIT && 0 < |ys| < U64_LIMIT
    requires HashMerkleTree(h, chunkSize, xs) == HashMerkleTree(h, chunkSize, ys)
    ensures Sound(h, MerkleClash(h, chunkSize, xs, ys))
    ensures xs == ys || MerkleClash(h, chunkSize, xs, ys).Some?
  {
    HashMerkleTreeIsRawRoot(h, chunkSize, xs);
    HashMerkleTreeIsRawRoot(h, chunkSize, ys);
    var x := MerkleRootInput(chunkSize, |xs|, RawRoot(h, xs));
    var y := MerkleRootInput(chunkSize, |ys|, RawRoot(h, ys));
    if x == y {
      MerkleRootInputInjective(chunkSize, |xs|, RawRoot(h, xs), |ys|, RawRoot(h, ys));
      TreeBinding(h, xs, ys);
    }
  }
}
