/**
 Indexed Merkle proofs: building a proof, the expected proof length, the root a proof stands for,
 and what a verified proof says about the leaves.
 */
module MerkleProof {
  import opened Basics
  import opened TreeFold
  import opened Hashing
  import opened ProofTree

  datatype IndexedMerkleProof = IndexedMerkleProof(index: U64, count: U64, proof: seq<Digest>)

  datatype ConstructionError =
    | IndexOutOfBounds(count: U64, index: U64)
    | TooManyLeaves(leaves: nat)

  datatype VerificationError =
    | IndexNotBelowCount(count: U64, index: U64)
    | UnexpectedProofLength(count: U64, index: U64, expected: U8, actual: nat)

  // ----- The pivot, the path and the length ------------------------------------------------------

  function BitLength(n: nat): nat {
    if n == 0 then 0 else 1 + BitLength(n / 2)
  }

  /** `u64::leading_zeros`. */
  function LeadingZeros(n: U64): int {
    64 - BitLength(n)
  }

  /** `1u64 << (63 - (n - 1).leading_zeros())` is the split point of the tree. */
  lemma {:induction false} PivotExponent(n: nat)
    requires n > 1
    ensures BitLength(n - 1) > 0 && Pow2(BitLength(n - 1) - 1) == SplitPoint(n)
  {
    if n > 2 {
      assert (n - 1) / 2 == (n + 1) / 2 - 1;
      PivotExponent((n + 1) / 2);
    }
  }

  function Pivot(n: U64): (pivot: U64)
    requires n > 1
    ensures pivot == SplitPoint(n)
  {
    PivotExponent(n);
    Pow2(63 - LeadingZeros(n - 1))
  }

  lemma DepthFitsInWord(i: U64, n: U64)
    ensures Depth(i, n) <= 64
  {
    WordLimits();
    DepthBound(i, n, 64);
  }

  method ComputeExpectedProofLength(p: IndexedMerkleProof) returns (l: U8)
    ensures l == ExpectedProofLength(p.index, p.count)
    ensures l <= 65
  {
    hide SplitPoint;
    DepthFitsInWord(p.index, p.count);
    if p.count == 0 {
      return 0;
    }
    l := 1;
    var n, i := p.count, p.index;
    while n > 1
      invariant n >= 1
      invariant l + Depth(i, n) == ExpectedProofLength(p.index, p.count) <= 65
      decreases n
    {
      var pivot := Pivot(n);
      if i < pivot {
        n := pivot;
      } else {
        n := n - pivot;
        i := i - pivot;
      }
      l := l + 1;
    }
  }

  // ----- The root of a proof ---------------------------------------------------------------------

  function RawRootOfProof(h: Hasher, p: IndexedMerkleProof): Digest {
    if p.proof == [] then SENTINEL_MERKLE_TREE
    else FoldUp(Pairing(h), p.proof[0], Path(p.index, p.count), p.proof[1..])
  }

  function RootHash(h: Hasher, chunkSize: nat, p: IndexedMerkleProof): Digest {
    HashMerkleRoot(h, chunkSize, p.count, RawRootOfProof(h, p))
  }

  /** A path read as a binary number, first direction most significant. */
  function PathBits(path: seq<bool>): nat {
    if path == [] then 0
    else
      var last := |path| - 1;
      2 * PathBits(path[..last]) + if path[last] then 1 else 0
  }

  lemma {:induction false} PathBitsBound(path: seq<bool>)
    ensures PathBits(path) < Pow2(|path|)
  {
    if path != [] {
      PathBitsBound(path[..|path| - 1]);
    }
  }

  lemma {:induction false} Pow2Monotone(a: nat, b: nat)
    requires a <= b
    ensures Pow2(a) <= Pow2(b)
  {
    if a < b {
      Pow2Monotone(a, b - 1);
    }
  }

  /** `x << 1` on a 64-bit word: the top bit is dropped. */
  function ShiftLeft(x: U64): U64 {
    x * 2 % U64_LIMIT
  }

  /** Another direction can be shifted into the path word without losing one already there. */
  lemma NoBitLost(path: seq<bool>, next: bool)
    requires |path| < 64
    ensures PathBits(path) < U64_LIMIT && ShiftLeft(PathBits(path)) + 1 < U64_LIMIT
    ensures PathBits(path + [next]) == ShiftLeft(PathBits(path)) + if next then 1 else 0
  {
    PathBitsBound(path);
    Pow2Monotone(|path|, 63);
    HalfWord();
    ShiftLeftExact(PathBits(path));
    hide Pow2, ShiftLeft;
    assert (path + [next])[..|path|] == path;
  }

  lemma ShiftLeftExact(x: U64)
    requires 2 * x < U64_LIMIT
    ensures ShiftLeft(x) == 2 * x
  {
  }

  lemma HalfWord()
    ensures 2 * Pow2(63) == U64_LIMIT
  {
    WordLimits();
    assert Pow2(64) == 2 * Pow2(63);
  }

  /**
   The first loop of `root_hash`.  `path |= 1` sets the bit that the shift has just cleared.
   */
  method ComputePath(index: U64, count: U64) returns (path: U64)
    ensures path == PathBits(Path(index, count))
  {
    path := 0;
    assert PathBits([]) == 0;
    hide SplitPoint, Path, PathBits, Depth, ShiftLeft, Pow2, BitLength;
    var n, i := count, index;
    ghost var taken: seq<bool> := [];
    DepthFitsInWord(index, count);
    while n > 1
      invariant taken + Path(i, n) == Path(index, count)
      invariant path == PathBits(taken)
      decreases n
    {
      var pivot := Pivot(n);
      PathStep(taken, i, n);
      NoBitLost(taken, i >= pivot);
      path := ShiftLeft(path);
      taken := taken + [i >= pivot];
      if i < pivot {
        n := pivot;
      } else {
        path := path + 1;
        n := n - pivot;
        i := i - pivot;
      }
    }
    PathOfOne(i, n);
    assert taken == Path(index, count);
  }

  /** The second loop reads the directions back with `path & 1` and `path >>= 1`. */
  method ComputeRootHash(h: Hasher, chunkSize: nat, p: IndexedMerkleProof) returns (root: Digest)
    ensures root == RootHash(h, chunkSize, p)
  {
    var rawRoot := SENTINEL_MERKLE_TREE;
    if p.proof != [] {
      var path := ComputePath(p.index, p.count);
      ghost var taken := Path(p.index, p.count);
      var acc: Digest := p.proof[0];
      var j := 1;
      while j < |p.proof|
        invariant 1 <= j <= |p.proof|
        invariant path == PathBits(taken)
        invariant FoldUp(Pairing(h), acc, taken, p.proof[j..]) == RawRootOfProof(h, p)
      {
        acc := if path % 2 == 1 then HashPair(h, p.proof[j], acc) else HashPair(h, acc, p.proof[j]);
        path := path / 2;
        assert p.proof[j..][1..] == p.proof[j + 1..];
        taken := if taken == [] then [] else taken[..|taken| - 1];
        j := j + 1;
      }
      rawRoot := acc;
    }
    root := HashMerkleRoot(h, chunkSize, p.count, rawRoot);
  }

  /** The recursive definition of the root that the bit-path loop is meant to agree with. */
  function ReferenceRawRoot(h: Hasher, p: IndexedMerkleProof): Digest
    requires |p.proof| == ExpectedProofLength(p.index, p.count)
  {
    if p.count == 0 then SENTINEL_MERKLE_TREE
    else ReferenceRoot(Pairing(h), p.index, p.count, p.proof)
  }

  /** The loop agrees with the recursion for every index (in range or not) and every count. */
  lemma RootHashIsReference(h: Hasher, chunkSize: nat, p: IndexedMerkleProof)
    requires |p.proof| == ExpectedProofLength(p.index, p.count)
    ensures RootHash(h, chunkSize, p) == HashMerkleRoot(h, chunkSize, p.count, ReferenceRawRoot(h, p))
  {
    if p.count > 0 {
      FoldUpIsReference(Pairing(h), p.index, p.count, p.proof);
    }
  }

  // ----- Building and verifying ------------------------------------------------------------------

  function Verify(p: IndexedMerkleProof): Result<(), VerificationError> {
    DepthFitsInWord(p.index, p.count);
    var expected := ExpectedProofLength(p.index, p.count);
    if p.index >= p.count then Err(IndexNotBelowCount(p.count, p.index))
    else if |p.proof| != expected then
      Err(UnexpectedProofLength(p.count, p.index, expected, |p.proof|))
    else Ok(())
  }

  function NewProof(h: Hasher, leaves: seq<Digest>, index: U64): Result<IndexedMerkleProof, ConstructionError> {
    if |leaves| >= U64_LIMIT then Err(TooManyLeaves(|leaves|))
    else if leaves == [] then Err(IndexOutOfBounds(0, index))
    else
      FoldNeverPanics(Pairing(h), leaves, index);
      match LevelFold(Join(Pairing(h)), Mark(leaves, index))
      case Hash(_) => Err(IndexOutOfBounds(|leaves|, index))
      case Proof(digests) => Ok(IndexedMerkleProof(index, |leaves|, digests))
  }

  /** The proof for one leaf of a tree. */
  function ProofFor(h: Hasher, leaves: seq<Digest>, index: U64): (p: IndexedMerkleProof)
    requires index < |leaves| < U64_LIMIT
    ensures p.proof != [] && p.proof[0] == leaves[index]
  {
    IndexedMerkleProof(index, |leaves|, Siblings(Pairing(h), leaves, index))
  }

  /** A verified proof that is moved out of range or changes its length is refused with the exact reason. */
  lemma TamperedProof(p: IndexedMerkleProof, q: IndexedMerkleProof)
    requires Verify(p) == Ok(())
    ensures q.index >= q.count ==> Verify(q) == Err(IndexNotBelowCount(q.count, q.index))
    ensures q.index == p.index && q.count == p.count ==>
              if |q.proof| == |p.proof| then Verify(q) == Ok(())
              else
                && Verify(q).Err? && Verify(q).error.UnexpectedProofLength?
                && Verify(q).error.expected == |p.proof| && Verify(q).error.actual == |q.proof|
                && Verify(q).error.index == p.index && Verify(q).error.count == p.count
  {
  }

  /** Every leaf has a proof, it verifies, and its root is the root of the tree. */
  lemma Completeness(h: Hasher, chunkSize: nat, leaves: seq<Digest>, index: U64)
    requires |leaves| < U64_LIMIT
    ensures index >= |leaves| ==> NewProof(h, leaves, index) == Err(IndexOutOfBounds(|leaves|, index))
    ensures index < |leaves| ==>
              var p := ProofFor(h, leaves, index);
              && NewProof(h, leaves, index) == Ok(p)
              && p.proof[0] == leaves[index]
              && Verify(p) == Ok(())
              && RootHash(h, chunkSize, p) == HashMerkleTree(h, chunkSize, leaves)
  {
    if leaves != [] {
      NewProofFold(h, leaves, index);
      if index < |leaves| {
        var p := ProofFor(h, leaves, index);
        SiblingsRoot(Pairing(h), leaves, index);
        RootHashIsReference(h, chunkSize, p);
        HashMerkleTreeIsRawRoot(h, chunkSize, leaves);
      }
    }
  }

  lemma NewProofFold(h: Hasher, leaves: seq<Digest>, index: U64)
    requires 0 < |leaves| < U64_LIMIT
    ensures NewProof(h, leaves, index)
         == if index < |leaves| then Ok(ProofFor(h, leaves, index)) else Err(IndexOutOfBounds(|leaves|, index))
  {
    LevelFoldIsSplitFold(Join(Pairing(h)), Mark(leaves, index));
    MarkedFold(Pairing(h), leaves, index);
  }

  // ----- Binding ---------------------------------------------------------------------------------

  /** The two digests hashed at the top of a proof, left then right. */
  function TopInput(h: Hasher, i: nat, n: nat, proof: seq<Digest>): Bytes
    requires n > 1 && |proof| == ExpectedProofLength(i, n)
  {
    var k := SplitPoint(n);
    var last := |proof| - 1;
    if i < k then
      var below: Bytes := ReferenceRoot(Pairing(h), i, k, proof[..last]);
      below + proof[last]
    else
      var below: Bytes := ReferenceRoot(Pairing(h), i - k, n - k, proof[..last]);
      proof[last] + below
  }

  lemma TopInputIsHashed(h: Hasher, i: nat, n: nat, proof: seq<Digest>)
    requires n > 1 && |proof| == ExpectedProofLength(i, n)
    ensures ReferenceRoot(Pairing(h), i, n, proof) == h(TopInput(h, i, n, proof))
  {
    hide SplitPoint;
  }

  /** Descends two proofs for one leaf together to two node inputs that hash equal but differ. */
  function PathClash(h: Hasher, i: nat, n: nat, p: seq<Digest>, q: seq<Digest>): Clash
    requires n > 0 && |p| == |q| == ExpectedProofLength(i, n)
    decreases n
  {
    if n == 1 then None else
    var k := SplitPoint(n);
    var last := |p| - 1;
    var x, y := TopInput(h, i, n, p), TopInput(h, i, n, q);
    if x != y then Some((x, y))
    else if i < k then PathClash(h, i, k, p[..last], q[..last])
    else PathClash(h, i - k, n - k, p[..last], q[..last])
  }

  lemma {:induction false} PathBinding(h: Hasher, i: nat, n: nat, p: seq<Digest>, q: seq<Digest>)
    requires n > 0 && |p| == |q| == ExpectedProofLength(i, n)
    requires ReferenceRoot(Pairing(h), i, n, p) == ReferenceRoot(Pairing(h), i, n, q)
    ensures Sound(h, PathClash(h, i, n, p, q))
    ensures p == q || PathClash(h, i, n, p, q).Some?
    decreases n
  {
    hide SplitPoint, ReferenceRoot, TopInput;
    if n == 1 {
      ReferenceRootOfLeaf(Pairing(h), i, p);
      ReferenceRootOfLeaf(Pairing(h), i, q);
      assert p == [p[0]] && q == [q[0]];
    } else {
      var k := SplitPoint(n);
      var last := |p| - 1;
      TopInputIsHashed(h, i, n, p);
      TopInputIsHashed(h, i, n, q);
      if TopInput(h, i, n, p) == TopInput(h, i, n, q) {
        var (i', n') := if i < k then (i, k) else (i - k, n - k);
        TopInputParts(h, i, n, p, q);
        PathBinding(h, i', n', p[..last], q[..last]);
        assert p == p[..last] + [p[last]] && q == q[..last] + [q[last]];
      }
    }
  }

  /** Equal top inputs come from equal siblings and equal roots below. */
  lemma TopInputParts(h: Hasher, i: nat, n: nat, p: seq<Digest>, q: seq<Digest>)
    requires n > 1 && |p| == |q| == ExpectedProofLength(i, n)
    requires TopInput(h, i, n, p) == TopInput(h, i, n, q)
    ensures var k := SplitPoint(n);
            var last := |p| - 1;
            var (i', n') := if i < k then (i, k) else (i - k, n - k);
            && p[last] == q[last]
            && ReferenceRoot(Pairing(h), i', n', p[..last]) == ReferenceRoot(Pairing(h), i', n', q[..last])
  {
    hide SplitPoint, ReferenceRoot;
    var k := SplitPoint(n);
    var last := |p| - 1;
    var (i', n') := if i < k then (i, k) else (i - k, n - k);
    var a: Bytes := ReferenceRoot(Pairing(h), i', n', p[..last]);
    var b: Bytes := ReferenceRoot(Pairing(h), i', n', q[..last]);
    var c: Bytes, d: Bytes := p[last], q[last];
    if i < k {
      ConcatInjective(a, c, b, d);
    } else {
      ConcatInjective(c, a, d, b);
    }
  }

  /** The bytes hashed last for a proof. */
  function ProofRootInput(h: Hasher, chunkSize: nat, p: IndexedMerkleProof): Bytes
    requires |p.proof| == ExpectedProofLength(p.index, p.count)
  {
    MerkleRootInput(chunkSize, p.count, ReferenceRawRoot(h, p))
  }

  function ProofsClash(h: Hasher, chunkSize: nat, p: IndexedMerkleProof, q: IndexedMerkleProof): Clash
    requires Verify(p) == Ok(()) && Verify(q) == Ok(())
  {
    var x, y := ProofRootInput(h, chunkSize, p), ProofRootInput(h, chunkSize, q);
    if x != y then Some((x, y))
    else if p.index == q.index && p.count == q.count then PathClash(h, p.index, p.count, p.proof, q.proof)
    else None
  }

  /** Two verified proofs for one index with one root are the same proof, whatever that root is. */
  lemma NoEquivocation(h: Hasher, chunkSize: nat, p: IndexedMerkleProof, q: IndexedMerkleProof)
    requires Verify(p) == Ok(()) && Verify(q) == Ok(()) && p.index == q.index
    requires RootHash(h, chunkSize, p) == RootHash(h, chunkSize, q)
    ensures Sound(h, ProofsClash(h, chunkSize, p, q))
    ensures p == q || ProofsClash(h, chunkSize, p, q).Some?
  {
    RootHashIsReference(h, chunkSize, p);
    RootHashIsReference(h, chunkSize, q);
    if ProofRootInput(h, chunkSize, p) == ProofRootInput(h, chunkSize, q) {
      MerkleRootInputInjective(chunkSize, p.count, ReferenceRawRoot(h, p), q.count, ReferenceRawRoot(h, q));
      PathBinding(h, p.index, p.count, p.proof, q.proof);
    }
  }

  function ProofClash(h: Hasher, chunkSize: nat, leaves: seq<Digest>, p: IndexedMerkleProof): Clash
    requires 0 < |leaves| < U64_LIMIT
    requires Verify(p) == Ok(())
  {
    if p.index < |leaves| then
      Completeness(h, chunkSize, leaves, p.index);
      ProofsClash(h, chunkSize, p, ProofFor(h, leaves, p.index))
    else Some((ProofRootInput(h, chunkSize, p), MerkleRootInput(chunkSize, |leaves|, RawRoot(h, leaves))))
  }

  /** A verified proof with the root of `leaves` is the one `NewProof` builds, or a collision is in hand. */
  lemma ProofBinding(h: Hasher, chunkSize: nat, leaves: seq<Digest>, p: IndexedMerkleProof)
    requires 0 < |leaves| < U64_LIMIT
    requires Verify(p) == Ok(())
    requires RootHash(h, chunkSize, p) == HashMerkleTree(h, chunkSize, leaves)
    ensures Sound(h, ProofClash(h, chunkSize, leaves, p))
    ensures ProofClash(h, chunkSize, leaves, p).Some? || NewProof(h, leaves, p.index) == Ok(p)
  {
    Completeness(h, chunkSize, leaves, p.index);
    if p.index < |leaves| {
      NoEquivocation(h, chunkSize, p, ProofFor(h, leaves, p.index));
    } else {
      RootHashIsReference(h, chunkSize, p);
      HashMerkleTreeIsRawRoot(h, chunkSize, leaves);
      if ProofRootInput(h, chunkSize, p) == MerkleRootInput(chunkSize, |leaves|, RawRoot(h, leaves)) {
        MerkleRootInputInjective(chunkSize, p.count, ReferenceRawRoot(h, p), |leaves|, RawRoot(h, leaves));
      }
    }
  }
}
