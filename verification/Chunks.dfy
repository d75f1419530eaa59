/** Data cut into chunks: chunked hashing, one chunk with its proof, and putting the chunks back together. */
module Chunks {
  import opened Basics
  import opened Hashing
  import opened ProofTree
  import opened MerkleProof
  import opened MerkleSets

  datatype ChunkWithProof = ChunkWithProof(proof: IndexedMerkleProof, chunk: Bytes)

  datatype ChunkError =
    | MerkleVerification(error: VerificationError)
    | EmptyMerkleProof(chunkWithProof: ChunkWithProof)
    | FirstDigestMismatch(first: Digest, hashOfChunk: Digest)

  /** `slice::chunks`: pieces of `size` bytes, the last one possibly shorter, none for no data. */
  function Cut(data: Bytes, size: nat): (pieces: seq<Bytes>)
    requires size > 0
    ensures |pieces| <= |data|
    ensures |data| > size <==> |pieces| > 1
    decreases |data|
  {
    if data == [] then []
    else if |data| <= size then [data]
    else [data[..size]] + Cut(data[size..], size)
  }

  function Flatten(pieces: seq<Bytes>): Bytes {
    if pieces == [] then [] else pieces[0] + Flatten(pieces[1..])
  }

  lemma {:induction false} FlattenCut(data: Bytes, size: nat)
    requires size > 0
    ensures Flatten(Cut(data, size)) == data
    decreases |data|
  {
    hide Flatten;
    FlattenCons([], []);
    if |data| > size {
      FlattenCut(data[size..], size);
      FlattenCons(data[..size], Cut(data[size..], size));
      assert data == data[..size] + data[size..];
    } else if data != [] {
      FlattenCons(data, []);
      assert [data] == [data] + [];
    }
  }

  lemma FlattenCons(piece: Bytes, pieces: seq<Bytes>)
    ensures Flatten([]) == []
    ensures Flatten([piece] + pieces) == piece + Flatten(pieces)
  {
    assert ([piece] + pieces)[1..] == pieces;
  }

  /** All pieces have `size` bytes, except the last, which has between 1 and `size`. */
  predicate Even(pieces: seq<Bytes>, size: nat) {
    forall i | 0 <= i < |pieces| ::
      if i < |pieces| - 1 then |pieces[i]| == size else 0 < |pieces[i]| <= size
  }

  /** `Cut` is the only way to cut evenly. */
  lemma {:induction false} CutIsEven(data: Bytes, size: nat)
    requires size > 0
    ensures Even(Cut(data, size), size)
    decreases |data|
  {
    if |data| > size {
      CutIsEven(data[size..], size);
      var rest := Cut(data[size..], size);
      assert rest != [];
      forall i | 0 <= i < |rest| + 1
        ensures var piece := ([data[..size]] + rest)[i];
                if i < |rest| then |piece| == size else 0 < |piece| <= size
      {
        if i > 0 {
          assert ([data[..size]] + rest)[i] == rest[i - 1];
        }
      }
    }
  }

  lemma {:induction false} CutFlatten(pieces: seq<Bytes>, size: nat)
    requires size > 0 && Even(pieces, size)
    ensures Cut(Flatten(pieces), size) == pieces
  {
    if |pieces| == 1 {
      assert pieces[1..] == [] && Flatten(pieces) == pieces[0] + [] == pieces[0];
    } else if |pieces| > 1 {
      var rest := pieces[1..];
      assert forall i | 0 <= i < |rest| :: rest[i] == pieces[i + 1];
      CutFlatten(rest, size);
      assert Flatten(rest) == rest[0] + Flatten(rest[1..]);
      var data := Flatten(pieces);
      assert data[..size] == pieces[0] && data[size..] == Flatten(rest);
    }
  }

  function Digests(h: Hasher, pieces: seq<Bytes>): (ds: seq<Digest>)
    ensures |ds| == |pieces|
    ensures forall i | 0 <= i < |pieces| :: ds[i] == h(pieces[i])
  {
    if pieces == [] then [] else [h(pieces[0])] + Digests(h, pieces[1..])
  }

  function HashBytesIntoChunksIfNecessary(h: Hasher, chunkSize: nat, data: Bytes): Digest
    requires chunkSize > 0
  {
    if |data| <= chunkSize then h(data) else HashMerkleTree(h, chunkSize, Digests(h, Cut(data, chunkSize)))
  }

  // ----- Chunked hashing binds the data ----------------------------------------------------------

  /** The first place where two lists of pieces differ. */
  function PiecesClash(xs: seq<Bytes>, ys: seq<Bytes>): Clash
    requires |xs| == |ys|
  {
    if xs == [] then None
    else if xs[0] != ys[0] then Some((xs[0], ys[0]))
    else PiecesClash(xs[1..], ys[1..])
  }

  lemma {:induction false} PiecesBinding(h: Hasher, xs: seq<Bytes>, ys: seq<Bytes>)
    requires |xs| == |ys|
    requires forall i | 0 <= i < |xs| :: h(xs[i]) == h(ys[i])
    ensures Sound(h, PiecesClash(xs, ys))
    ensures xs == ys || PiecesClash(xs, ys).Some?
  {
    if xs != [] {
      assert h(xs[0]) == h(ys[0]);
      forall i | 0 <= i < |xs[1..]| ensures h(xs[1..][i]) == h(ys[1..][i]) {
        assert xs[1..][i] == xs[i + 1] && ys[1..][i] == ys[i + 1];
      }
      PiecesBinding(h, xs[1..], ys[1..]);
      assert xs == [xs[0]] + xs[1..] && ys == [ys[0]] + ys[1..];
    }
  }

  /** The bytes whose BLAKE2b hash is the digest of `data`. */
  function FinalInput(h: Hasher, chunkSize: nat, data: Bytes): Bytes
    requires chunkSize > 0 && |data| < U64_LIMIT
  {
    if |data| <= chunkSize then data else
    var leaves := Digests(h, Cut(data, chunkSize));
    MerkleRootInput(chunkSize, |leaves|, RawRoot(h, leaves))
  }

  lemma FinalInputIsHashed(h: Hasher, chunkSize: nat, data: Bytes)
    requires chunkSize > 0 && |data| < U64_LIMIT
    ensures HashBytesIntoChunksIfNecessary(h, chunkSize, data) == h(FinalInput(h, chunkSize, data))
    ensures |FinalInput(h, chunkSize, data)| <= chunkSize <==> |data| <= chunkSize
  {
    if |data| > chunkSize {
      HashMerkleTreeIsRawRoot(h, chunkSize, Digests(h, Cut(data, chunkSize)));
    }
  }

  function DataClash(h: Hasher, chunkSize: nat, a: Bytes, b: Bytes): Clash
    requires chunkSize > 0 && |a| < U64_LIMIT && |b| < U64_LIMIT
  {
    var x, y := FinalInput(h, chunkSize, a), FinalInput(h, chunkSize, b);
    if x != y then Some((x, y))
    else if |a| <= chunkSize || |b| <= chunkSize then None
    else
      var xs, ys := Cut(a, chunkSize), Cut(b, chunkSize);
      var c := MerkleClash(h, chunkSize, Digests(h, xs), Digests(h, ys));
      if c.Some? then c
      else if |xs| == |ys| then PiecesClash(xs, ys)
      else None
  }

  /** Two byte strings with one digest are equal, or a collision of the underlying hash is in hand. */
  lemma DataBinding(h: Hasher, chunkSize: nat, a: Bytes, b: Bytes)
    requires chunkSize > 0 && |a| < U64_LIMIT && |b| < U64_LIMIT
    requires HashBytesIntoChunksIfNecessary(h, chunkSize, a) == HashBytesIntoChunksIfNecessary(h, chunkSize, b)
    ensures Sound(h, DataClash(h, chunkSize, a, b))
    ensures a == b || DataClash(h, chunkSize, a, b).Some?
  {
    FinalInputIsHashed(h, chunkSize, a);
    FinalInputIsHashed(h, chunkSize, b);
    if FinalInput(h, chunkSize, a) == FinalInput(h, chunkSize, b) && |a| > chunkSize {
      var xs, ys := Cut(a, chunkSize), Cut(b, chunkSize);
      MerkleBinding(h, chunkSize, Digests(h, xs), Digests(h, ys));
      if Digests(h, xs) == Digests(h, ys) {
        assert forall i | 0 <= i < |xs| :: h(xs[i]) == Digests(h, xs)[i] == Digests(h, ys)[i] == h(ys[i]);
        PiecesBinding(h, xs, ys);
        FlattenCut(a, chunkSize);
        FlattenCut(b, chunkSize);
      }
    }
  }

  // ----- One chunk with its proof ----------------------------------------------------------------

  /** The chunks of `data`; empty data is one empty chunk. */
  function Pieces(data: Bytes, chunkSize: nat): (pieces: seq<Bytes>)
    requires chunkSize > 0
    ensures |pieces| == 1 || 1 < |pieces| <= |data|
    ensures |data| > chunkSize ==> pieces == Cut(data, chunkSize)
  {
    if data == [] then [[]] else Cut(data, chunkSize)
  }

  function NewChunk(h: Hasher, chunkSize: nat, data: Bytes, index: U64): Result<ChunkWithProof, ConstructionError>
    requires chunkSize > 0 && |data| < U64_LIMIT
  {
    if data == [] then
      var proof :- NewProof(h, [h([])], index);
      Ok(ChunkWithProof(proof, []))
    else
      var pieces := Cut(data, chunkSize);
      var proof :- NewProof(h, Digests(h, pieces), index);
      if index >= |pieces| then Err(IndexOutOfBounds(|pieces|, index))
      else Ok(ChunkWithProof(proof, pieces[index]))
  }

  /** A verified Merkle proof is never empty, so the empty-proof error is never returned. */
  function VerifyChunk(h: Hasher, c: ChunkWithProof): (r: Result<(), ChunkError>)
    ensures r.Err? ==> !r.error.EmptyMerkleProof?
  {
    match Verify(c.proof)
    case Err(e) => Err(MerkleVerification(e))
    case Ok(_) =>
      if c.proof.proof == [] then Err(EmptyMerkleProof(c))
      else if c.proof.proof[0] != h(c.chunk) then Err(FirstDigestMismatch(c.proof.proof[0], h(c.chunk)))
      else Ok(())
  }

  /** A verified chunk with other data is refused with both digests, unless the data hashes alike. */
  lemma TamperedChunk(h: Hasher, c: ChunkWithProof, data: Bytes)
    requires VerifyChunk(h, c) == Ok(())
    ensures VerifyChunk(h, ChunkWithProof(c.proof, data))
         == if h(data) == h(c.chunk) then Ok(()) else Err(FirstDigestMismatch(h(c.chunk), h(data)))
  {
  }

  /** Exactly the existing chunks can be requested; each verifies and is the chunk asked for. */
  lemma ChunkCompleteness(h: Hasher, chunkSize: nat, data: Bytes, index: U64)
    requires chunkSize > 0 && |data| < U64_LIMIT
    ensures var pieces := Pieces(data, chunkSize);
            var made := NewChunk(h, chunkSize, data, index);
            if index < |pieces| then
              && made.Ok?
              && made.value.chunk == pieces[index]
              && made.value.proof.index == index && made.value.proof.count == |pieces|
              && VerifyChunk(h, made.value) == Ok(())
              && RootHash(h, chunkSize, made.value.proof) == HashMerkleTree(h, chunkSize, Digests(h, pieces))
            else made == Err(IndexOutOfBounds(|pieces|, index))
  {
    var pieces := Pieces(data, chunkSize);
    assert data == [] ==> Digests(h, pieces) == [h([])];
    Completeness(h, chunkSize, Digests(h, pieces), index);
  }

  /**
   The root in a chunk's proof is the digest of the data whenever the data needs chunking.  For data
   of at most one chunk the two differ, unless they exhibit a collision.
   */
  lemma ChunkRootIsDataHash(h: Hasher, chunkSize: nat, data: Bytes, index: U64)
    requires chunkSize > 0 && |data| < U64_LIMIT
    requires index < |Pieces(data, chunkSize)|
    ensures NewChunk(h, chunkSize, data, index).Ok?
    ensures var root := RootHash(h, chunkSize, NewChunk(h, chunkSize, data, index).value.proof);
            var leaves := Digests(h, Pieces(data, chunkSize));
            if |data| > chunkSize then root == HashBytesIntoChunksIfNecessary(h, chunkSize, data)
            else root == HashBytesIntoChunksIfNecessary(h, chunkSize, data) ==>
                   Collision(h, MerkleRootInput(chunkSize, |leaves|, RawRoot(h, leaves)), data)
  {
    ChunkCompleteness(h, chunkSize, data, index);
    HashMerkleTreeIsRawRoot(h, chunkSize, Digests(h, Pieces(data, chunkSize)));
  }

  // ----- Reassembly ------------------------------------------------------------------------------

  /** The chunks held by `parts`, in order. */
  function Contents(parts: seq<ChunkWithProof>): (pieces: seq<Bytes>)
    ensures |pieces| == |parts|
    ensures forall i | 0 <= i < |parts| :: pieces[i] == parts[i].chunk
  {
    if parts == [] then [] else [parts[0].chunk] + Contents(parts[1..])
  }

  predicate AllVerify(h: Hasher, parts: seq<ChunkWithProof>) {
    forall i | 0 <= i < |parts| :: VerifyChunk(h, parts[i]) == Ok(())
  }

  /** The first collision among the proofs and chunks of `parts[i..]`. */
  function ReassemblyClash(h: Hasher, chunkSize: nat, data: Bytes, parts: seq<ChunkWithProof>, i: nat): Clash
    requires chunkSize > 0 && chunkSize < |data| < U64_LIMIT
    requires i <= |parts| && AllVerify(h, parts)
    decreases |parts| - i
  {
    if i == |parts| then None else
    var pieces := Cut(data, chunkSize);
    var c := ProofClash(h, chunkSize, Digests(h, pieces), parts[i].proof);
    if c.Some? then c
    else if i < |pieces| && parts[i].chunk != pieces[i] then Some((parts[i].chunk, pieces[i]))
    else ReassemblyClash(h, chunkSize, data, parts, i + 1)
  }

  /** What every part must satisfy: it verifies, sits at its own index, and has the root of `data`. */
  predicate PartsOf(h: Hasher, chunkSize: nat, data: Bytes, parts: seq<ChunkWithProof>)
    requires chunkSize > 0
  {
    && AllVerify(h, parts)
    && (forall i | 0 <= i < |parts| :: parts[i].proof.index == i)
    && (forall i | 0 <= i < |parts| ::
          RootHash(h, chunkSize, parts[i].proof) == HashBytesIntoChunksIfNecessary(h, chunkSize, data))
  }

  /** One part: its proof is the genuine one and its chunk hashes like the genuine chunk. */
  lemma PartBinding(h: Hasher, chunkSize: nat, data: Bytes, parts: seq<ChunkWithProof>, i: nat)
    requires chunkSize > 0 && chunkSize < |data| < U64_LIMIT
    requires PartsOf(h, chunkSize, data, parts) && i < |parts|
    ensures var pieces := Cut(data, chunkSize);
            var c := ProofClash(h, chunkSize, Digests(h, pieces), parts[i].proof);
            && Sound(h, c)
            && (c.None? ==> i < |pieces| == parts[i].proof.count && h(parts[i].chunk) == h(pieces[i]))
  {
    var leaves := Digests(h, Cut(data, chunkSize));
    var p := parts[i].proof;
    assert VerifyChunk(h, parts[i]) == Ok(());
    ProofBinding(h, chunkSize, leaves, p);
    Completeness(h, chunkSize, leaves, p.index);
  }

  lemma {:induction false} ReassemblyFrom(h: Hasher, chunkSize: nat, data: Bytes, parts: seq<ChunkWithProof>, i: nat)
    requires chunkSize > 0 && chunkSize < |data| < U64_LIMIT
    requires PartsOf(h, chunkSize, data, parts) && i <= |parts|
    ensures var c := ReassemblyClash(h, chunkSize, data, parts, i);
            var pieces := Cut(data, chunkSize);
            && Sound(h, c)
            && (c.None? ==> forall j | i <= j < |parts| ::
                  j < |pieces| == parts[j].proof.count && parts[j].chunk == pieces[j])
    decreases |parts| - i
  {
    hide ProofClash, Cut, Digests, RootHash, HashBytesIntoChunksIfNecessary, VerifyChunk;
    if i < |parts| {
      PartBinding(h, chunkSize, data, parts, i);
      ReassemblyFrom(h, chunkSize, data, parts, i + 1);
    }
  }

  /** All chunks of `data`, each verified against its digest, are `data`, or a collision is in hand. */
  lemma Reassembly(h: Hasher, chunkSize: nat, data: Bytes, parts: seq<ChunkWithProof>)
    requires chunkSize > 0 && chunkSize < |data| < U64_LIMIT
    requires PartsOf(h, chunkSize, data, parts)
    requires parts != [] && parts[0].proof.count == |parts|
    ensures var c := ReassemblyClash(h, chunkSize, data, parts, 0);
            Sound(h, c) && (c.Some? || Flatten(Contents(parts)) == data)
  {
    ReassemblyFrom(h, chunkSize, data, parts, 0);
    if ReassemblyClash(h, chunkSize, data, parts, 0).None? {
      assert Contents(parts) == Cut(data, chunkSize);
      FlattenCut(data, chunkSize);
    }
  }

  // ----- Chunks collected for a root of unknown origin -------------------------------------------

  /** The digests of the proofs held by `parts`, in order. */
  function Proofs(parts: seq<ChunkWithProof>): (ps: seq<seq<Digest>>)
    ensures |ps| == |parts|
    ensures forall i | 0 <= i < |parts| :: ps[i] == parts[i].proof.proof
  {
    if parts == [] then [] else [parts[0].proof.proof] + Proofs(parts[1..])
  }

  /** One chunk for every index below the common count, all verified. */
  predicate Collected(h: Hasher, parts: seq<ChunkWithProof>) {
    && AllVerify(h, parts) && parts != [] && parts[0].proof.count == |parts|
    && forall i | 0 <= i < |parts| :: parts[i].proof.index == i
  }

  /** The first part from `i` on whose final hash input differs from that of the first part. */
  function RootsClash(h: Hasher, chunkSize: nat, parts: seq<ChunkWithProof>, i: nat): Clash
    requires Collected(h, parts) && i <= |parts|
    decreases |parts| - i
  {
    if i == |parts| then None else
    var x, y := ProofRootInput(h, chunkSize, parts[0].proof), ProofRootInput(h, chunkSize, parts[i].proof);
    if x != y then Some((x, y)) else RootsClash(h, chunkSize, parts, i + 1)
  }

  lemma {:induction false} RootsAgree(h: Hasher, chunkSize: nat, parts: seq<ChunkWithProof>, i: nat)
    requires Collected(h, parts) && i <= |parts| && RootsClash(h, chunkSize, parts, i).None?
    ensures forall j | i <= j < |parts| ::
              && parts[j].proof.count == |parts|
              && ReferenceRawRoot(h, parts[j].proof) == ReferenceRawRoot(h, parts[0].proof)
    decreases |parts| - i
  {
    hide ReferenceRawRoot, MerkleRootInput;
    if i < |parts| {
      RootsAgree(h, chunkSize, parts, i + 1);
      var p, q := parts[0].proof, parts[i].proof;
      assert ProofRootInput(h, chunkSize, p) == ProofRootInput(h, chunkSize, q);
      MerkleRootInputInjective(chunkSize, p.count, ReferenceRawRoot(h, p), q.count, ReferenceRawRoot(h, q));
    }
  }

  lemma CollectedIsFull(h: Hasher, chunkSize: nat, parts: seq<ChunkWithProof>)
    requires Collected(h, parts) && RootsClash(h, chunkSize, parts, 0).None?
    ensures FullSet(Proofs(parts))
  {
    hide ExpectedProofLength;
    RootsAgree(h, chunkSize, parts, 0);
    forall i | 0 <= i < |parts| ensures |Proofs(parts)[i]| == ExpectedProofLength(i, |parts|) {
      assert VerifyChunk(h, parts[i]) == Ok(());
    }
  }

  function CollectedClash(h: Hasher, chunkSize: nat, parts: seq<ChunkWithProof>): Clash
    requires Collected(h, parts)
  {
    var roots := RootsClash(h, chunkSize, parts, 0);
    if roots.Some? then roots else
    CollectedIsFull(h, chunkSize, parts);
    SetClash(h, Proofs(parts))
  }

  lemma {:induction false} RootsClashSound(h: Hasher, chunkSize: nat, parts: seq<ChunkWithProof>, i: nat, root: Digest)
    requires Collected(h, parts) && i <= |parts|
    requires forall j | 0 <= j < |parts| :: RootHash(h, chunkSize, parts[j].proof) == root
    ensures Sound(h, RootsClash(h, chunkSize, parts, i))
    decreases |parts| - i
  {
    hide RootHash, ReferenceRawRoot, MerkleRootInput;
    if i < |parts| {
      RootsClashSound(h, chunkSize, parts, i + 1, root);
      RootInputIsHashed(h, chunkSize, parts, 0);
      RootInputIsHashed(h, chunkSize, parts, i);
    }
  }

  lemma RootInputIsHashed(h: Hasher, chunkSize: nat, parts: seq<ChunkWithProof>, i: nat)
    requires AllVerify(h, parts) && i < |parts|
    ensures Verify(parts[i].proof) == Ok(())
    ensures RootHash(h, chunkSize, parts[i].proof) == h(ProofRootInput(h, chunkSize, parts[i].proof))
  {
    assert VerifyChunk(h, parts[i]) == Ok(());
    RootHashIsReference(h, chunkSize, parts[i].proof);
  }

  /**
   Verified chunks for every index, all with one root: the root is the Merkle root over the chunks
   received, or a collision is in hand.  Nothing is assumed about where the root came from.
   */
  lemma CollectedChunksMatchRoot(h: Hasher, chunkSize: nat, parts: seq<ChunkWithProof>, root: Digest)
    requires Collected(h, parts)
    requires forall i | 0 <= i < |parts| :: RootHash(h, chunkSize, parts[i].proof) == root
    ensures Sound(h, CollectedClash(h, chunkSize, parts))
    ensures CollectedClash(h, chunkSize, parts).Some?
         || HashMerkleTree(h, chunkSize, Digests(h, Contents(parts))) == root
  {
    hide RootHash, HashMerkleTree, HashMerkleRoot, SetClash, RootsClash, RawRoot;
    RootsClashSound(h, chunkSize, parts, 0, root);
    if RootsClash(h, chunkSize, parts, 0).None? {
      RootsAgree(h, chunkSize, parts, 0);
      CollectedIsFull(h, chunkSize, parts);
      var rawRoot := ReferenceRawRoot(h, parts[0].proof);
      CollectedRoots(h, parts, rawRoot);
      SetBinding(h, Proofs(parts), rawRoot);
      CollectedLeaves(h, parts);
      var leaves := Digests(h, Contents(parts));
      HashMerkleTreeIsRawRoot(h, chunkSize, leaves);
      RootHashIsReference(h, chunkSize, parts[0].proof) by { RootInputIsHashed(h, chunkSize, parts, 0); }
    }
  }

  lemma CollectedRoots(h: Hasher, parts: seq<ChunkWithProof>, rawRoot: Digest)
    requires Collected(h, parts) && FullSet(Proofs(parts))
    requires forall i | 0 <= i < |parts| ::
               parts[i].proof.count == |parts| && ReferenceRawRoot(h, parts[i].proof) == rawRoot
    ensures var ps := Proofs(parts);
            forall i | 0 <= i < |ps| :: ReferenceRoot(Pairing(h), i, |ps|, ps[i]) == rawRoot
  {
    hide ReferenceRoot, ExpectedProofLength;
    var ps := Proofs(parts);
    forall i | 0 <= i < |ps| ensures ReferenceRoot(Pairing(h), i, |ps|, ps[i]) == rawRoot {
      var p := parts[i].proof;
      assert ReferenceRawRoot(h, p) == rawRoot;
      assert p.index == i && p.count == |ps| && p.proof == ps[i];
    }
  }

  /** The leaves of the proofs are the hashes of the chunks. */
  lemma CollectedLeaves(h: Hasher, parts: seq<ChunkWithProof>)
    requires Collected(h, parts) && forall i | 0 <= i < |parts| :: Proofs(parts)[i] != []
    ensures LeavesOf(Proofs(parts)) == Digests(h, Contents(parts))
  {
    hide VerifyChunk, LeavesOf, Digests, Contents, Proofs;
    var ps := Proofs(parts);
    forall i | 0 <= i < |parts| ensures LeavesOf(ps)[i] == Digests(h, Contents(parts))[i] {
      VerifiedLeaf(h, parts[i]);
      assert ps[i] == parts[i].proof.proof && Contents(parts)[i] == parts[i].chunk;
    }
  }

  lemma VerifiedLeaf(h: Hasher, c: ChunkWithProof)
    requires VerifyChunk(h, c) == Ok(())
    ensures c.proof.proof != [] && c.proof.proof[0] == h(c.chunk)
  {
  }

  /** The chunks are more than one and evenly cut. */
  predicate EvenlyCut(parts: seq<ChunkWithProof>, chunkSize: nat) {
    |parts| > 1 && Even(Contents(parts), chunkSize)
  }

  /** Where the tree over the chunks received and the hash of their concatenation part ways. */
  function UnevenClash(h: Hasher, chunkSize: nat, pieces: seq<Bytes>): Clash
    requires chunkSize > 0 && 0 < |pieces| < U64_LIMIT && |Flatten(pieces)| < U64_LIMIT
  {
    var data, leaves := Flatten(pieces), Digests(h, pieces);
    var x, y := MerkleRootInput(chunkSize, |leaves|, RawRoot(h, leaves)), FinalInput(h, chunkSize, data);
    if x != y then Some((x, y))
    else if |data| <= chunkSize then None
    else
      var cut := Cut(data, chunkSize);
      var c := MerkleClash(h, chunkSize, leaves, Digests(h, cut));
      if c.Some? then c else if |cut| == |pieces| then PiecesClash(pieces, cut) else None
  }

  /** Pieces whose tree hash is the digest of their concatenation are its chunks, or a collision is in hand. */
  lemma TreeOfPieces(h: Hasher, chunkSize: nat, pieces: seq<Bytes>)
    requires chunkSize > 0 && 0 < |pieces| < U64_LIMIT && |Flatten(pieces)| < U64_LIMIT
    requires HashMerkleTree(h, chunkSize, Digests(h, pieces))
          == HashBytesIntoChunksIfNecessary(h, chunkSize, Flatten(pieces))
    ensures Sound(h, UnevenClash(h, chunkSize, pieces))
    ensures UnevenClash(h, chunkSize, pieces).Some? || (|pieces| > 1 && Even(pieces, chunkSize))
  {
    hide HashMerkleTree, MerkleClash, PiecesClash, RawRoot, Flatten, Cut, Even;
    var data, leaves := Flatten(pieces), Digests(h, pieces);
    HashMerkleTreeIsRawRoot(h, chunkSize, leaves);
    FinalInputIsHashed(h, chunkSize, data);
    var x, y := MerkleRootInput(chunkSize, |leaves|, RawRoot(h, leaves)), FinalInput(h, chunkSize, data);
    if x == y {
      assert |data| > chunkSize;
      var cut := Cut(data, chunkSize);
      MerkleBinding(h, chunkSize, leaves, Digests(h, cut));
      if leaves == Digests(h, cut) {
        assert forall i | 0 <= i < |pieces| :: h(pieces[i]) == leaves[i] == h(cut[i]);
        PiecesBinding(h, pieces, cut);
        CutIsEven(data, chunkSize);
      }
    }
  }

  /**
   The concatenation of the chunks received has the common root as its digest exactly if they are more
   than one and evenly cut, or a collision is in hand.
   */
  lemma ReassembledDigest(h: Hasher, chunkSize: nat, parts: seq<ChunkWithProof>, root: Digest)
    requires chunkSize > 0 && Collected(h, parts)
    requires forall i | 0 <= i < |parts| :: RootHash(h, chunkSize, parts[i].proof) == root
    ensures Sound(h, CollectedClash(h, chunkSize, parts))
    ensures var data := Flatten(Contents(parts));
            var hash := HashBytesIntoChunksIfNecessary(h, chunkSize, data);
            CollectedClash(h, chunkSize, parts).Some? ||
            if EvenlyCut(parts, chunkSize) then hash == root
            else
              |data| < U64_LIMIT && hash == root ==>
                var c := UnevenClash(h, chunkSize, Contents(parts));
                Sound(h, c) && c.Some?
  {
    hide RootHash, HashMerkleTree, CollectedClash, UnevenClash, Cut, Flatten, Even;
    CollectedChunksMatchRoot(h, chunkSize, parts, root);
    var pieces := Contents(parts);
    if EvenlyCut(parts, chunkSize) {
      CutFlatten(pieces, chunkSize);
      CutSize(pieces, chunkSize);
    } else if CollectedClash(h, chunkSize, parts).None?
           && |Flatten(pieces)| < U64_LIMIT && HashBytesIntoChunksIfNecessary(h, chunkSize, Flatten(pieces)) == root {
      TreeOfPieces(h, chunkSize, pieces);
    }
  }

  lemma CutSize(pieces: seq<Bytes>, chunkSize: nat)
    requires chunkSize > 0 && |pieces| > 1 && Cut(Flatten(pieces), chunkSize) == pieces
    ensures |Flatten(pieces)| > chunkSize
  {
  }

  // ----- Any cut can be collected ----------------------------------------------------------------

  function PartFor(h: Hasher, pieces: seq<Bytes>, i: nat): ChunkWithProof
    requires i < |pieces| < U64_LIMIT
  {
    ChunkWithProof(ProofFor(h, Digests(h, pieces), i), pieces[i])
  }

  /** Chunks with proofs for the given pieces, however they were cut. */
  function PartsFor(h: Hasher, pieces: seq<Bytes>): seq<ChunkWithProof>
    requires |pieces| < U64_LIMIT
  {
    seq(|pieces|, i requires 0 <= i < |pieces| => PartFor(h, pieces, i))
  }

  /** Every cut, even or not, has verified chunks with the tree hash over its pieces as their one root. */
  lemma AnyCutVerifies(h: Hasher, chunkSize: nat, pieces: seq<Bytes>)
    requires 0 < |pieces| < U64_LIMIT
    ensures var parts := PartsFor(h, pieces);
            && Collected(h, parts) && Contents(parts) == pieces
            && forall i | 0 <= i < |parts| ::
                 && NewProof(h, Digests(h, pieces), i) == Ok(parts[i].proof)
                 && RootHash(h, chunkSize, parts[i].proof) == HashMerkleTree(h, chunkSize, Digests(h, pieces))
  {
    hide NewProof, RootHash, HashMerkleTree, Verify, Digests;
    var parts := PartsFor(h, pieces);
    forall i | 0 <= i < |parts|
      ensures VerifyChunk(h, parts[i]) == Ok(()) && parts[i].chunk == pieces[i]
      ensures parts[i].proof.index == i && parts[i].proof.count == |parts|
      ensures NewProof(h, Digests(h, pieces), i) == Ok(parts[i].proof)
      ensures RootHash(h, chunkSize, parts[i].proof) == HashMerkleTree(h, chunkSize, Digests(h, pieces))
    {
      Completeness(h, chunkSize, Digests(h, pieces), i);
      assert parts[i] == PartFor(h, pieces, i);
    }
  }

  /** A hash that tells short strings from long ones. */
  function LengthHash(bytes: Bytes): Digest {
    Repeat(if |bytes| <= 2 then 0 else 1, DIGEST_LENGTH)
  }

  /** Two verified chunks of one byte with chunk size 2: their concatenation does not have their root. */
  lemma UnevenChunksLoseDigest()
    ensures var pieces := [[7], [7]];
            var parts := PartsFor(LengthHash, pieces);
            var root := HashMerkleTree(LengthHash, 2, Digests(LengthHash, pieces));
            && Collected(LengthHash, parts) && Contents(parts) == pieces
            && (forall i | 0 <= i < |parts| :: RootHash(LengthHash, 2, parts[i].proof) == root)
            && HashBytesIntoChunksIfNecessary(LengthHash, 2, Flatten(Contents(parts))) != root
  {
    hide PartsFor, RootHash, HashMerkleTree, RawRoot, Collected;
    var h: Hasher := LengthHash;
    var pieces: seq<Bytes> := [[7], [7]];
    AnyCutVerifies(h, 2, pieces);
    HashMerkleTreeIsRawRoot(h, 2, Digests(h, pieces));
    FlattenCons([7], [[7]]);
    FlattenCons([7], []);
    assert Flatten(pieces) == [7, 7];
    assert Repeat(0, DIGEST_LENGTH)[0] != Repeat(1, DIGEST_LENGTH)[0];
  }
}
