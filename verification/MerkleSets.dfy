/** A verified proof for every leaf, all with one root: that root is the root of the tree over the leaves. */
module MerkleSets {
  import opened Basics
  import opened TreeFold
  import opened Hashing
  import opened ProofTree
  import opened MerkleProof

  /** One proof of the expected length for every leaf of a tree over `|ps|` leaves. */
  predicate FullSet(ps: seq<seq<Digest>>) {
    forall i | 0 <= i < |ps| :: |ps[i]| == ExpectedProofLength(i, |ps|)
  }

  /** The proofs of the leaves in `[from, end)` without their topmost digest. */
  function Below(ps: seq<seq<Digest>>, from: nat, end: nat): (qs: seq<seq<Digest>>)
    requires from <= end <= |ps|
    requires forall i | 0 <= i < |ps| :: ps[i] != []
    ensures |qs| == end - from && forall i | 0 <= i < |qs| :: qs[i] == ps[from + i][..|ps[from + i]| - 1]
    decreases end - from
  {
    if from == end then [] else [ps[from][..|ps[from]| - 1]] + Below(ps, from + 1, end)
  }

  lemma FullSetNonEmpty(ps: seq<seq<Digest>>)
    requires FullSet(ps)
    ensures forall i | 0 <= i < |ps| :: ps[i] != []
  {
  }

  lemma LeftIsFull(ps: seq<seq<Digest>>)
    requires |ps| > 1 && FullSet(ps) && forall i | 0 <= i < |ps| :: ps[i] != []
    ensures FullSet(Below(ps, 0, SplitPoint(|ps|)))
  {
    hide SplitPoint, ExpectedProofLength, Below, FullSet;
    var k := SplitPoint(|ps|);
    forall i | 0 <= i < k ensures |ps[i]| - 1 == ExpectedProofLength(i - 0, k - 0) {
      ShorterProof(ps, i);
    }
    SliceIsFull(ps, 0, k);
  }

  lemma RightIsFull(ps: seq<seq<Digest>>)
    requires |ps| > 1 && FullSet(ps) && forall i | 0 <= i < |ps| :: ps[i] != []
    ensures FullSet(Below(ps, SplitPoint(|ps|), |ps|))
  {
    hide SplitPoint, ExpectedProofLength, Below, FullSet;
    var n, k := |ps|, SplitPoint(|ps|);
    forall i | k <= i < n ensures |ps[i]| - 1 == ExpectedProofLength(i - k, n - k) {
      ShorterProof(ps, i);
    }
    SliceIsFull(ps, k, n);
  }

  lemma SliceIsFull(ps: seq<seq<Digest>>, from: nat, end: nat)
    requires from <= end <= |ps| && forall i | 0 <= i < |ps| :: ps[i] != []
    requires forall i | from <= i < end :: |ps[i]| - 1 == ExpectedProofLength(i - from, end - from)
    ensures FullSet(Below(ps, from, end))
  {
    hide ExpectedProofLength, Below;
    var qs := Below(ps, from, end);
    forall i | 0 <= i < |qs| ensures |qs[i]| == ExpectedProofLength(i, |qs|) {
      var j := from + i;
      assert qs[i] == ps[from + i][..|ps[from + i]| - 1] && |ps[j]| - 1 == ExpectedProofLength(j - from, end - from);
    }
  }

  /** Without its topmost digest, a proof has the length for the subtree that holds its leaf. */
  lemma ShorterProof(ps: seq<seq<Digest>>, i: nat)
    requires |ps| > 1 && FullSet(ps) && i < |ps|
    ensures var k := SplitPoint(|ps|);
            && ps[i] != []
            && |ps[i]| - 1 == if i < k then ExpectedProofLength(i, k) else ExpectedProofLength(i - k, |ps| - k)
  {
    hide SplitPoint, Depth;
    assert |ps[i]| == ExpectedProofLength(i, |ps|);
    DepthStep(i, |ps|);
  }

  lemma DepthStep(i: nat, n: nat)
    requires n > 1
    ensures var k := SplitPoint(n);
            Depth(i, n) == 1 + if i < k then Depth(i, k) else Depth(i - k, n - k)
  {
    hide SplitPoint;
  }

  /** The first proof, from `i` on, whose top input differs from that of the first proof. */
  function TopClash(h: Hasher, ps: seq<seq<Digest>>, i: nat): Clash
    requires |ps| > 1 && FullSet(ps) && i <= |ps|
    decreases |ps| - i
  {
    if i == |ps| then None else
    var x, y := TopInput(h, 0, |ps|, ps[0]), TopInput(h, i, |ps|, ps[i]);
    if x != y then Some((x, y)) else TopClash(h, ps, i + 1)
  }

  lemma {:induction false} TopBinding(h: Hasher, ps: seq<seq<Digest>>, i: nat, root: Digest)
    requires |ps| > 1 && FullSet(ps) && i <= |ps|
    requires forall j | 0 <= j < |ps| :: ReferenceRoot(Pairing(h), j, |ps|, ps[j]) == root
    ensures Sound(h, TopClash(h, ps, i))
    ensures TopClash(h, ps, i).None? ==>
              forall j | i <= j < |ps| :: TopInput(h, j, |ps|, ps[j]) == TopInput(h, 0, |ps|, ps[0])
    decreases |ps| - i
  {
    hide TopInput, ReferenceRoot, Depth;
    if i < |ps| {
      TopInputIsHashed(h, 0, |ps|, ps[0]);
      TopInputIsHashed(h, i, |ps|, ps[i]);
      TopBinding(h, ps, i + 1, root);
    }
  }

  function SetClash(h: Hasher, ps: seq<seq<Digest>>): Clash
    requires ps != [] && FullSet(ps)
    decreases |ps|
  {
    if |ps| == 1 then None else
    FullSetNonEmpty(ps);
    LeftIsFull(ps);
    RightIsFull(ps);
    var k := SplitPoint(|ps|);
    var top := TopClash(h, ps, 0);
    var left := SetClash(h, Below(ps, 0, k));
    if top.Some? then top else if left.Some? then left else SetClash(h, Below(ps, k, |ps|))
  }

  /** The leaves that the proofs are about. */
  function LeavesOf(ps: seq<seq<Digest>>): (leaves: seq<Digest>)
    requires forall i | 0 <= i < |ps| :: ps[i] != []
    ensures |leaves| == |ps| && forall i | 0 <= i < |ps| :: leaves[i] == ps[i][0]
  {
    if ps == [] then [] else [ps[0][0]] + LeavesOf(ps[1..])
  }

  /** What equal top inputs say about one proof: its sibling and its root below are the common ones. */
  lemma CommonParts(h: Hasher, ps: seq<seq<Digest>>, i: nat, l: Digest, r: Digest)
    requires |ps| > 1 && FullSet(ps) && i < |ps|
    requires TopInput(h, i, |ps|, ps[i]) == l + r
    ensures var k := SplitPoint(|ps|);
            var last := |ps[i]| - 1;
            && last > 0
            && (i < k ==>
                  && |ps[i][..last]| == ExpectedProofLength(i, k)
                  && ReferenceRoot(Pairing(h), i, k, ps[i][..last]) == l)
            && (i >= k ==>
                  && |ps[i][..last]| == ExpectedProofLength(i - k, |ps| - k)
                  && ReferenceRoot(Pairing(h), i - k, |ps| - k, ps[i][..last]) == r)
  {
    hide SplitPoint, ReferenceRoot;
    var k := SplitPoint(|ps|);
    var last := |ps[i]| - 1;
    var (i', n') := if i < k then (i, k) else (i - k, |ps| - k);
    var below: Bytes := ReferenceRoot(Pairing(h), i', n', ps[i][..last]);
    var top: Bytes, l': Bytes, r': Bytes := ps[i][last], l, r;
    if i < k {
      ConcatInjective(below, top, l', r');
    } else {
      ConcatInjective(top, below, l', r');
    }
  }

  /** Proofs for all leaves with one common raw root: that root is the root over their leaves. */
  lemma {:induction false} SetBinding(h: Hasher, ps: seq<seq<Digest>>, root: Digest)
    requires ps != [] && FullSet(ps)
    requires forall j | 0 <= j < |ps| :: ReferenceRoot(Pairing(h), j, |ps|, ps[j]) == root
    ensures (forall i | 0 <= i < |ps| :: ps[i] != []) && Sound(h, SetClash(h, ps))
    ensures SetClash(h, ps).Some? || RawRoot(h, LeavesOf(ps)) == root
    decreases |ps|
  {
    FullSetNonEmpty(ps);
    if |ps| == 1 {
      assert ReferenceRoot(Pairing(h), 0, 1, ps[0]) == ps[0][0];
      RawRootOfLeaf(h, LeavesOf(ps));
    } else {
      SetBindingStep(h, ps, root);
    }
  }

  lemma {:induction false} SetBindingStep(h: Hasher, ps: seq<seq<Digest>>, root: Digest)
    requires |ps| > 1 && FullSet(ps) && forall i | 0 <= i < |ps| :: ps[i] != []
    requires forall j | 0 <= j < |ps| :: ReferenceRoot(Pairing(h), j, |ps|, ps[j]) == root
    ensures Sound(h, SetClash(h, ps))
    ensures SetClash(h, ps).Some? || RawRoot(h, LeavesOf(ps)) == root
    decreases |ps|, 0
  {
    hide SplitPoint, ReferenceRoot, TopClash, RawRoot, TopInput, Depth, Below, LeavesOf;
    var k := SplitPoint(|ps|);
    LeftIsFull(ps);
    RightIsFull(ps);
    TopBinding(h, ps, 0, root);
    if TopClash(h, ps, 0).None? {
      var lefts, rights := Below(ps, 0, k), Below(ps, k, |ps|);
      var l, r := Halves(h, ps);
      SetBinding(h, lefts, l);
      SetBinding(h, rights, r);
      if SetClash(h, lefts).None? && SetClash(h, rights).None? {
        var leaves := LeavesOf(ps);
        LeavesSplit(ps, k);
        RawRootStep(h, leaves);
        TopInputIsHashed(h, 0, |ps|, ps[0]);
      }
    }
  }

  lemma LeavesSplit(ps: seq<seq<Digest>>, k: nat)
    requires k <= |ps| && forall i | 0 <= i < |ps| :: ps[i] != []
    requires forall i | 0 <= i < k :: Below(ps, 0, k)[i] != []
    requires forall i | 0 <= i < |ps| - k :: Below(ps, k, |ps|)[i] != []
    ensures LeavesOf(ps)[..k] == LeavesOf(Below(ps, 0, k)) && LeavesOf(ps)[k..] == LeavesOf(Below(ps, k, |ps|))
  {
    hide Below, LeavesOf;
    var leaves, lefts, rights := LeavesOf(ps), Below(ps, 0, k), Below(ps, k, |ps|);
    assert leaves[..k] == LeavesOf(lefts) && leaves[k..] == LeavesOf(rights);
  }

  /** The two digests that all the top inputs share, and the roots of the proofs below them. */
  lemma Halves(h: Hasher, ps: seq<seq<Digest>>) returns (l: Digest, r: Digest)
    requires |ps| > 1 && FullSet(ps) && forall i | 0 <= i < |ps| :: ps[i] != []
    requires forall j | 0 <= j < |ps| :: TopInput(h, j, |ps|, ps[j]) == TopInput(h, 0, |ps|, ps[0])
    ensures TopInput(h, 0, |ps|, ps[0]) == l + r
    ensures var k := SplitPoint(|ps|);
            var lefts, rights := Below(ps, 0, k), Below(ps, k, |ps|);
            && FullSet(lefts) && FullSet(rights)
            && (forall j | 0 <= j < k :: ReferenceRoot(Pairing(h), j, k, lefts[j]) == l)
            && (forall j | 0 <= j < |ps| - k :: ReferenceRoot(Pairing(h), j, |ps| - k, rights[j]) == r)
  {
    hide SplitPoint, ReferenceRoot, Depth;
    var k := SplitPoint(|ps|);
    LeftIsFull(ps);
    RightIsFull(ps);
    var input := TopInput(h, 0, |ps|, ps[0]);
    assert |input| == 2 * DIGEST_LENGTH;
    l, r := input[..DIGEST_LENGTH], input[DIGEST_LENGTH..];
    assert input == l + r;
    hide TopInput;
    var lefts, rights := Below(ps, 0, k), Below(ps, k, |ps|);
    forall j | 0 <= j < k ensures ReferenceRoot(Pairing(h), j, k, lefts[j]) == l {
      CommonParts(h, ps, j, l, r);
      assert lefts[j] == ps[0 + j][..|ps[0 + j]| - 1];
    }
    forall j | 0 <= j < |ps| - k ensures ReferenceRoot(Pairing(h), j, |ps| - k, rights[j]) == r {
      CommonParts(h, ps, k + j, l, r);
      assert rights[j] == ps[k + j][..|ps[k + j]| - 1];
    }
  }
}
