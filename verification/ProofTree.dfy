/**
 Proofs of membership in a folded tree, for any combining function `f`: the path to a leaf, the
 siblings beside it, and the root that a leaf and its siblings rebuild.
 */
module ProofTree {
  import opened Basics
  import opened TreeFold

  /** The number of levels between leaf `i` and the root of a tree over `n` leaves. */
  function Depth(i: nat, n: nat): nat
    decreases n
  {
    if n <= 1 then 0 else
    var k := SplitPoint(n);
    1 + if i < k then Depth(i, k) else Depth(i - k, n - k)
  }

  /** Top-down directions from the root of a tree over `n` leaves to leaf `i`; `true` goes right. */
  function Path(i: nat, n: nat): (path: seq<bool>)
    ensures |path| == Depth(i, n)
    decreases n
  {
    if n <= 1 then [] else
    var k := SplitPoint(n);
    if i < k then [false] + Path(i, k) else [true] + Path(i - k, n - k)
  }

  lemma PathStep(taken: seq<bool>, i: nat, n: nat)
    requires n > 1
    ensures var k := SplitPoint(n);
            var rest := if i < k then Path(i, k) else Path(i - k, n - k);
            taken + Path(i, n) == (taken + [i >= k]) + rest
  {
    hide SplitPoint;
  }

  lemma PathOfOne(i: nat, n: nat)
    requires n <= 1
    ensures Path(i, n) == []
  {
  }

  lemma {:induction false} SplitPointBound(n: nat, e: nat)
    requires 1 < n <= Pow2(e)
    ensures e > 0 && SplitPoint(n) <= Pow2(e - 1)
  {
    if n > 2 {
      SplitPointBound((n + 1) / 2, e - 1);
    }
  }

  /** A tree over at most 2^e leaves is at most `e` levels deep. */
  lemma {:induction false} DepthBound(i: nat, n: nat, e: nat)
    requires n <= Pow2(e)
    ensures Depth(i, n) <= e
    decreases n
  {
    hide SplitPoint;
    if n > 1 {
      SplitPointBound(n, e);
      var k := SplitPoint(n);
      if i < k { DepthBound(i, k, e - 1); } else { DepthBound(i - k, n - k, e - 1); }
    }
  }

  function ExpectedProofLength(i: nat, n: nat): nat {
    if n == 0 then 0 else 1 + Depth(i, n)
  }

  /** Combines `acc` with its sibling on the side the direction bit gives. */
  function StepUp<T>(f: (T, T) -> T, right: bool, acc: T, sibling: T): T {
    if right then f(sibling, acc) else f(acc, sibling)
  }

  /** Hashes up from `acc`, reading directions from the far end; a spent path reads as "left". */
  function FoldUp<T>(f: (T, T) -> T, acc: T, path: seq<bool>, siblings: seq<T>): T
    decreases |siblings|
  {
    if siblings == [] then acc
    else if path == [] then FoldUp(f, StepUp(f, false, acc, siblings[0]), [], siblings[1..])
    else
      var last := |path| - 1;
      FoldUp(f, StepUp(f, path[last], acc, siblings[0]), path[..last], siblings[1..])
  }

  /** The recursive definition of the root that the bit-path loop is meant to agree with. */
  function ReferenceRoot<T>(f: (T, T) -> T, i: nat, n: nat, proof: seq<T>): T
    requires n > 0 && |proof| == ExpectedProofLength(i, n)
    decreases n
  {
    if n == 1 then proof[0]
    else
      var half := SplitPoint(n);
      var last := |proof| - 1;
      if i < half then f(ReferenceRoot(f, i, half, proof[..last]), proof[last])
      else f(proof[last], ReferenceRoot(f, i - half, n - half, proof[..last]))
  }

  lemma ReferenceRootOfLeaf<T>(f: (T, T) -> T, i: nat, proof: seq<T>)
    requires |proof| == ExpectedProofLength(i, 1)
    ensures |proof| == 1 && ReferenceRoot(f, i, 1, proof) == proof[0]
  {
  }

  /** The first direction of a path is the last to be used. */
  lemma {:induction false} FoldUpLast<T>(f: (T, T) -> T, acc: T, d: bool, path: seq<bool>,
                                      siblings: seq<T>, top: T)
    requires |path| == |siblings|
    ensures FoldUp(f, acc, [d] + path, siblings + [top])
         == StepUp(f, d, FoldUp(f, acc, path, siblings), top)
    decreases |siblings|
  {
    if siblings == [] {
      assert FoldUp(f, acc, [d], [top]) == FoldUp(f, StepUp(f, d, acc, top), [], []);
    } else {
      var last := |path| - 1;
      assert ([d] + path)[..|path|] == [d] + path[..last];
      assert (siblings + [top])[1..] == siblings[1..] + [top];
      FoldUpLast(f, StepUp(f, path[last], acc, siblings[0]), d, path[..last], siblings[1..], top);
    }
  }

  /** The loop's fold is the recursive root, for every index (in range or not) and every count. */
  lemma {:induction false} FoldUpIsReference<T>(f: (T, T) -> T, i: nat, n: nat, proof: seq<T>)
    requires n > 0 && |proof| == ExpectedProofLength(i, n)
    ensures FoldUp(f, proof[0], Path(i, n), proof[1..]) == ReferenceRoot(f, i, n, proof)
    decreases n
  {
    hide SplitPoint;
    if n > 1 {
      var k := SplitPoint(n);
      var last := |proof| - 1;
      var (i', n') := if i < k then (i, k) else (i - k, n - k);
      FoldUpIsReference(f, i', n', proof[..last]);
      assert proof[1..] == proof[..last][1..] + [proof[last]];
      FoldUpLast(f, proof[0], i >= k, Path(i', n'), proof[..last][1..], proof[last]);
    }
  }

  /** A subtree during the fold: hashed, holding the proof so far, or the branch that panics. */
  datatype HashOrProof<T> = Hash(digest: T) | Proof(digests: seq<T>) | Panic

  function Join<T>(f: (T, T) -> T): (HashOrProof<T>, HashOrProof<T>) -> HashOrProof<T> {
    (x: HashOrProof<T>, y: HashOrProof<T>) =>
      match (x, y)
      case (Hash(a), Hash(b)) => Hash(f(a, b))
      case (Hash(a), Proof(ds)) => Proof(ds + [a])
      case (Proof(ds), Hash(a)) => Proof(ds + [a])
      case _ => Panic
  }

  function Mark<T>(leaves: seq<T>, index: int): (marked: seq<HashOrProof<T>>)
    ensures |marked| == |leaves|
    ensures forall j | 0 <= j < |leaves| ::
              marked[j] == if j == index then Proof([leaves[j]]) else Hash(leaves[j])
  {
    if leaves == [] then []
    else [if index == 0 then Proof([leaves[0]]) else Hash(leaves[0])] + Mark(leaves[1..], index - 1)
  }

  /** The leaf followed by its siblings from the bottom up. */
  function Siblings<T>(f: (T, T) -> T, leaves: seq<T>, i: nat): (proof: seq<T>)
    requires i < |leaves|
    ensures |proof| == ExpectedProofLength(i, |leaves|) > 0
    ensures proof[0] == leaves[i]
    decreases |leaves|
  {
    if |leaves| == 1 then [leaves[0]] else
    var k := SplitPoint(|leaves|);
    if i < k then Siblings(f, leaves[..k], i) + [SplitFold(f, leaves[k..])]
    else Siblings(f, leaves[k..], i - k) + [SplitFold(f, leaves[..k])]
  }

  /** What the fold holds for a subtree: its root, or the proof of the marked leaf inside it. */
  function Folded<T>(f: (T, T) -> T, leaves: seq<T>, index: int): HashOrProof<T>
    requires leaves != []
  {
    if 0 <= index < |leaves| then Proof(Siblings(f, leaves, index)) else Hash(SplitFold(f, leaves))
  }

  lemma JoinFolded<T>(f: (T, T) -> T, leaves: seq<T>, index: int, k: nat)
    requires |leaves| > 1 && k == SplitPoint(|leaves|)
    ensures Join(f)(Folded(f, leaves[..k], index), Folded(f, leaves[k..], index - k)) == Folded(f, leaves, index)
  {
    hide SplitPoint, SplitFold, Siblings, Depth, Join;
    var l, r := leaves[..k], leaves[k..];
    if 0 <= index < |leaves| {
      SiblingsStep(f, leaves, index);
    }
    if 0 <= index < k {
      JoinProofs(f, Siblings(f, l, index), SplitFold(f, r));
    } else if k <= index < |leaves| {
      JoinProofs(f, Siblings(f, r, index - k), SplitFold(f, l));
    } else {
      JoinHashes(f, leaves, k);
    }
  }

  lemma JoinProofs<T>(f: (T, T) -> T, digests: seq<T>, sibling: T)
    ensures Join(f)(Proof(digests), Hash(sibling)) == Proof(digests + [sibling])
    ensures Join(f)(Hash(sibling), Proof(digests)) == Proof(digests + [sibling])
  {
  }

  lemma JoinHashes<T>(f: (T, T) -> T, leaves: seq<T>, k: nat)
    requires |leaves| > 1 && k == SplitPoint(|leaves|)
    ensures Join(f)(Hash(SplitFold(f, leaves[..k])), Hash(SplitFold(f, leaves[k..]))) == Hash(SplitFold(f, leaves))
  {
    hide SplitPoint;
  }

  lemma {:induction false} MarkedFold<T>(f: (T, T) -> T, leaves: seq<T>, index: int)
    requires leaves != []
    ensures SplitFold(Join(f), Mark(leaves, index)) == Folded(f, leaves, index)
    decreases |leaves|
  {
    hide *;
    if |leaves| == 1 {
      FoldedLeaf(f, leaves, index);
    } else {
      var k := SplitPoint(|leaves|);
      MarkedFold(f, leaves[..k], index);
      MarkedFold(f, leaves[k..], index - k);
      SplitMark(f, leaves, index, k);
      JoinFolded(f, leaves, index, k);
    }
  }

  lemma FoldedLeaf<T>(f: (T, T) -> T, leaves: seq<T>, index: int)
    requires |leaves| == 1
    ensures SplitFold(Join(f), Mark(leaves, index)) == Folded(f, leaves, index)
  {
  }

  lemma SplitMark<T>(f: (T, T) -> T, leaves: seq<T>, index: int, k: nat)
    requires |leaves| > 1 && k == SplitPoint(|leaves|)
    ensures SplitFold(Join(f), Mark(leaves, index))
         == Join(f)(SplitFold(Join(f), Mark(leaves[..k], index)), SplitFold(Join(f), Mark(leaves[k..], index - k)))
  {
    hide SplitPoint, SplitFold, Join, Mark;
    var l, r := Mark(leaves[..k], index), Mark(leaves[k..], index - k);
    assert Mark(leaves, index) == l + r;
    SplitFoldOfHalves(Join(f), l, r);
  }

  /** The fold never joins two proofs. */
  lemma FoldNeverPanics<T>(f: (T, T) -> T, leaves: seq<T>, index: int)
    requires leaves != []
    ensures !LevelFold(Join(f), Mark(leaves, index)).Panic?
  {
    LevelFoldIsSplitFold(Join(f), Mark(leaves, index));
    MarkedFold(f, leaves, index);
  }

  /** The recursive root of the proof that `Siblings` lists is the root of the tree. */
  lemma {:induction false} SiblingsRoot<T>(f: (T, T) -> T, leaves: seq<T>, i: nat)
    requires i < |leaves|
    ensures ReferenceRoot(f, i, |leaves|, Siblings(f, leaves, i)) == SplitFold(f, leaves)
    decreases |leaves|
  {
    hide SplitPoint, SplitFold, Siblings, ReferenceRoot, Depth;
    SiblingsStep(f, leaves, i);
    if |leaves| > 1 {
      var k := SplitPoint(|leaves|);
      if i < k {
        ReferenceRootStep(f, i, |leaves|, Siblings(f, leaves[..k], i), SplitFold(f, leaves[k..]));
        SiblingsRoot(f, leaves[..k], i);
      } else {
        ReferenceRootStep(f, i, |leaves|, Siblings(f, leaves[k..], i - k), SplitFold(f, leaves[..k]));
        SiblingsRoot(f, leaves[k..], i - k);
      }
    }
  }

  lemma SiblingsStep<T>(f: (T, T) -> T, leaves: seq<T>, i: nat)
    requires i < |leaves|
    ensures |leaves| == 1 ==> ReferenceRoot(f, i, 1, Siblings(f, leaves, i)) == SplitFold(f, leaves)
    ensures |leaves| > 1 ==>
              var k := SplitPoint(|leaves|);
              var l, r := leaves[..k], leaves[k..];
              && Siblings(f, leaves, i)
                 == (if i < k then Siblings(f, l, i) + [SplitFold(f, r)] else Siblings(f, r, i - k) + [SplitFold(f, l)])
              && SplitFold(f, leaves) == f(SplitFold(f, l), SplitFold(f, r))
  {
    hide SplitPoint;
  }

  lemma ReferenceRootStep<T>(f: (T, T) -> T, i: nat, n: nat, below: seq<T>, top: T)
    requires n > 1
    requires var k := SplitPoint(n);
             |below| == if i < k then ExpectedProofLength(i, k) else ExpectedProofLength(i - k, n - k)
    ensures var k := SplitPoint(n);
            ReferenceRoot(f, i, n, below + [top])
            == if i < k then f(ReferenceRoot(f, i, k, below), top) else f(top, ReferenceRoot(f, i - k, n - k, below))
  {
    hide SplitPoint;
    assert (below + [top])[..|below|] == below;
  }
}
