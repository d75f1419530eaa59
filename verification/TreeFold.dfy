/**
 The tree-shaped fold behind Merkle hashing.  `LevelFold` pairs neighbours level by level and
 carries an odd last element up; `SplitFold` cuts at the largest power of two below the length.
 They build the same tree, for every combining function.
 */
module TreeFold {
  import opened Basics

  /** One level: neighbours combined, an odd last element carried up unchanged. */
  function PairUp<T>(f: (T, T) -> T, xs: seq<T>): (ys: seq<T>)
    ensures |ys| == (|xs| + 1) / 2
  {
    if |xs| < 2 then xs else [f(xs[0], xs[1])] + PairUp(f, xs[2..])
  }

  function LevelFold<T>(f: (T, T) -> T, xs: seq<T>): T
    requires xs != []
    decreases |xs|
  {
    if |xs| == 1 then xs[0] else LevelFold(f, PairUp(f, xs))
  }

  /** The largest power of two below `n`. */
  function SplitPoint(n: nat): (k: nat)
    requires n > 1
    ensures 0 < k < n <= 2 * k
  {
    if n == 2 then 1 else 2 * SplitPoint((n + 1) / 2)
  }

  function SplitFold<T>(f: (T, T) -> T, xs: seq<T>): T
    requires xs != []
    decreases |xs|
  {
    if |xs| == 1 then xs[0] else
    var k := SplitPoint(|xs|);
    f(SplitFold(f, xs[..k]), SplitFold(f, xs[k..]))
  }

  /** `SplitPoint` is a power of two, and it is the only one in `[n / 2, n)`. */
  lemma {:induction false} SplitPointIsPower(n: nat, e: nat)
    requires n > 1
    requires Pow2(e) < n <= 2 * Pow2(e)
    ensures SplitPoint(n) == Pow2(e)
  {
    if n > 2 {
      assert e > 0;
      SplitPointIsPower((n + 1) / 2, e - 1);
    }
  }

  lemma SplitFoldOfHalves<T>(f: (T, T) -> T, xs: seq<T>, ys: seq<T>)
    requires xs != [] && ys != [] && SplitPoint(|xs| + |ys|) == |xs|
    ensures SplitFold(f, xs + ys) == f(SplitFold(f, xs), SplitFold(f, ys))
  {
    hide SplitPoint;
    var all := xs + ys;
    assert all[..|xs|] == xs && all[|xs|..] == ys;
    assert SplitFold(f, all) == f(SplitFold(f, all[..|xs|]), SplitFold(f, all[|xs|..]));
  }

  /** Pairing up respects a cut at an even position. */
  lemma {:induction false} PairUpSlices<T>(f: (T, T) -> T, xs: seq<T>, j: nat)
    requires 2 * j <= |xs|
    ensures PairUp(f, xs)[..j] == PairUp(f, xs[..2 * j])
    ensures PairUp(f, xs)[j..] == PairUp(f, xs[2 * j..])
  {
    if j == 0 {
      assert xs[0..] == xs;
    } else {
      PairUpSlices(f, xs[2..], j - 1);
      assert xs[2..][..2 * (j - 1)] == xs[..2 * j][2..];
      assert xs[2..][2 * (j - 1)..] == xs[2 * j..];
      var head := [f(xs[0], xs[1])];
      assert PairUp(f, xs) == head + PairUp(f, xs[2..]);
      assert PairUp(f, xs)[..j] == head + PairUp(f, xs[2..])[..j - 1];
      assert PairUp(f, xs)[j..] == PairUp(f, xs[2..])[j - 1..];
    }
  }

  /** One level of pairing does not change the top-down fold. */
  lemma {:induction false} PairUpKeepsSplitFold<T>(f: (T, T) -> T, xs: seq<T>)
    requires xs != []
    ensures SplitFold(f, PairUp(f, xs)) == SplitFold(f, xs)
    decreases |xs|
  {
    if |xs| == 2 {
      assert PairUp(f, xs) == [f(xs[0], xs[1])];
    } else if |xs| > 2 {
      var k := SplitPoint(|xs|);
      var j := SplitPoint((|xs| + 1) / 2);
      assert k == 2 * j;
      PairUpSlices(f, xs, j);
      PairUpKeepsSplitFold(f, xs[..k]);
      PairUpKeepsSplitFold(f, xs[k..]);
    }
  }

  lemma {:induction false} LevelFoldIsSplitFold<T>(f: (T, T) -> T, xs: seq<T>)
    requires xs != []
    ensures LevelFold(f, xs) == SplitFold(f, xs)
    decreases |xs|
  {
    if |xs| > 1 {
      PairUpKeepsSplitFold(f, xs);
      LevelFoldIsSplitFold(f, PairUp(f, xs));
    }
  }
}
