/** Bytes, machine words, outcomes, and the little-endian integer format of the codec and the hashes. */
module Basics {

  type Byte = b: int | 0 <= b < 0x100
  type Bytes = seq<Byte>

  type U8 = n: int | 0 <= n < 0x100
  type U32 = n: int | 0 <= n < 0x1_0000_0000
  type U64 = n: int | 0 <= n < 0x1_0000_0000_0000_0000

  const U32_LIMIT: nat := 0x1_0000_0000
  const U64_LIMIT: nat := 0x1_0000_0000_0000_0000

  datatype Option<+T> = None | Some(value: T)

  datatype Result<+T, +E> = Ok(value: T) | Err(error: E) {
    predicate IsFailure() {
      Err?
    }

    function PropagateFailure<U>(): Result<U, E>
      requires Err?
    {
      Err(error)
    }

    function Extract(): T
      requires Ok?
    {
      value
    }
  }

  function Pow2(n: nat): (p: nat)
    ensures p > 0
  {
    if n == 0 then 1 else 2 * Pow2(n - 1)
  }

  /** The number of values that `n` bytes can hold. */
  function Pow256(n: nat): (p: nat)
    ensures p > 0
  {
    if n == 0 then 1 else 256 * Pow256(n - 1)
  }

  lemma WordLimits()
    ensures Pow256(1) == 0x100 && Pow256(4) == U32_LIMIT && Pow256(8) == U64_LIMIT
    ensures Pow2(64) == U64_LIMIT
  {
    assert Pow256(4) == 256 * Pow256(3);
    assert Pow256(8) == 256 * Pow256(7) == 0x1_0000 * Pow256(6) == 0x1_0000_0000 * Pow256(4);
    assert Pow2(8) == 256;
    Pow2Bytes(8);
  }

  lemma {:induction false} Pow2Bytes(n: nat)
    ensures Pow2(8 * n) == Pow256(n)
  {
    if n > 0 {
      Pow2Bytes(n - 1);
      var m := 8 * (n - 1);
      assert Pow2(m + 8) == 2 * Pow2(m + 7) == 4 * Pow2(m + 6) == 8 * Pow2(m + 5) == 16 * Pow2(m + 4);
      assert Pow2(m + 4) == 2 * Pow2(m + 3) == 4 * Pow2(m + 2) == 8 * Pow2(m + 1) == 16 * Pow2(m);
    }
  }

  /** The low `width` bytes of `n`, least significant first (`to_le_bytes`). */
  function LeBytes(n: nat, width: nat): (bs: Bytes)
    ensures |bs| == width
  {
    if width == 0 then [] else [n % 256] + LeBytes(n / 256, width - 1)
  }

  /** The number a little-endian byte string stands for (`from_le_bytes`). */
  function FromLe(bs: Bytes): nat
  {
    if bs == [] then 0 else bs[0] + 256 * FromLe(bs[1..])
  }

  lemma {:induction false} FromLeBound(bs: Bytes)
    ensures FromLe(bs) < Pow256(|bs|)
  {
    if bs != [] {
      FromLeBound(bs[1..]);
    }
  }

  lemma {:induction false} LeRoundTrip(n: nat, width: nat)
    requires n < Pow256(width)
    ensures FromLe(LeBytes(n, width)) == n
  {
    if width > 0 {
      LeRoundTrip(n / 256, width - 1);
      assert LeBytes(n, width)[1..] == LeBytes(n / 256, width - 1);
    }
  }

  lemma {:induction false} LeOfFromLe(bs: Bytes)
    ensures LeBytes(FromLe(bs), |bs|) == bs
  {
    if bs != [] {
      LeOfFromLe(bs[1..]);
      var n := FromLe(bs);
      assert n % 256 == bs[0] && n / 256 == FromLe(bs[1..]);
      assert bs == [bs[0]] + bs[1..];
    }
  }

  /** Byte `i` counts the multiples of 256 to the power `i`. */
  lemma {:induction false} LeByteAt(n: nat, width: nat, i: nat)
    requires i < width
    ensures LeBytes(n, width)[i] == n / Pow256(i) % 256
  {
    if i > 0 {
      LeByteAt(n / 256, width - 1, i - 1);
      Divide256(n, Pow256(i - 1));
    }
  }

  lemma Divide256(n: nat, b: nat)
    requires b > 0
    ensures n / 256 / b == n / (256 * b)
  {
    var x := n / 256;
    SplitBy256(b, x / b);
    QuotientIs(n, 256 * b, x / b, 256 * (x % b) + n % 256);
  }

  lemma SplitBy256(b: nat, q: nat)
    ensures (256 * b) * q == 256 * (b * q)
  {
  }

  lemma QuotientIs(n: nat, m: nat, q: nat, r: nat)
    requires n == m * q + r && r < m
    ensures n / m == q && n % m == r
  {
    var d := n / m - q;
    assert m * d == r - n % m by {
      assert m * d == m * (n / m) - m * q;
    }
    MultipleIsFar(m, d);
  }

  lemma MultipleIsFar(m: nat, d: int)
    ensures d > 0 ==> m * d >= m
    ensures d < 0 ==> m * d + m <= 0
  {
    if d > 0 {
      MultipleGrows(m, d);
    } else if d < 0 {
      MultipleGrows(m, -d);
      assert m * d == -(m * -d);
    }
  }

  lemma {:induction false} MultipleGrows(m: nat, k: nat)
    requires k > 0
    ensures m * k >= m
  {
    if k > 1 {
      MultipleGrows(m, k - 1);
      assert m * k == m * (k - 1) + m;
    }
  }

  function Repeat(b: Byte, n: nat): (bs: Bytes)
    ensures |bs| == n && forall i | 0 <= i < n :: bs[i] == b
  {
    if n == 0 then [] else [b] + Repeat(b, n - 1)
  }

  lemma ConcatAssociative<T>(a: seq<T>, b: seq<T>, c: seq<T>, d: seq<T>)
    ensures (a + b) + c == a + (b + c)
    ensures ((a + b) + c) + d == a + ((b + c) + d) == a + (b + (c + d))
  {
  }

  /** Two concatenations whose first parts have equal length agree only part by part. */
  lemma ConcatInjective<T>(a: seq<T>, b: seq<T>, c: seq<T>, d: seq<T>)
    requires |a| == |c|
    requires a + b == c + d
    ensures a == c && b == d
  {
    assert a == (a + b)[..|a|] == (c + d)[..|c|] == c;
    assert b == (a + b)[|a|..] == (c + d)[|c|..] == d;
  }
}
