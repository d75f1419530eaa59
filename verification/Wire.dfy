/** Reading from a byte slice: the codec's errors, the primitive reads, and minimal big integers. */
module Wire {
  import opened Basics

  datatype Error =
    | EarlyEndOfStream
    | Formatting
    | LeftOverBytes
    | NotRepresentable
    | ExceededRecursionDepth

  /** A decoded value and the bytes left over. */
  type Decoded<+T> = Result<(T, Bytes), Error>

  function TakeByte(bytes: Bytes): Decoded<Byte> {
    if bytes == [] then Err(EarlyEndOfStream) else Ok((bytes[0], bytes[1..]))
  }

  function SafeSplitAt(bytes: Bytes, n: nat): Decoded<Bytes> {
    if n > |bytes| then Err(EarlyEndOfStream) else Ok((bytes[..n], bytes[n..]))
  }

  function TakeU32(bytes: Bytes): (r: Decoded<nat>)
    ensures r.Ok? ==> r.value.0 < U32_LIMIT
  {
    var (head, rest) :- SafeSplitAt(bytes, 4);
    FromLeBound(head);
    WordLimits();
    Ok((FromLe(head), rest))
  }

  lemma TakeU32RoundTrip(n: nat, rest: Bytes)
    requires n < U32_LIMIT
    ensures TakeU32(LeBytes(n, 4) + rest) == Ok((n, rest))
  {
    WordLimits();
    LeRoundTrip(n, 4);
    var bytes := LeBytes(n, 4) + rest;
    assert bytes[..4] == LeBytes(n, 4) && bytes[4..] == rest;
  }

  lemma TakeU32Reprint(bytes: Bytes)
    requires TakeU32(bytes).Ok?
    ensures bytes == LeBytes(TakeU32(bytes).value.0, 4) + TakeU32(bytes).value.1
  {
    LeOfFromLe(bytes[..4]);
    assert bytes == bytes[..4] + bytes[4..];
  }

  // ----- Minimal little-endian integers ----------------------------------------------------------

  /** Drops the zero bytes at the most significant end. */
  function Trim(bs: Bytes): (r: Bytes)
    ensures |r| <= |bs|
  {
    if bs != [] && bs[|bs| - 1] == 0 then Trim(bs[..|bs| - 1]) else bs
  }

  /** No zero byte at the most significant end. */
  predicate Minimal(bs: Bytes) {
    bs != [] ==> bs[|bs| - 1] != 0
  }

  lemma {:induction false} FromLeSnoc(bs: Bytes, b: Byte)
    ensures FromLe(bs + [b]) == FromLe(bs) + Pow256(|bs|) * b
  {
    if bs == [] {
      assert [b][1..] == [];
      assert bs + [b] == [b];
    } else {
      FromLeSnoc(bs[1..], b);
      assert (bs + [b])[1..] == bs[1..] + [b];
      assert Pow256(|bs|) * b == 256 * (Pow256(|bs[1..]|) * b);
    }
  }

  lemma {:induction false} TrimKeepsNumber(bs: Bytes)
    ensures FromLe(Trim(bs)) == FromLe(bs) && Minimal(Trim(bs))
  {
    if bs != [] && bs[|bs| - 1] == 0 {
      var front := bs[..|bs| - 1];
      TrimKeepsNumber(front);
      FromLeSnoc(front, 0);
      assert bs == front + [0];
    }
  }

  lemma {:induction false} TrimPadded(bs: Bytes, zeros: nat)
    requires Minimal(bs)
    ensures Trim(bs + Repeat(0, zeros)) == bs
  {
    var padded := bs + Repeat(0, zeros);
    if zeros == 0 {
      assert padded == bs;
    } else {
      TrimPadded(bs, zeros - 1);
      assert padded[..|padded| - 1] == bs + Repeat(0, zeros - 1);
    }
  }

  lemma {:induction false} LePadded(bs: Bytes, width: nat)
    requires |bs| <= width
    ensures LeBytes(FromLe(bs), width) == bs + Repeat(0, width - |bs|)
  {
    if bs == [] {
      LeOfZero(width);
    } else {
      LePadded(bs[1..], width - 1);
      var n := FromLe(bs);
      assert n % 256 == bs[0] && n / 256 == FromLe(bs[1..]);
      assert bs == [bs[0]] + bs[1..];
    }
  }

  lemma {:induction false} LeOfZero(width: nat)
    ensures LeBytes(0, width) == Repeat(0, width)
  {
    if width > 0 {
      LeOfZero(width - 1);
    }
  }

  /** The minimal form of a number is the only minimal byte string that stands for it. */
  lemma MinimalIsTrim(bs: Bytes, width: nat)
    requires |bs| <= width
    ensures Trim(LeBytes(FromLe(bs), width)) == bs <==> Minimal(bs)
  {
    TrimKeepsNumber(LeBytes(FromLe(bs), width));
    if Minimal(bs) {
      LePadded(bs, width);
      TrimPadded(bs, width - |bs|);
    }
  }

  /** The number of bytes a number needs. */
  function ByteCount(n: nat): nat {
    if n == 0 then 0 else 1 + ByteCount(n / 256)
  }

  lemma {:induction false} MinimalLength(bs: Bytes)
    requires Minimal(bs)
    ensures |bs| == ByteCount(FromLe(bs))
  {
    if bs != [] {
      var n := FromLe(bs);
      assert n % 256 == bs[0] && n / 256 == FromLe(bs[1..]);
      MinimalLength(bs[1..]);
      assert n > 0 by {
        if |bs| > 1 {
          assert |bs[1..]| == ByteCount(n / 256);
        }
      }
    }
  }

  // ----- UTF-8 -----------------------------------------------------------------------------------

  predicate Trailing(b: Byte) {
    0x80 <= b < 0xC0
  }

  /** Well-formed UTF-8: shortest forms only, no surrogates, nothing above U+10FFFF. */
  predicate ValidUtf8(bs: Bytes) {
    if bs == [] then true
    else if bs[0] < 0x80 then ValidUtf8(bs[1..])
    else if 0xC2 <= bs[0] < 0xE0 then |bs| >= 2 && Trailing(bs[1]) && ValidUtf8(bs[2..])
    else if 0xE0 <= bs[0] < 0xF0 then
      && |bs| >= 3 && Trailing(bs[1]) && Trailing(bs[2])
      && (bs[0] == 0xE0 ==> bs[1] >= 0xA0)
      && (bs[0] == 0xED ==> bs[1] < 0xA0)
      && ValidUtf8(bs[3..])
    else if 0xF0 <= bs[0] < 0xF5 then
      && |bs| >= 4 && Trailing(bs[1]) && Trailing(bs[2]) && Trailing(bs[3])
      && (bs[0] == 0xF0 ==> bs[1] >= 0x90)
      && (bs[0] == 0xF4 ==> bs[1] < 0x90)
      && ValidUtf8(bs[4..])
    else false
  }
}
