/** What valid UTF-8 means: the encodings of Unicode scalar values, section 3 of RFC 3629. */
module Utf8 {
  import opened Basics
  import opened Wire

  /** A Unicode code point that is not a surrogate. */
  type Scalar = c: nat | c < 0xD800 || 0xE000 <= c < 0x11_0000 witness 0

  function EncodeScalar(c: Scalar): Bytes {
    if c < 0x80 then [c]
    else if c < 0x800 then [0xC0 + c / 0x40, 0x80 + c % 0x40]
    else if c < 0x1_0000 then [0xE0 + c / 0x1000, 0x80 + c / 0x40 % 0x40, 0x80 + c % 0x40]
    else [0xF0 + c / 0x4_0000, 0x80 + c / 0x1000 % 0x40, 0x80 + c / 0x40 % 0x40, 0x80 + c % 0x40]
  }

  function EncodeScalars(cs: seq<Scalar>): Bytes {
    if cs == [] then [] else EncodeScalar(cs[0]) + EncodeScalars(cs[1..])
  }

  /** The number of bytes that a leading byte announces. */
  function Width(b: Byte): nat {
    if b < 0x80 then 1 else if b < 0xE0 then 2 else if b < 0xF0 then 3 else 4
  }

  lemma ScalarFirst(c: Scalar, rest: Bytes)
    ensures ValidUtf8(EncodeScalar(c) + rest) <==> ValidUtf8(rest)
  {
    var bs := EncodeScalar(c) + rest;
    assert bs[|EncodeScalar(c)|..] == rest;
  }

  /** The scalar value at the start of a valid string. */
  lemma FirstScalar(bs: Bytes) returns (c: Scalar)
    requires bs != [] && ValidUtf8(bs)
    ensures Width(bs[0]) <= |bs| && EncodeScalar(c) == bs[..Width(bs[0])] && ValidUtf8(bs[Width(bs[0])..])
  {
    match Width(bs[0])
    case 1 => c := bs[0];
    case 2 => c := TwoBytes(bs[0], bs[1]);
    case 3 => c := ThreeBytes(bs[0], bs[1], bs[2]);
    case _ => c := FourBytes(bs[0], bs[1], bs[2], bs[3]);
  }

  lemma TwoBytes(a: Byte, b: Byte) returns (c: Scalar)
    requires 0xC2 <= a < 0xE0 && Trailing(b)
    ensures EncodeScalar(c) == [a, b]
  {
    c := 0x40 * (a - 0xC0) + (b - 0x80);
  }

  lemma ThreeBytes(a: Byte, b: Byte, d: Byte) returns (c: Scalar)
    requires 0xE0 <= a < 0xF0 && Trailing(b) && Trailing(d)
    requires (a == 0xE0 ==> b >= 0xA0) && (a == 0xED ==> b < 0xA0)
    ensures EncodeScalar(c) == [a, b, d]
  {
    var high := 0x40 * (a - 0xE0) + (b - 0x80);
    c := 0x40 * high + (d - 0x80);
    assert c / 0x40 == high && c / 0x1000 == a - 0xE0;
  }

  lemma FourBytes(a: Byte, b: Byte, d: Byte, e: Byte) returns (c: Scalar)
    requires 0xF0 <= a < 0xF5 && Trailing(b) && Trailing(d) && Trailing(e)
    requires (a == 0xF0 ==> b >= 0x90) && (a == 0xF4 ==> b < 0x90)
    ensures EncodeScalar(c) == [a, b, d, e]
  {
    var high := 0x40 * (a - 0xF0) + (b - 0x80);
    var mid := 0x40 * high + (d - 0x80);
    c := 0x40 * mid + (e - 0x80);
    assert c / 0x40 == mid && c / 0x1000 == high && c / 0x4_0000 == a - 0xF0;
  }

  lemma {:induction false} ScalarsOf(bs: Bytes) returns (cs: seq<Scalar>)
    requires ValidUtf8(bs)
    ensures EncodeScalars(cs) == bs
    decreases |bs|
  {
    hide ValidUtf8, EncodeScalar;
    if bs == [] {
      cs := [];
    } else {
      var c := FirstScalar(bs);
      var rest := ScalarsOf(bs[Width(bs[0])..]);
      cs := [c] + rest;
      assert cs[1..] == rest && bs == bs[..Width(bs[0])] + bs[Width(bs[0])..];
    }
  }

  lemma {:induction false} ScalarsAreValid(cs: seq<Scalar>)
    ensures ValidUtf8(EncodeScalars(cs))
  {
    if cs != [] {
      hide ValidUtf8, EncodeScalar;
      ScalarsAreValid(cs[1..]);
      ScalarFirst(cs[0], EncodeScalars(cs[1..]));
    }
  }

  /** The strings accepted are exactly the encodings of scalar values. */
  lemma ValidExactly(bs: Bytes)
    ensures ValidUtf8(bs) <==> exists cs: seq<Scalar> :: EncodeScalars(cs) == bs
  {
    hide ValidUtf8;
    if ValidUtf8(bs) {
      var cs := ScalarsOf(bs);
    }
    if cs: seq<Scalar> :| EncodeScalars(cs) == bs {
      ScalarsAreValid(cs);
    }
  }
}
