/** Hexadecimal with a checksum in the case of its letters. */
module ChecksummedHex {
  import opened Basics
  import opened Hashing

  /** Up to this many decoded bytes, mixed-case input has its checksum verified. */
  const SMALL_BYTES_COUNT: nat := 75

  datatype DecodeError = InvalidByte(index: nat, byte: Byte) | InvalidLength(length: nat)

  // ----- Digits and letters ----------------------------------------------------------------------

  /** `HEX_CHARS`: digits, then lower-case letters, then upper-case letters, as ASCII codes. */
  function HexChar(i: nat): Byte
    requires i < 22
  {
    if i < 10 then 48 + i else if i < 16 then 87 + i else 49 + i
  }

  predicate Lower(c: Byte) {
    97 <= c <= 102
  }

  predicate Upper(c: Byte) {
    65 <= c <= 70
  }

  function HexValue(c: Byte): Option<nat> {
    if 48 <= c <= 57 then Some(c - 48)
    else if Lower(c) then Some(c - 87)
    else if Upper(c) then Some(c - 55)
    else None
  }

  /** The `j`-th four-bit value of `bytes`, high half first. */
  function Nibble(bytes: Bytes, j: nat): (n: nat)
    requires j < 2 * |bytes|
    ensures n < 16
  {
    if j % 2 == 0 then bytes[j / 2] / 16 else bytes[j / 2] % 16
  }

  // ----- Encoding --------------------------------------------------------------------------------

  /** Bit `k` of a byte string that repeats forever, low bit first within each byte. */
  predicate BitAt(hash: Digest, k: nat) {
    hash[k / 8 % DIGEST_LENGTH] / Pow2(k % 8) % 2 == 1
  }

  /** How many of the first `j` nibbles are letters. */
  function Letters(bytes: Bytes, j: nat): (n: nat)
    requires j <= 2 * |bytes|
    ensures n <= j
  {
    if j == 0 then 0 else Letters(bytes, j - 1) + if Nibble(bytes, j - 1) >= 10 then 1 else 0
  }

  /** The `j`-th character: letter number `k` is upper case exactly when bit `k` of the hash is set. */
  function EncodedChar(hash: Digest, bytes: Bytes, j: nat): Byte
    requires j < 2 * |bytes|
  {
    var n := Nibble(bytes, j);
    HexChar(if n >= 10 && BitAt(hash, Letters(bytes, j)) then n + 6 else n)
  }

  function EncodeFirst(hash: Digest, bytes: Bytes, n: nat): (s: Bytes)
    requires n <= 2 * |bytes|
    ensures |s| == n && forall j | 0 <= j < n :: s[j] == EncodedChar(hash, bytes, j)
  {
    if n == 0 then [] else EncodeFirst(hash, bytes, n - 1) + [EncodedChar(hash, bytes, n - 1)]
  }

  function Encode(h: Hasher, bytes: Bytes): (s: Bytes)
    ensures |s| == 2 * |bytes| && forall j | 0 <= j < |s| :: s[j] == EncodedChar(h(bytes), bytes, j)
  {
    EncodeFirst(h(bytes), bytes, 2 * |bytes|)
  }

  /** An endless supply of the bits of a hash. */
  class BitCycle {
    const hash: Digest
    var at: nat
    var offset: nat

    ghost predicate Valid()
      reads this
    {
      at < DIGEST_LENGTH && offset < 8
    }

    /** The number of bits taken, modulo the number of bits in the hash. */
    ghost function Taken(): nat
      reads this
    {
      8 * at + offset
    }

    constructor (hash: Digest)
      ensures Valid() && this.hash == hash && Taken() == 0
    {
      this.hash := hash;
      at, offset := 0, 0;
    }

    method Next() returns (bit: bool)
      requires Valid()
      modifies this
      ensures Valid()
      ensures bit == BitAt(hash, old(Taken()))
      ensures Taken() == (old(Taken()) + 1) % 256
    {
      hide Pow2;
      DivMod8(Taken(), at, offset);
      bit := hash[at] / Pow2(offset) % 2 == 1;
      offset := offset + 1;
      if offset == 8 {
        at, offset := (at + 1) % DIGEST_LENGTH, 0;
      }
    }
  }

  /** What the first `n` bits of byte `i` amount to, the first bit counting 1, the next 2, and so on. */
  function BitSum(hash: Digest, i: nat, n: nat): nat {
    if n == 0 then 0 else BitSum(hash, i, n - 1) + if BitAt(hash, 8 * i + n - 1) then Pow2(n - 1) else 0
  }

  /** Bits `8i` to `8i + 7` are those of byte `i`, least significant first: they add up to the byte. */
  lemma BitsRebuildByte(hash: Digest, i: nat)
    requires i < 32
    ensures BitSum(hash, i, 8) == hash[i]
  {
    hide BitSum, BitAt;
    BitsRebuild(hash, i, 8);
    assert Pow2(8) == 256;
  }

  lemma {:induction false} BitsRebuild(hash: Digest, i: nat, n: nat)
    requires i < 32 && n <= 8
    ensures BitSum(hash, i, n) == hash[i] % Pow2(n)
  {
    if n > 0 {
      hide Pow2, BitAt;
      BitsRebuild(hash, i, n - 1);
      BitOfByte(hash, i, n - 1);
      NextBit(hash[i], n - 1);
    } else {
      assert Pow2(0) == 1;
    }
  }

  lemma BitOfByte(hash: Digest, i: nat, o: nat)
    requires i < 32 && o < 8
    ensures BitAt(hash, 8 * i + o) <==> hash[i] / Pow2(o) % 2 == 1
  {
    hide Pow2;
    DivMod8(8 * i + o, i, o);
  }

  lemma NextBit(x: nat, n: nat)
    ensures x % Pow2(n + 1) == x % Pow2(n) + if x / Pow2(n) % 2 == 1 then Pow2(n) else 0
  {
    assert Pow2(n + 1) == 2 * Pow2(n);
    hide Pow2;
    NextDigit(x, Pow2(n), x / Pow2(n));
  }

  lemma NextDigit(x: nat, p: nat, q: nat)
    requires p > 0 && q == x / p
    ensures x % (2 * p) == x % p + if q % 2 == 1 then p else 0
  {
    var b := q % 2;
    assert x == p * (2 * (q / 2) + b) + x % p;
    assert p * (2 * (q / 2) + b) == (2 * p) * (q / 2) + p * b;
    QuotientIs(x, 2 * p, q / 2, p * b + x % p);
  }

  lemma BitAtWraps(hash: Digest, k: nat)
    ensures BitAt(hash, k % 256) == BitAt(hash, k)
  {
    hide Pow2;
    WrapIndex(k, k / 256, k % 256);
  }

  lemma NextWraps(k: nat, q: nat, r: nat)
    requires k == 256 * q + r && r < 256
    ensures (r + 1) % 256 == (k + 1) % 256
  {
  }

  lemma WrapIndex(k: nat, q: nat, r: nat)
    requires k == 256 * q + r && r < 256
    ensures r / 8 % 32 == k / 8 % 32 && r % 8 == k % 8
  {
    var a, b := r / 8, r % 8;
    DivMod8(r, a, b);
    DivMod8(k, 32 * q + a, b);
    Mod32(q, a);
  }

  lemma Mod32(q: nat, x: nat)
    requires x < 32
    ensures (32 * q + x) % 32 == x
  {
  }

  lemma DivMod8(k: nat, a: nat, b: nat)
    requires k == 8 * a + b && b < 8
    ensures k / 8 == a && k % 8 == b
  {
  }

  /** The encoder with its state: a bit is drawn for each letter, and only then. */
  method EncodeIter(h: Hasher, bytes: Bytes) returns (s: Bytes)
    ensures s == Encode(h, bytes)
  {
    hide BitAt, Nibble, HexChar;
    var hash := h(bytes);
    var bits := new BitCycle(hash);
    s := [];
    for j := 0 to 2 * |bytes|
      invariant bits.Valid() && bits.hash == hash && bits.Taken() == Letters(bytes, j) % 256
      invariant s == EncodeFirst(hash, bytes, j)
    {
      var nibble := Nibble(bytes, j);
      if nibble >= 10 {
        ghost var drawn := Letters(bytes, j);
        BitAtWraps(hash, drawn);
        NextWraps(drawn, drawn / 256, drawn % 256);
        var upper := bits.Next();
        if upper {
          nibble := nibble + 6;
        }
      }
      s := s + [HexChar(nibble)];
    }
  }

  /** `Letters` counts the positions of letters before `j`. */
  lemma {:induction false} LettersCount(bytes: Bytes, j: nat)
    requires j <= 2 * |bytes|
    ensures Letters(bytes, j) == |set i | 0 <= i < j && Nibble(bytes, i) >= 10|
  {
    hide Nibble;
    if j > 0 {
      LettersCount(bytes, j - 1);
      var before := set i | 0 <= i < j - 1 && Nibble(bytes, i) >= 10;
      var upTo := set i | 0 <= i < j && Nibble(bytes, i) >= 10;
      assert upTo == before + if Nibble(bytes, j - 1) >= 10 then {j - 1} else {};
    }
  }

  /** In the encoding, letter number `k` is upper case exactly if bit `k` of the hash of the bytes is set. */
  lemma EncodedCase(h: Hasher, bytes: Bytes, j: nat)
    requires j < 2 * |bytes|
    ensures var c, letter, k := Encode(h, bytes)[j], Nibble(bytes, j) >= 10, Letters(bytes, j);
            && (Upper(c) <==> letter && BitAt(h(bytes), k))
            && (Lower(c) <==> letter && !BitAt(h(bytes), k))
  {
    hide BitAt, Nibble, Letters;
  }

  /** For inputs that get checked, different letters draw different bits of the hash. */
  lemma {:induction false} SmallInputsNeverWrap(bytes: Bytes, i: nat, j: nat)
    requires |bytes| <= 75 && i < j < 2 * |bytes| && Nibble(bytes, i) >= 10
    ensures Letters(bytes, i) < Letters(bytes, j) < 8 * DIGEST_LENGTH
    decreases j
  {
    if i + 1 < j {
      SmallInputsNeverWrap(bytes, i, j - 1);
    }
  }

  // ----- Decoding --------------------------------------------------------------------------------

  /** `s` is a hexadecimal spelling of `bytes`, in any case. */
  predicate Spells(s: Bytes, bytes: Bytes) {
    |s| == 2 * |bytes| && forall j | 0 <= j < |s| :: HexValue(s[j]) == Some(Nibble(bytes, j))
  }

  const DIGITS: string := "0123456789abcdef"
  const UPPER_DIGITS: string := "0123456789ABCDEF"

  /** The characters and their values, as text. */
  lemma HexDigits(c: Byte, i: nat)
    requires i < 16
    ensures HexValue(c) == Some(i) <==> c == DIGITS[i] as int || c == UPPER_DIGITS[i] as int
    ensures HexChar(i) == DIGITS[i] as int
    ensures i >= 10 ==> HexChar(i + 6) == UPPER_DIGITS[i] as int
  {
  }

  lemma HexLetters(c: Byte)
    ensures Lower(c) <==> c in [97, 98, 99, 100, 101, 102]
    ensures Upper(c) <==> c in [65, 66, 67, 68, 69, 70]
    ensures forall k | 10 <= k < 16 :: DIGITS[k] as int == 87 + k && UPPER_DIGITS[k] as int == 55 + k
  {
  }

  /** A spelling has two digits for each byte, sixteens before ones. */
  lemma SpellsExactly(s: Bytes, bytes: Bytes)
    ensures Spells(s, bytes) <==>
              && |s| == 2 * |bytes| && (forall j | 0 <= j < |s| :: HexValue(s[j]).Some?)
              && forall i | 0 <= i < |bytes| ::
                   bytes[i] == 16 * HexValue(s[2 * i]).value + HexValue(s[2 * i + 1]).value
  {
    hide HexValue, Nibble;
    if |s| == 2 * |bytes| && forall j | 0 <= j < |s| :: HexValue(s[j]).Some? {
      if Spells(s, bytes) {
        forall i | 0 <= i < |bytes|
          ensures bytes[i] == 16 * HexValue(s[2 * i]).value + HexValue(s[2 * i + 1]).value
        {
          assert HexValue(s[2 * i]) == Some(Nibble(bytes, 2 * i));
          assert HexValue(s[2 * i + 1]) == Some(Nibble(bytes, 2 * i + 1));
          TwoDigits(bytes, i, HexValue(s[2 * i]).value, HexValue(s[2 * i + 1]).value);
        }
      }
      if forall i | 0 <= i < |bytes| :: bytes[i] == 16 * HexValue(s[2 * i]).value + HexValue(s[2 * i + 1]).value {
        forall j | 0 <= j < |s| ensures HexValue(s[j]) == Some(Nibble(bytes, j)) {
          var i := j / 2;
          assert bytes[i] == 16 * HexValue(s[2 * i]).value + HexValue(s[2 * i + 1]).value;
          HexValueBound(s[2 * i]);
          HexValueBound(s[2 * i + 1]);
          TwoDigits(bytes, i, HexValue(s[2 * i]).value, HexValue(s[2 * i + 1]).value);
          assert j == 2 * i || j == 2 * i + 1;
        }
      }
    }
  }

  lemma HexValueBound(c: Byte)
    ensures HexValue(c).Some? ==> HexValue(c).value < 16
  {
  }

  lemma TwoDigits(bytes: Bytes, i: nat, x: nat, y: nat)
    requires i < |bytes| && x < 16 && y < 16
    ensures bytes[i] == 16 * x + y <==> Nibble(bytes, 2 * i) == x && Nibble(bytes, 2 * i + 1) == y
  {
  }

  predicate IsHex(s: Bytes) {
    |s| % 2 == 0 && forall j | 0 <= j < |s| :: HexValue(s[j]).Some?
  }

  function FirstInvalid(s: Bytes, i: nat): Option<nat>
    requires i <= |s|
    decreases |s| - i
  {
    if i == |s| then None else if HexValue(s[i]).None? then Some(i) else FirstInvalid(s, i + 1)
  }

  function BytesOf(s: Bytes): Bytes
    requires IsHex(s)
  {
    if s == [] then [] else [16 * HexValue(s[0]).value + HexValue(s[1]).value] + BytesOf(s[2..])
  }

  /** `base16::decode`. */
  function Base16Decode(s: Bytes): Result<Bytes, DecodeError> {
    if |s| % 2 == 1 then Err(InvalidLength(|s|)) else
    FirstInvalidFinds(s, 0);
    match FirstInvalid(s, 0)
    case Some(i) => Err(InvalidByte(i, s[i]))
    case None => Ok(BytesOf(s))
  }

  lemma {:induction false} FirstInvalidFinds(s: Bytes, i: nat)
    requires i <= |s|
    ensures match FirstInvalid(s, i)
            case Some(k) => i <= k < |s| && HexValue(s[k]).None? && forall j | i <= j < k :: HexValue(s[j]).Some?
            case None => forall j | i <= j < |s| :: HexValue(s[j]).Some?
    decreases |s| - i
  {
    if i < |s| {
      FirstInvalidFinds(s, i + 1);
    }
  }

  /** No letter is lower case, or none is upper case. */
  predicate SameCase(s: Bytes) {
    (forall j | 0 <= j < |s| :: !Lower(s[j])) || (forall j | 0 <= j < |s| :: !Upper(s[j]))
  }

  /** The scan: the first letter fixes the case, every later letter must agree. */
  method StringIsSameCase(s: Bytes) returns (same: bool)
    ensures same == SameCase(s)
  {
    var i := 0;
    while i < |s| && !Lower(s[i]) && !Upper(s[i])
      invariant i <= |s|
      invariant forall j | 0 <= j < i :: !Lower(s[j]) && !Upper(s[j])
    {
      i := i + 1;
    }
    if i == |s| {
      return true;
    }
    var first := i;
    var isUpper := Upper(s[i]);
    i := i + 1;
    while i < |s|
      invariant first < i <= |s|
      invariant forall j | first < j < i :: Lower(s[j]) || Upper(s[j]) ==> Upper(s[j]) == isUpper
    {
      if (Lower(s[i]) || Upper(s[i])) && Upper(s[i]) != isUpper {
        assert if isUpper then Upper(s[first]) && Lower(s[i]) else Lower(s[first]) && Upper(s[i]);
        return false;
      }
      i := i + 1;
    }
    assert if isUpper then forall j | 0 <= j < |s| :: !Lower(s[j]) else forall j | 0 <= j < |s| :: !Upper(s[j]);
    return true;
  }

  /** The first position from `i` on where two equally long strings differ. */
  function FirstDifference(a: Bytes, b: Bytes, i: nat): Option<nat>
    requires |a| == |b| && i <= |a|
    decreases |a| - i
  {
    if i == |a| then None else if a[i] != b[i] then Some(i) else FirstDifference(a, b, i + 1)
  }

  lemma {:induction false} FirstDifferenceFinds(a: Bytes, b: Bytes, i: nat)
    requires |a| == |b| && i <= |a|
    ensures match FirstDifference(a, b, i)
            case Some(k) => i <= k < |a| && a[k] != b[k] && forall j | i <= j < k :: a[j] == b[j]
            case None => forall j | i <= j < |a| :: a[j] == b[j]
    decreases |a| - i
  {
    if i < |a| {
      FirstDifferenceFinds(a, b, i + 1);
    }
  }

  function Decode(h: Hasher, s: Bytes): Result<Bytes, DecodeError> {
    var bytes :- Base16Decode(s);
    if |bytes| > SMALL_BYTES_COUNT || SameCase(s) then Ok(bytes) else
    Base16Spells(s, bytes);
    var expected := Encode(h, bytes);
    FirstDifferenceFinds(expected, s, 0);
    match FirstDifference(expected, s, 0)
    case Some(i) => Err(InvalidByte(i, expected[i]))
    case None => Ok(bytes)
  }

  // ----- What is accepted ------------------------------------------------------------------------

  lemma {:induction false} BytesOfSpells(s: Bytes)
    requires IsHex(s)
    ensures Spells(s, BytesOf(s))
  {
    if s != [] {
      var tail := s[2..];
      assert forall j | 0 <= j < |tail| :: tail[j] == s[j + 2];
      BytesOfSpells(tail);
      var bytes := BytesOf(s);
      forall j | 0 <= j < |s| ensures HexValue(s[j]) == Some(Nibble(bytes, j)) {
        if j >= 2 {
          assert s[j] == tail[j - 2] && bytes[j / 2] == BytesOf(tail)[(j - 2) / 2];
        }
      }
    }
  }

  /** Two byte strings with a common spelling are equal. */
  lemma SpellsUnique(s: Bytes, a: Bytes, b: Bytes)
    requires Spells(s, a) && Spells(s, b)
    ensures a == b
  {
    forall i | 0 <= i < |a| ensures a[i] == b[i] {
      assert HexValue(s[2 * i]) == Some(Nibble(a, 2 * i)) == Some(Nibble(b, 2 * i));
      assert HexValue(s[2 * i + 1]) == Some(Nibble(a, 2 * i + 1)) == Some(Nibble(b, 2 * i + 1));
      assert a[i] == 16 * (a[i] / 16) + a[i] % 16 && b[i] == 16 * (b[i] / 16) + b[i] % 16;
    }
  }

  lemma Base16Spells(s: Bytes, bytes: Bytes)
    ensures Base16Decode(s) == Ok(bytes) <==> Spells(s, bytes)
  {
    FirstInvalidFinds(s, 0);
    if IsHex(s) {
      BytesOfSpells(s);
      if Spells(s, bytes) {
        SpellsUnique(s, bytes, BytesOf(s));
      }
    }
  }

  lemma EncodeSpells(h: Hasher, bytes: Bytes)
    ensures Spells(Encode(h, bytes), bytes)
  {
    hide HexValue, Nibble, EncodedChar;
    forall j | 0 <= j < 2 * |bytes| ensures HexValue(Encode(h, bytes)[j]) == Some(Nibble(bytes, j)) {
      EncodedCharSpells(h(bytes), bytes, j);
    }
  }

  lemma EncodedCharSpells(hash: Digest, bytes: Bytes, j: nat)
    requires j < 2 * |bytes|
    ensures HexValue(EncodedChar(hash, bytes, j)) == Some(Nibble(bytes, j))
  {
    hide BitAt, Nibble, Letters;
  }

  /**
   A string decodes to `bytes` exactly when it spells them and is long, or in one case, or exactly
   the checksummed spelling.
   */
  lemma DecodeAccepts(h: Hasher, s: Bytes, bytes: Bytes)
    ensures Decode(h, s) == Ok(bytes) <==>
            Spells(s, bytes) && (|bytes| > 75 || SameCase(s) || s == Encode(h, bytes))
  {
    Base16Spells(s, bytes);
    if Base16Decode(s).Ok? {
      var b := Base16Decode(s).value;
      Base16Spells(s, b);
      FirstDifferenceFinds(Encode(h, b), s, 0);
    }
  }

  /** Every byte string survives, whatever its length. */
  lemma RoundTrip(h: Hasher, bytes: Bytes)
    ensures Decode(h, Encode(h, bytes)) == Ok(bytes)
  {
    EncodeSpells(h, bytes);
    DecodeAccepts(h, Encode(h, bytes), bytes);
  }

  /** The answer names the first position where `s` differs from `expected`, and what is expected there. */
  predicate ReportsFirstDifference(r: Result<Bytes, DecodeError>, s: Bytes, expected: Bytes)
    requires |s| == |expected|
  {
    && r.Err? && r.error.InvalidByte?
    && var i := r.error.index;
       && i < |s| && s[i] != expected[i] && r.error.byte == expected[i]
       && forall j | 0 <= j < i :: s[j] == expected[j]
  }

  /** A short mixed-case spelling with a wrong checksum is refused at the first character that differs. */
  lemma ChecksumFailure(h: Hasher, s: Bytes, bytes: Bytes)
    requires Spells(s, bytes)
    ensures |bytes| <= 75 && !SameCase(s) && s != Encode(h, bytes) ==>
              ReportsFirstDifference(Decode(h, s), s, Encode(h, bytes))
  {
    Base16Spells(s, bytes);
    FirstDifferenceFinds(Encode(h, bytes), s, 0);
  }

  /** Everything else that is refused: odd length first, otherwise the first character that is no digit. */
  lemma NotHex(h: Hasher, s: Bytes)
    requires !IsHex(s)
    ensures Decode(h, s).Err?
    ensures |s| % 2 == 1 ==> Decode(h, s) == Err(InvalidLength(|s|))
    ensures |s| % 2 == 0 ==>
              && Decode(h, s).error.InvalidByte?
              && var i := Decode(h, s).error.index;
                 i < |s| && Decode(h, s).error.byte == s[i] && HexValue(s[i]).None?
                 && forall j | 0 <= j < i :: HexValue(s[j]).Some?
  {
    FirstInvalidFinds(s, 0);
  }

  /** The spelling with all letters in one case. */
  function Plain(bytes: Bytes, upper: bool, n: nat): (s: Bytes)
    requires n <= 2 * |bytes|
    ensures |s| == n && forall j | 0 <= j < n ::
              s[j] == HexChar(Nibble(bytes, j) + if upper && Nibble(bytes, j) >= 10 then 6 else 0)
  {
    if n == 0 then []
    else
      var d := Nibble(bytes, n - 1);
      Plain(bytes, upper, n - 1) + [HexChar(d + if upper && d >= 10 then 6 else 0)]
  }

  lemma PlainSpells(bytes: Bytes, upper: bool)
    ensures Spells(Plain(bytes, upper, 2 * |bytes|), bytes) && SameCase(Plain(bytes, upper, 2 * |bytes|))
  {
  }

  /** A character is determined by its value and, for a letter, its case. */
  lemma CharOfValue(c: Byte, i: nat)
    requires i < 16 && HexValue(c) == Some(i)
    ensures !Upper(c) ==> c == HexChar(i)
    ensures !Lower(c) ==> c == HexChar(i + if i >= 10 then 6 else 0)
  {
  }

  /** A short byte string has exactly three accepted spellings: lower case, upper case, checksummed. */
  lemma AcceptedSpellings(h: Hasher, s: Bytes, bytes: Bytes)
    requires |bytes| <= 75
    ensures Decode(h, s) == Ok(bytes) <==>
            || s == Plain(bytes, false, 2 * |bytes|)
            || s == Plain(bytes, true, 2 * |bytes|)
            || s == Encode(h, bytes)
  {
    hide Decode, Encode, HexValue, Nibble;
    DecodeAccepts(h, s, bytes);
    PlainSpells(bytes, false);
    PlainSpells(bytes, true);
    EncodeSpells(h, bytes);
    if Spells(s, bytes) && SameCase(s) {
      var upper := forall j | 0 <= j < |s| :: !Lower(s[j]);
      var t := Plain(bytes, upper, 2 * |bytes|);
      forall j | 0 <= j < |s| ensures s[j] == t[j] {
        CharOfValue(s[j], Nibble(bytes, j));
      }
    }
  }
}
