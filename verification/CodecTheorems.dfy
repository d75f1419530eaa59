/** The main statements about the codec, on top of the two inversion lemmas. */
module CodecTheorems {
  import opened Basics
  import opened Wire
  import opened Values
  import opened Codec
  import opened CodecLaws
  import ClTypes

  // ----- Whole inputs ----------------------------------------------------------------------------

  /** `deserialize` on the bytes of `to_bytes`, with or without extra bytes behind them. */
  lemma DeserializeToBytes(s: Schema, v: Value, extra: Bytes)
    requires WellFormed(s) && HasType(s, v) && ToBytes(s, v).Ok?
    ensures Deserialize(s, ToBytes(s, v).value + extra)
         == if !Shallow(s, v) then Err(ExceededRecursionDepth)
            else if extra == [] then Ok(v)
            else Err(LeftOverBytes)
  {
    hide Decode, Encode;
    EncodeDecode(s, v, extra);
  }

  // ----- Encodings are uniquely readable, whatever the decoder's depth limit -----------------------

  /** Encodings followed by anything agree only if the values and what follows agree. */
  lemma {:induction false} EncodeUnique(s: Schema, v: Value, w: Value, a: Bytes, b: Bytes)
    requires WellFormed(s) && Encodable(s, v) && Encodable(s, w)
    requires Encode(s, v) + a == Encode(s, w) + b
    ensures v == w && a == b
    decreases Rank(s), 0
  {
    hide Decode, EncodeMany, AllFit, AllTyped, Ascending, ValidUtf8, LeBytes, ClTypes.Print, AllShallow;
    match s
    case Type => ClTypes.PrintUnique(v.clType, w.clType, a, b);
    case Pair(x, y) =>
      ConcatAssociative(Encode(x, v.fst), Encode(y, v.snd), a, []);
      ConcatAssociative(Encode(x, w.fst), Encode(y, w.snd), b, []);
      EncodeUnique(x, v.fst, w.fst, Encode(y, v.snd) + a, Encode(y, w.snd) + b);
      EncodeUnique(y, v.snd, w.snd, a, b);
    case Choice(_, _, _, _) => ChoiceUnique(s, v, w, a, b);
    case Vec(e) => CountedUnique(e, v.items, w.items, a, b);
    case Map(k, e) => CountedUnique(Pair(k, e), v.items, w.items, a, b);
    case _ =>
      EncodeDecode(s, v, a);
      EncodeDecode(s, w, b);
  }

  lemma {:induction false} ChoiceUnique(s: Schema, v: Value, w: Value, a: Bytes, b: Bytes)
    requires s.Choice? && WellFormed(s) && Encodable(s, v) && Encodable(s, w)
    requires Encode(s, v) + a == Encode(s, w) + b
    ensures v == w && a == b
    decreases Rank(s), 0, 0
  {
    hide AllTyped, AllFit, EncodeMany, Ascending, ValidUtf8, LeBytes, Pow256, ClTypes.Print, Trim, Unsigned;
    var c := if v.second then s.case1 else s.case0;
    assert (Encode(s, v) + a)[0] == (Encode(s, w) + b)[0];
    assert v.second == w.second;
    assert (Encode(s, v) + a)[1..] == Encode(c, v.payload) + a;
    assert (Encode(s, w) + b)[1..] == Encode(c, w.payload) + b;
    EncodeUnique(c, v.payload, w.payload, a, b);
  }

  lemma {:induction false} CountedUnique(s: Schema, vs: seq<Value>, ws: seq<Value>, a: Bytes, b: Bytes)
    requires WellFormed(s) && AllTyped(s, vs) && AllTyped(s, ws) && AllFit(s, vs) && AllFit(s, ws)
    requires |vs| < U32_LIMIT && |ws| < U32_LIMIT
    requires (LeBytes(|vs|, 4) + EncodeMany(s, vs)) + a == (LeBytes(|ws|, 4) + EncodeMany(s, ws)) + b
    ensures vs == ws && a == b
    decreases Rank(s), 2
  {
    hide EncodeMany, AllTyped, AllFit, LeBytes;
    ConcatAssociative(LeBytes(|vs|, 4), EncodeMany(s, vs), a, []);
    ConcatAssociative(LeBytes(|ws|, 4), EncodeMany(s, ws), b, []);
    TakeU32RoundTrip(|vs|, EncodeMany(s, vs) + a);
    TakeU32RoundTrip(|ws|, EncodeMany(s, ws) + b);
    ManyUnique(s, vs, ws, a, b);
  }

  lemma {:induction false} ManyUnique(s: Schema, vs: seq<Value>, ws: seq<Value>, a: Bytes, b: Bytes)
    requires WellFormed(s) && AllTyped(s, vs) && AllTyped(s, ws) && AllFit(s, vs) && AllFit(s, ws)
    requires |vs| == |ws| && EncodeMany(s, vs) + a == EncodeMany(s, ws) + b
    ensures vs == ws && a == b
    decreases Rank(s), 1, |vs|
  {
    hide Encode, HasType, Fits, AllTyped, AllFit;
    TypedByFirst(s, vs);
    TypedByFirst(s, ws);
    FitByFirst(s, vs);
    FitByFirst(s, ws);
    if vs == [] {
      assert EncodeMany(s, vs) + a == a && EncodeMany(s, ws) + b == b;
    } else {
      var a', b' := EncodeMany(s, vs[1..]) + a, EncodeMany(s, ws[1..]) + b;
      ConcatAssociative(Encode(s, vs[0]), EncodeMany(s, vs[1..]), a, []);
      ConcatAssociative(Encode(s, ws[0]), EncodeMany(s, ws[1..]), b, []);
      EncodeUnique(s, vs[0], ws[0], a', b');
      ManyUnique(s, vs[1..], ws[1..], a, b);
      assert vs == [vs[0]] + vs[1..] && ws == [ws[0]] + ws[1..];
    }
  }

  /** No encoding is a prefix of the encoding of another value of the same type. */
  lemma PrefixFree(s: Schema, v: Value, w: Value)
    requires WellFormed(s) && Encodable(s, v) && Encodable(s, w)
    requires Encode(s, v) <= Encode(s, w)
    ensures v == w
  {
    hide Encode;
    var tail := Encode(s, w)[|Encode(s, v)|..];
    assert Encode(s, v) + tail == Encode(s, w) + [];
    EncodeUnique(s, v, w, tail, []);
  }

  // ----- The named shapes ------------------------------------------------------------------------

  /** Unsigned integers: `w` bytes, byte `i` counting 256 to the power `i`. */
  lemma UnsignedFormat(w: nat, n: nat, i: nat)
    requires n < Pow256(w) && i < w
    ensures |Encode(UInt(w), Num(n))| == w && Encode(UInt(w), Num(n))[i] == n / Pow256(i) % 256
  {
    LeByteAt(n, w, i);
  }

  /** Signed integers are in two's complement. */
  lemma SignedFormat(w: nat, n: int, i: nat)
    requires w > 0 && 0 <= 2 * n + Pow256(w) < 2 * Pow256(w) && i < w
    ensures var bytes := Encode(SInt(w), Num(n));
            && |bytes| == w && FromLe(bytes) == (if n < 0 then Pow256(w) + n else n)
            && (n == -1 ==> bytes[i] == 255)
            && (n == 0 ==> bytes[i] == 0)
  {
    var m := Unsigned(n, w);
    LeRoundTrip(m, w);
    if n == -1 { AllOnes(w, i); }
    if n == 0 { LeOfZero(w); }
  }

  lemma {:induction false} AllOnes(w: nat, i: nat)
    requires i < w
    ensures LeBytes(Pow256(w) - 1, w)[i] == 255
  {
    if i > 0 {
      AllOnes(w - 1, i - 1);
    }
    assert (Pow256(w) - 1) % 256 == 255 && (Pow256(w) - 1) / 256 == Pow256(w - 1) - 1;
  }

  /** Big integers: the number of bytes needed, then those bytes, least significant first. */
  lemma BigFormat(w: nat, n: nat)
    requires w < 256 && n < Pow256(w)
    ensures var bytes := Encode(Big(w), Num(n));
            && bytes != [] && bytes[0] == ByteCount(n) == |bytes| - 1
            && FromLe(bytes[1..]) == n && (n > 0 ==> bytes[|bytes| - 1] != 0)
  {
    var digits := Trim(LeBytes(n, w));
    TrimKeepsNumber(LeBytes(n, w));
    LeRoundTrip(n, w);
    MinimalLength(digits);
    assert ([|digits|] + digits)[1..] == digits;
  }

  /** Strings and byte vectors: a four-byte count, least significant first, then the bytes. */
  lemma SizedFormat(bs: Bytes, i: nat)
    requires |bs| < U32_LIMIT && i < 4
    ensures var bytes := Encode(Blob, Raw(bs));
            && bytes[i] == |bs| / Pow256(i) % 256 && bytes[4..] == bs
            && (ValidUtf8(bs) ==> Encode(Text, Raw(bs)) == bytes)
  {
    LeByteAt(|bs|, 4, i);
  }

  /** A big integer that announces too many bytes, and a string that is not UTF-8, are badly formatted. */
  lemma MalformedLeaves(w: nat, bytes: Bytes, bs: Bytes, rest: Bytes)
    ensures bytes != [] && bytes[0] > w ==> Decode(Big(w), bytes) == Err(Formatting)
    ensures |bs| < U32_LIMIT && !ValidUtf8(bs) ==>
              Decode(Text, (LeBytes(|bs|, 4) + bs) + rest) == Err(Formatting)
  {
    hide LeBytes, ValidUtf8;
    if |bs| < U32_LIMIT {
      SizedRoundTrip(bs, rest);
    }
  }

  /** `bool`: one byte, 0 or 1. */
  lemma BoolFormat(b: bool, rest: Bytes)
    ensures Decode(Bool(), [if b then 1 else 0] + rest) == Ok((Alt(b, Nil), rest))
    ensures Decode(Bool(), []) == Err(EarlyEndOfStream)
    ensures forall bytes: Bytes | bytes != [] && bytes[0] > 1 :: Decode(Bool(), bytes) == Err(Formatting)
  {
    DecodeChoice(Bool(), b, rest);
  }

  /** `Option`: 0 for nothing, 1 before the value. */
  lemma OptionFormat(s: Schema, v: Value, rest: Bytes)
    requires WellFormed(s) && Encodable(s, v)
    ensures Decode(OptionOf(s), [0] + rest) == Ok((Alt(false, Nil), rest))
    ensures Decode(OptionOf(s), ([1] + Encode(s, v)) + rest) == Expected(Shallow(s, v), Alt(true, v), rest)
    ensures forall bytes: Bytes | bytes != [] && bytes[0] > 1 :: Decode(OptionOf(s), bytes) == Err(Formatting)
  {
    forall bytes: Bytes | bytes != [] && bytes[0] > 1 ensures Decode(OptionOf(s), bytes) == Err(Formatting) {
      OtherTag(OptionOf(s), bytes);
    }
    hide Encode, Decode;
    DecodeChoice(OptionOf(s), false, rest);
    DecodeUnit(rest);
    ConcatAssociative([1], Encode(s, v), rest, []);
    DecodeChoice(OptionOf(s), true, Encode(s, v) + rest);
    EncodeDecode(s, v, rest);
  }

  lemma OtherTag(s: Schema, bytes: Bytes)
    requires s.Choice? && bytes != [] && bytes[0] != s.tag0 && bytes[0] != s.tag1
    ensures Decode(s, bytes) == Err(Formatting)
  {
  }

  lemma DecodeUnit(rest: Bytes)
    ensures Decode(Unit, rest) == Ok((Nil, rest))
  {
  }

  /** `Result`: 1 before the value of `Ok`, 0 before that of `Err`. */
  lemma ResultFormat(ok: Schema, err: Schema, isErr: bool, v: Value, rest: Bytes)
    requires WellFormed(ok) && WellFormed(err) && Encodable(if isErr then err else ok, v)
    ensures var s := if isErr then err else ok;
            Decode(ResultOf(ok, err), ([if isErr then 0 else 1] + Encode(s, v)) + rest)
            == Expected(Shallow(s, v), Alt(isErr, v), rest)
    ensures forall bytes: Bytes | bytes != [] && bytes[0] > 1 :: Decode(ResultOf(ok, err), bytes) == Err(Formatting)
  {
    forall bytes: Bytes | bytes != [] && bytes[0] > 1 ensures Decode(ResultOf(ok, err), bytes) == Err(Formatting) {
      OtherTag(ResultOf(ok, err), bytes);
    }
    hide Encode, Decode;
    var s := if isErr then err else ok;
    var tag: Bytes := [if isErr then 0 else 1];
    ConcatAssociative(tag, Encode(s, v), rest, []);
    DecodeChoice(ResultOf(ok, err), isErr, Encode(s, v) + rest);
    EncodeDecode(s, v, rest);
  }

  lemma TripleEncode(a: Schema, b: Schema, c: Schema, x: Value, y: Value, z: Value)
    requires WellFormed(a) && WellFormed(b) && WellFormed(c)
    requires Encodable(a, x) && Encodable(b, y) && Encodable(c, z)
    ensures var s, v := Triple(a, b, c), Both(x, Both(y, z));
            && WellFormed(s) && Encodable(s, v)
            && (Shallow(s, v) <==> Shallow(a, x) && Shallow(b, y) && Shallow(c, z))
            && Encode(s, v) == (Encode(a, x) + Encode(b, y)) + Encode(c, z)
  {
    hide Encode, HasType, Fits, Shallow;
    PairTyped(b, c, y, z);
    PairTyped(a, Pair(b, c), x, Both(y, z));
    EncodePair(b, c, y, z);
    EncodePair(a, Pair(b, c), x, Both(y, z));
    ConcatAssociative(Encode(a, x), Encode(b, y), Encode(c, z), []);
  }

  /** A triple: its parts one after another. */
  lemma TripleFormat(a: Schema, b: Schema, c: Schema, x: Value, y: Value, z: Value, rest: Bytes)
    requires WellFormed(a) && WellFormed(b) && WellFormed(c)
    requires Encodable(a, x) && Encodable(b, y) && Encodable(c, z)
    ensures Decode(Triple(a, b, c), ((Encode(a, x) + Encode(b, y)) + Encode(c, z)) + rest)
         == Expected(Shallow(a, x) && Shallow(b, y) && Shallow(c, z), Both(x, Both(y, z)), rest)
  {
    hide Decode, Encode, HasType, Fits, Shallow, Triple;
    TripleEncode(a, b, c, x, y, z);
    EncodeDecode(Triple(a, b, c), Both(x, Both(y, z)), rest);
  }

  /** The elements of a set as entries without values. */
  function SetEntries(vs: seq<Value>): (es: seq<Value>)
    ensures |es| == |vs| && forall i | 0 <= i < |vs| :: es[i] == Both(vs[i], Nil)
  {
    if vs == [] then [] else [Both(vs[0], Nil)] + SetEntries(vs[1..])
  }

  lemma {:induction false} SetEntriesEncode(s: Schema, vs: seq<Value>)
    requires WellFormed(s) && AllTyped(s, vs) && AllFit(s, vs)
    ensures AllTyped(Pair(s, Unit), SetEntries(vs)) && AllFit(Pair(s, Unit), SetEntries(vs))
    ensures AllShallow(Pair(s, Unit), SetEntries(vs)) <==> AllShallow(s, vs)
    ensures EncodeMany(Pair(s, Unit), SetEntries(vs)) == EncodeMany(s, vs)
  {
    hide Encode;
    hide HasType, Fits, Shallow, AllTyped, AllFit, AllShallow;
    TypedByFirst(s, vs);
    FitByFirst(s, vs);
    ShallowByFirst(s, vs);
    var p, es := Pair(s, Unit), SetEntries(vs);
    TypedByFirst(p, es);
    FitByFirst(p, es);
    ShallowByFirst(p, es);
    if vs != [] {
      SetEntriesEncode(s, vs[1..]);
      assert es[1..] == SetEntries(vs[1..]);
      SetEntryEncode(s, vs[0]);
    }
  }

  lemma SetEntryEncode(s: Schema, v: Value)
    requires WellFormed(s) && Encodable(s, v)
    ensures Encodable(Pair(s, Unit), Both(v, Nil))
    ensures Shallow(Pair(s, Unit), Both(v, Nil)) <==> Shallow(s, v)
    ensures Encode(Pair(s, Unit), Both(v, Nil)) == Encode(s, v)
  {
    assert Encode(s, v) + [] == Encode(s, v);
  }

  /**
   `BTreeSet`: the elements as in a vector.  In any order and with repetitions they give the set of
   entries inserted one by one; a set in order comes back as it was.
   */
  lemma SetFormat(s: Schema, vs: seq<Value>, rest: Bytes)
    requires WellFormed(SetOf(s)) && AllTyped(s, vs) && AllFit(s, vs) && |vs| < U32_LIMIT
    ensures Decode(SetOf(s), (LeBytes(|vs|, 4) + EncodeMany(s, vs)) + rest)
         == Expected(AllShallow(s, vs), Items(FromEntries(SetEntries(vs))), rest)
    ensures Ascending(SetEntries(vs)) ==> FromEntries(SetEntries(vs)) == SetEntries(vs)
  {
    hide EncodeMany, DecodeMany, AllTyped, AllFit, AllShallow, FromEntries, Ascending, TakeU32, LeBytes, SetEntries;
    SetEntriesEncode(s, vs);
    CountedRoundTrip(Pair(s, Unit), SetEntries(vs), rest);
    if Ascending(SetEntries(vs)) {
      FromEntriesAscending(SetEntries(vs));
    }
  }

  // ----- Lengths ---------------------------------------------------------------------------------

  function SerializedLength(s: Schema, v: Value): nat
    requires HasType(s, v)
    decreases Rank(s), 0
  {
    match s
    case Unit => 0
    case UInt(w) => w
    case SInt(w) => w
    case Big(_) => 1 + ByteCount(v.n)
    case Text => 4 + |v.bytes|
    case Blob => 4 + |v.bytes|
    case Array(len) => len
    case Vec(e) => 4 + TotalLength(e, v.items)
    case Pair(a, b) => SerializedLength(a, v.fst) + SerializedLength(b, v.snd)
    case Choice(_, a, _, b) => 1 + SerializedLength(if v.second then b else a, v.payload)
    case Map(k, e) => 4 + TotalLength(Pair(k, e), v.items)
    case Type => ClTypes.SerializedLength(v.clType)
  }

  function TotalLength(s: Schema, vs: seq<Value>): nat
    requires AllTyped(s, vs)
    decreases Rank(s), 1 + |vs|
  {
    if vs == [] then 0 else SerializedLength(s, vs[0]) + TotalLength(s, vs[1..])
  }

  /** `serialized_length` is the length of the encoding. */
  lemma {:induction false} EncodeLength(s: Schema, v: Value)
    requires WellFormed(s) && HasType(s, v)
    ensures |Encode(s, v)| == SerializedLength(s, v)
    decreases Rank(s), 0
  {
    hide AllTyped, Ascending, TotalLength, EncodeMany;
    match s
    case Big(w) =>
      TrimKeepsNumber(LeBytes(v.n, w));
      LeRoundTrip(v.n, w);
      MinimalLength(Trim(LeBytes(v.n, w)));
    case Vec(e) => ManyLength(e, v.items);
    case Map(k, e) => ManyLength(Pair(k, e), v.items);
    case Pair(a, b) =>
      EncodeLength(a, v.fst);
      EncodeLength(b, v.snd);
    case Choice(_, a, _, b) => EncodeLength(if v.second then b else a, v.payload);
    case Type => ClTypes.PrintLength(v.clType);
    case _ =>
  }

  lemma {:induction false} ManyLength(s: Schema, vs: seq<Value>)
    requires WellFormed(s) && AllTyped(s, vs)
    ensures |EncodeMany(s, vs)| == TotalLength(s, vs)
    decreases Rank(s), 1 + |vs|
  {
    hide Encode, SerializedLength, HasType;
    if vs != [] {
      EncodeLength(s, vs[0]);
      ManyLength(s, vs[1..]);
    }
  }

  // ----- Maps normalise --------------------------------------------------------------------------

  /**
   The map read from a stream: what it holds, and when the stream was its own encoding.  The keys must
   come in order, and every entry must be in its own encoding, which canonical schemas cannot break.
   */
  lemma MapNormalises(k: Schema, e: Schema, bytes: Bytes, key: Value, suffix: Bytes)
    requires WellFormed(Map(k, e)) && Decode(Map(k, e), bytes).Ok?
    ensures var (m, rest) := Decode(Map(k, e), bytes).value;
            var raw := RawEntries(k, e, bytes);
            && Good(Map(k, e), m) && AllTyped(Pair(k, e), raw)
            && (Reprints(Map(k, e), bytes, m, rest) <==> Ascending(raw) && EntriesReprint(k, e, bytes, raw, rest))
            && (Canonical(k) && Canonical(e) ==> EntriesReprint(k, e, bytes, raw, rest))
            && Lookup(m.items, key) == LastValue(raw, key)
            && Decode(Map(k, e), Encode(Map(k, e), m) + suffix) == Ok((m, suffix))
  {
    hide EncodeMany, DecodeMany, AllFit, AllShallow, Ascending, Lookup, LastValue;
    MapDecode(k, e, bytes);
    MapStream(k, e, bytes);
    var (m, rest) := Decode(Map(k, e), bytes).value;
    var raw := RawEntries(k, e, bytes);
    forall i | 0 <= i < |raw| ensures raw[i].Both? {
      assert HasType(Pair(k, e), raw[i]);
    }
    LastValueWins(raw, key);
    EncodeDecode(Map(k, e), m, suffix);
    MapReprints(k, e, bytes);
  }

  /** The stream is the count and the entries as they encode. */
  predicate EntriesReprint(k: Schema, e: Schema, bytes: Bytes, raw: seq<Value>, rest: Bytes)
    requires WellFormed(Map(k, e)) && AllTyped(Pair(k, e), raw)
  {
    bytes == (LeBytes(|raw|, 4) + EncodeMany(Pair(k, e), raw)) + rest
  }

  lemma MapStream(k: Schema, e: Schema, bytes: Bytes)
    requires WellFormed(Map(k, e)) && Decode(Map(k, e), bytes).Ok?
    ensures var (m, rest) := Decode(Map(k, e), bytes).value;
            var raw := RawEntries(k, e, bytes);
            && AllGood(Pair(k, e), raw) && |raw| < U32_LIMIT
            && m == Items(FromEntries(raw))
            && (Canonical(k) && Canonical(e) ==> EntriesReprint(k, e, bytes, raw, rest))
  {
    hide EncodeMany, DecodeMany, AllTyped, AllFit, AllShallow;
    CountedDecode(Pair(k, e), bytes);
  }

  lemma MapReprints(k: Schema, e: Schema, bytes: Bytes)
    requires WellFormed(Map(k, e)) && Decode(Map(k, e), bytes).Ok?
    ensures var (m, rest) := Decode(Map(k, e), bytes).value;
            var raw := RawEntries(k, e, bytes);
            && HasType(Map(k, e), m) && AllTyped(Pair(k, e), raw)
            && (Reprints(Map(k, e), bytes, m, rest) <==> Ascending(raw) && EntriesReprint(k, e, bytes, raw, rest))
  {
    hide EncodeMany, DecodeMany, AllTyped, AllFit, AllShallow, Ascending, TakeU32, LeBytes;
    MapDecode(k, e, bytes);
    MapStream(k, e, bytes);
    var (m, rest) := Decode(Map(k, e), bytes).value;
    var raw := RawEntries(k, e, bytes);
    if Ascending(raw) {
      FromEntriesAscending(raw);
    }
    if Reprints(Map(k, e), bytes, m, rest) {
      CountedRoundTrip(Pair(k, e), m.items, rest);
    }
  }

  // ----- Which schemas are canonical -------------------------------------------------------------

  function Default(s: Schema): (v: Value)
    requires WellFormed(s)
    ensures Good(s, v)
    decreases Rank(s)
  {
    match s
    case Unit => Nil
    case UInt(_) => Num(0)
    case SInt(_) => Num(0)
    case Big(_) => Num(0)
    case Text => Raw([])
    case Blob => Raw([])
    case Array(len) => Raw(Repeat(0, len))
    case Vec(e) => EmptyIsTyped(e); Items([])
    case Pair(a, b) => Both(Default(a), Default(b))
    case Choice(_, a, _, _) => Alt(false, Default(a))
    case Map(k, e) => EmptyIsTyped(Pair(k, e)); Items([])
    case Type => TypeOf(ClTypes.Prim(ClTypes.Unit))
  }

  function EncodedDefault(s: Schema): Bytes
    requires WellFormed(s)
  {
    Encode(s, Default(s))
  }

  /** For a schema that is not canonical: bytes that decode to a value with another encoding. */
  function Twin(s: Schema): Bytes
    requires WellFormed(s) && !Canonical(s)
    decreases Rank(s)
  {
    match s
    case Big(_) => [1, 0]
    case Map(k, e) =>
      var entry := EncodedDefault(Pair(k, e));
      LeBytes(2, 4) + (entry + entry)
    case Vec(e) => LeBytes(1, 4) + Twin(e)
    case Pair(a, b) => if Canonical(a) then EncodedDefault(a) + Twin(b) else Twin(a) + EncodedDefault(b)
    case Choice(t0, a, t1, b) => if Canonical(a) then [t1] + Twin(b) else [t0] + Twin(a)
  }

  function TwinValue(s: Schema): Value
    requires WellFormed(s) && !Canonical(s)
    decreases Rank(s)
  {
    match s
    case Big(_) => Num(0)
    case Map(k, e) => Items([Default(Pair(k, e))])
    case Vec(e) => Items([TwinValue(e)])
    case Pair(a, b) => if Canonical(a) then Both(Default(a), TwinValue(b)) else Both(TwinValue(a), Default(b))
    case Choice(_, a, _, b) => if Canonical(a) then Alt(true, TwinValue(b)) else Alt(false, TwinValue(a))
  }

  lemma DefaultRoundTrip(s: Schema, rest: Bytes)
    requires WellFormed(s)
    ensures Decode(s, EncodedDefault(s) + rest) == Ok((Default(s), rest))
  {
    EncodeDecode(s, Default(s), rest);
  }

  /** The twin is accepted and is not the encoding of the value it decodes to. */
  predicate IsTwin(s: Schema, rest: Bytes)
    requires WellFormed(s) && !Canonical(s)
  {
    && Decode(s, Twin(s) + rest) == Ok((TwinValue(s), rest))
    && HasType(s, TwinValue(s)) && Encode(s, TwinValue(s)) != Twin(s)
  }

  lemma {:induction false} TwinDecodes(s: Schema, rest: Bytes)
    requires WellFormed(s) && !Canonical(s)
    ensures IsTwin(s, rest)
    decreases Rank(s)
  {
    hide EncodeMany, DecodeMany, AllTyped, Ascending;
    match s
    case Big(w) => TwinOfBig(w, rest);
    case Map(k, e) => TwinOfMap(k, e, rest);
    case Vec(e) =>
      TwinDecodes(e, rest);
      TwinOfVec(e, rest);
    case Pair(a, b) =>
      if Canonical(a) { TwinDecodes(b, rest); } else { TwinDecodes(a, EncodedDefault(b) + rest); }
      TwinOfPair(a, b, rest);
    case Choice(_, a, _, b) =>
      TwinDecodes(if Canonical(a) then b else a, rest);
      TwinOfChoice(s, rest);
  }

  lemma TwinOfBig(w: nat, rest: Bytes)
    requires 0 < w < 256
    ensures IsTwin(Big(w), rest)
  {
    var bytes := [1, 0] + rest;
    assert bytes[1..][..1] == [0] && bytes[1..][1..] == rest;
    assert FromLe([0]) == 0 by { assert [0][1..] == []; }
    BigDecode(w, bytes);
    assert !Minimal([0]);
    assert DecodeBig(w, bytes) == Ok((Num(0), rest));
  }

  lemma TwinOfMap(k: Schema, e: Schema, rest: Bytes)
    requires WellFormed(Map(k, e))
    ensures IsTwin(Map(k, e), rest)
  {
    hide EncodeMany, DecodeMany, AllTyped, AllFit, AllShallow, FromEntries, TakeU32, Default, LeBytes;
    var s := Pair(k, e);
    var d := Default(s);
    EncodeTwo(s, d);
    CountedRoundTrip(s, [d, d], rest);
    SameEntryTwice(d);
    CountsDiffer(EncodeMany(s, [d]), EncodeMany(s, [d, d]));
  }

  lemma CountsDiffer(x: Bytes, y: Bytes)
    ensures LeBytes(1, 4) + x != LeBytes(2, 4) + y
  {
    WordLimits();
    LeRoundTrip(1, 4);
    LeRoundTrip(2, 4);
    assert (LeBytes(1, 4) + x)[..4] == LeBytes(1, 4);
    assert (LeBytes(2, 4) + y)[..4] == LeBytes(2, 4);
  }

  lemma SameEntryTwice(d: Value)
    ensures FromEntries([d, d]) == [d] && Ascending([d])
  {
    assert [d, d][1..] == [d] && [d][1..] == [];
    assert Insert([d], d) == [d] + [] == [d];
    assert InsertAll([], [d, d]) == InsertAll([d], [d]) == InsertAll([d], []);
  }

  lemma EncodeTwo(s: Schema, d: Value)
    requires WellFormed(s) && Good(s, d)
    ensures AllGood(s, [d, d]) && AllGood(s, [d])
    ensures EncodeMany(s, [d, d]) == Encode(s, d) + Encode(s, d)
    ensures EncodeMany(s, [d]) == Encode(s, d)
  {
    hide Encode, HasType, Fits, Shallow;
    assert [d, d][1..] == [d] && [d][1..] == [];
    assert EncodeMany(s, [d]) == Encode(s, d) + [] == Encode(s, d);
    assert EncodeMany(s, [d, d]) == Encode(s, d) + EncodeMany(s, [d]);
  }

  lemma TwinOfVec(e: Schema, rest: Bytes)
    requires WellFormed(e) && !Canonical(e)
    requires IsTwin(e, rest)
    ensures IsTwin(Vec(e), rest)
  {
    hide Decode, Encode, HasType, LeBytes;
    var one := LeBytes(1, 4);
    VecStep(e, Twin(e) + rest);
    ConcatAssociative(one, Twin(e), rest, []);
    if one + Encode(e, TwinValue(e)) == one + Twin(e) {
      ConcatInjective(one, Encode(e, TwinValue(e)), one, Twin(e));
    }
  }

  lemma VecStep(e: Schema, bytes: Bytes)
    requires WellFormed(e) && Decode(e, bytes).Ok? && HasType(e, Decode(e, bytes).value.0)
    ensures var (v, rest) := Decode(e, bytes).value;
            && Decode(Vec(e), LeBytes(1, 4) + bytes) == Ok((Items([v]), rest))
            && HasType(Vec(e), Items([v]))
            && Encode(Vec(e), Items([v])) == LeBytes(1, 4) + Encode(e, v)
  {
    hide DecodeMany, EncodeMany, LeBytes;
    TakeU32RoundTrip(1, bytes);
    hide TakeU32;
    OneItem(e, bytes);
  }

  lemma OneItem(e: Schema, bytes: Bytes)
    requires WellFormed(e) && Decode(e, bytes).Ok? && HasType(e, Decode(e, bytes).value.0)
    ensures var (v, rest) := Decode(e, bytes).value;
            && DecodeMany(e, 1, bytes) == Ok(([v], rest))
            && EncodeMany(e, [v]) == Encode(e, v)
  {
    hide Decode, Encode, HasType;
    var v := Decode(e, bytes).value.0;
    assert [v] + [] == [v] && [v][1..] == [];
    assert EncodeMany(e, [v]) == Encode(e, v) + [] == Encode(e, v);
  }

  lemma PairStep(a: Schema, b: Schema, x: Value, y: Value, xs: Bytes, ys: Bytes, rest: Bytes)
    requires WellFormed(Pair(a, b)) && HasType(a, x) && HasType(b, y)
    requires Decode(a, xs + (ys + rest)) == Ok((x, ys + rest))
    requires Decode(b, ys + rest) == Ok((y, rest))
    ensures Decode(Pair(a, b), (xs + ys) + rest) == Ok((Both(x, y), rest))
    ensures HasType(Pair(a, b), Both(x, y))
    ensures Encode(Pair(a, b), Both(x, y)) == Encode(a, x) + Encode(b, y)
  {
    ConcatAssociative(xs, ys, rest, []);
  }

  lemma TwinOfPair(a: Schema, b: Schema, rest: Bytes)
    requires WellFormed(Pair(a, b)) && !Canonical(Pair(a, b))
    requires if Canonical(a) then IsTwin(b, rest) else IsTwin(a, EncodedDefault(b) + rest)
    ensures IsTwin(Pair(a, b), rest)
  {
    hide Decode, Encode, HasType, Default;
    var da, db := EncodedDefault(a), EncodedDefault(b);
    if Canonical(a) {
      var other := Encode(b, TwinValue(b));
      DefaultRoundTrip(a, Twin(b) + rest);
      PairStep(a, b, Default(a), TwinValue(b), da, Twin(b), rest);
      if da + other == da + Twin(b) {
        ConcatInjective(da, other, da, Twin(b));
      }
    } else {
      var other := Encode(a, TwinValue(a));
      DefaultRoundTrip(b, rest);
      PairStep(a, b, TwinValue(a), Default(b), Twin(a), db, rest);
      if other + db == Twin(a) + db {
        assert |other + db| == |Twin(a) + db|;
        ConcatInjective(other, db, Twin(a), db);
      }
    }
  }

  lemma TwinOfChoice(s: Schema, rest: Bytes)
    requires s.Choice? && WellFormed(s) && !Canonical(s)
    requires IsTwin(if Canonical(s.case0) then s.case1 else s.case0, rest)
    ensures IsTwin(s, rest)
  {
    var second := Canonical(s.case0);
    var c := if second then s.case1 else s.case0;
    var tag := if second then s.tag1 else s.tag0;
    ConcatAssociative([tag], Twin(c), rest, []);
    hide Decode, Encode;
    DecodeChoice(s, second, Twin(c) + rest);
    GoodChoice(s, second, TwinValue(c));
    if [tag] + Encode(c, TwinValue(c)) == [tag] + Twin(c) {
      ConcatInjective([tag], Encode(c, TwinValue(c)), [tag], Twin(c));
    }
  }

  /** The input is refused, or its value re-encodes to the bytes used. */
  predicate ReprintsIfAccepted(s: Schema, bytes: Bytes)
    requires WellFormed(s)
  {
    Decode(s, bytes).Ok? ==>
      var (v, rest) := Decode(s, bytes).value;
      HasType(s, v) && Reprints(s, bytes, v, rest)
  }

  lemma TwinDoesNotReprint(s: Schema)
    requires WellFormed(s) && !Canonical(s)
    ensures !ReprintsIfAccepted(s, Twin(s))
  {
    hide Decode, Encode, Twin, HasType;
    TwinDecodes(s, []);
    assert Twin(s) + [] == Twin(s);
    assert Encode(s, TwinValue(s)) + [] == Encode(s, TwinValue(s));
  }

  /** Every accepted input re-encodes to the bytes used exactly for the canonical schemas. */
  lemma CanonicalExactly(s: Schema)
    requires WellFormed(s)
    ensures Canonical(s) <==> forall bytes: Bytes :: ReprintsIfAccepted(s, bytes)
  {
    if Canonical(s) {
      forall bytes: Bytes ensures ReprintsIfAccepted(s, bytes) {
        hide Decode, Encode, HasType;
        if Decode(s, bytes).Ok? {
          DecodeEncode(s, bytes);
        }
      }
    } else {
      TwinDoesNotReprint(s);
    }
  }
}
