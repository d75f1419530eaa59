/** What decoding guarantees, which inputs re-encode to themselves, and consequences of the round trip. */
module CodecLaws {
  import opened Basics
  import opened Wire
  import opened Values
  import opened Codec
  import ClTypes

  // ----- Decoded values --------------------------------------------------------------------------

  /** Schemas with one byte string per value: no big integers and no maps or sets inside. */
  predicate Canonical(s: Schema) {
    match s
    case Big(w) => w == 0
    case Map(_, _) => false
    case Vec(e) => Canonical(e)
    case Pair(a, b) => Canonical(a) && Canonical(b)
    case Choice(_, a, _, b) => Canonical(a) && Canonical(b)
    case _ => true
  }

  /** A value that `to_bytes` accepts. */
  predicate Encodable(s: Schema, v: Value) {
    HasType(s, v) && Fits(s, v)
  }

  /** A decoded value is well typed and encodable, within every limit of the format. */
  predicate Good(s: Schema, v: Value) {
    HasType(s, v) && Fits(s, v) && Shallow(s, v)
  }

  predicate AllGood(s: Schema, vs: seq<Value>) {
    AllTyped(s, vs) && AllFit(s, vs) && AllShallow(s, vs)
  }

  /** `v` re-encodes to exactly the bytes that were used. */
  predicate Reprints(s: Schema, bytes: Bytes, v: Value, rest: Bytes)
    requires WellFormed(s) && HasType(s, v)
  {
    bytes == Encode(s, v) + rest
  }

  lemma GoodIsTyped(s: Schema, v: Value)
    requires Good(s, v)
    ensures HasType(s, v)
  {
  }

  lemma LeafDecode(s: Schema, bytes: Bytes)
    requires s.Unit? || s.UInt? || s.SInt? || s.Array? || s.Text? || s.Blob? || s.Type?
    requires WellFormed(s) && Decode(s, bytes).Ok?
    ensures var (v, rest) := Decode(s, bytes).value;
            Good(s, v) && Reprints(s, bytes, v, rest)
  {
    match s
    case Unit => assert bytes == [] + bytes;
    case UInt(w) => IntDecode(s, bytes);
    case SInt(w) => IntDecode(s, bytes);
    case Array(n) => assert bytes == bytes[..n] + bytes[n..];
    case Text => SizedDecode(bytes);
    case Blob => SizedDecode(bytes);
    case Type => ClTypes.ParsePrint(0, bytes);
  }

  lemma IntDecode(s: Schema, bytes: Bytes)
    requires (s.UInt? || s.SInt?) && WellFormed(s) && Decode(s, bytes).Ok?
    ensures var (v, rest) := Decode(s, bytes).value;
            HasType(s, v) && Reprints(s, bytes, v, rest)
  {
    var w := s.width;
    var digits := bytes[..w];
    FromLeBound(digits);
    LeOfFromLe(digits);
    assert bytes == digits + bytes[w..];
    if s.SInt? {
      assert Unsigned(Signed(FromLe(digits), w), w) == FromLe(digits);
    }
  }

  lemma SizedDecode(bytes: Bytes)
    requires DecodeSized(bytes).Ok?
    ensures var (bs, rest) := DecodeSized(bytes).value;
            |bs| < U32_LIMIT && bytes == (LeBytes(|bs|, 4) + bs) + rest
  {
    TakeU32Reprint(bytes);
    var (size, after) := TakeU32(bytes).value;
    assert after == after[..size] + after[size..];
  }

  /** A big integer re-encodes to the bytes used exactly when those had no leading zero byte. */
  lemma BigDecode(w: nat, bytes: Bytes)
    requires w < 256 && DecodeBig(w, bytes).Ok?
    ensures var (v, rest) := DecodeBig(w, bytes).value;
            && Good(Big(w), v)
            && (Reprints(Big(w), bytes, v, rest) <==> Minimal(bytes[1..][..bytes[0]]))
  {
    var size := bytes[0];
    var digits, rest := bytes[1..][..size], bytes[1..][size..];
    FromLeBound(digits);
    Pow256Monotone(size, w);
    MinimalIsTrim(digits, w);
    var trimmed := Trim(LeBytes(FromLe(digits), w));
    assert bytes == ([size] + digits) + rest;
    if bytes == ([|trimmed|] + trimmed) + rest {
      assert |trimmed| == size;
      ConcatInjective([size] + digits, rest, [|trimmed|] + trimmed, rest);
      ConcatInjective([size], digits, [|trimmed|], trimmed);
    }
  }

  lemma {:induction false} Pow256Monotone(a: nat, b: nat)
    requires a <= b
    ensures Pow256(a) <= Pow256(b)
  {
    if a < b {
      Pow256Monotone(a, b - 1);
    }
  }

  /** Whatever is accepted is good, and for canonical schemas it is the encoding of its value. */
  lemma {:induction false} DecodeEncode(s: Schema, bytes: Bytes)
    requires WellFormed(s) && Decode(s, bytes).Ok?
    ensures var (v, rest) := Decode(s, bytes).value;
            Good(s, v) && (Canonical(s) ==> Reprints(s, bytes, v, rest))
    decreases Rank(s), 3
  {
    hide Encode, EncodeMany, DecodeMany, AllTyped, AllFit, AllShallow, Ascending, FromEntries, Reprints;
    match s
    case Big(w) => BigCanonical(w, bytes);
    case Pair(_, _) => PairDecode(s, bytes);
    case Choice(_, _, _, _) => ChoiceDecode(s, bytes);
    case Vec(e) => VecDecode(e, bytes);
    case Map(k, e) => MapDecode(k, e, bytes);
    case _ => LeafDecode(s, bytes);
  }

  lemma BigCanonical(w: nat, bytes: Bytes)
    requires w < 256 && DecodeBig(w, bytes).Ok?
    ensures var (v, rest) := DecodeBig(w, bytes).value;
            Good(Big(w), v) && (w == 0 ==> Reprints(Big(w), bytes, v, rest))
  {
    BigDecode(w, bytes);
  }

  lemma {:induction false} PairDecode(s: Schema, bytes: Bytes)
    requires s.Pair? && WellFormed(s) && Decode(s, bytes).Ok?
    ensures var (v, rest) := Decode(s, bytes).value;
            Good(s, v) && (Canonical(s) ==> Reprints(s, bytes, v, rest))
    decreases Rank(s), 2
  {
    hide Decode, Encode, HasType, Fits, Shallow;
    PairShape(s, bytes);
    DecodeEncode(s.first, bytes);
    var (x, after) := Decode(s.first, bytes).value;
    DecodeEncode(s.second, after);
    var (y, rest) := Decode(s.second, after).value;
    PairTyped(s.first, s.second, x, y);
    EncodePair(s.first, s.second, x, y);
    ConcatAssociative(Encode(s.first, x), Encode(s.second, y), rest, []);
  }

  lemma PairShape(s: Schema, bytes: Bytes)
    requires s.Pair? && Decode(s, bytes).Ok?
    ensures Decode(s.first, bytes).Ok?
    ensures var (x, after) := Decode(s.first, bytes).value;
            && Decode(s.second, after).Ok?
            && var (y, rest) := Decode(s.second, after).value;
               Decode(s, bytes).value == (Both(x, y), rest)
  {
  }

  lemma PairTyped(a: Schema, b: Schema, x: Value, y: Value)
    ensures HasType(Pair(a, b), Both(x, y)) <==> HasType(a, x) && HasType(b, y)
    ensures Fits(Pair(a, b), Both(x, y)) <==> Fits(a, x) && Fits(b, y)
    ensures Shallow(Pair(a, b), Both(x, y)) <==> Shallow(a, x) && Shallow(b, y)
  {
    hide AllTyped, AllFit, AllShallow, Ascending, ValidUtf8, Pow256, ClTypes.Height;
  }

  lemma EncodePair(a: Schema, b: Schema, x: Value, y: Value)
    requires WellFormed(a) && WellFormed(b) && HasType(a, x) && HasType(b, y)
    ensures Encode(Pair(a, b), Both(x, y)) == Encode(a, x) + Encode(b, y)
  {
  }

  lemma {:induction false} ChoiceDecode(s: Schema, bytes: Bytes)
    requires s.Choice? && WellFormed(s) && Decode(s, bytes).Ok?
    ensures var (v, rest) := Decode(s, bytes).value;
            Good(s, v) && (Canonical(s) ==> Reprints(s, bytes, v, rest))
    decreases Rank(s), 2
  {
    hide Good, Decode, Encode, HasType;
    ChoiceShape(s, bytes);
    var second := bytes[0] != s.tag0;
    var c := if second then s.case1 else s.case0;
    DecodeEncode(c, bytes[1..]);
    var (x, rest) := Decode(c, bytes[1..]).value;
    GoodIsTyped(c, x);
    GoodChoice(s, second, x);
    GoodIsTyped(s, Alt(second, x));
    if Canonical(s) {
      assert bytes == ([bytes[0]] + Encode(c, x)) + rest;
    }
  }

  lemma ChoiceShape(s: Schema, bytes: Bytes)
    requires s.Choice? && Decode(s, bytes).Ok?
    ensures bytes != [] && (bytes[0] == s.tag0 || bytes[0] == s.tag1)
    ensures var second := bytes[0] != s.tag0;
            var inner := Decode(if second then s.case1 else s.case0, bytes[1..]);
            inner.Ok? && Decode(s, bytes).value == (Alt(second, inner.value.0), inner.value.1)
  {
  }

  lemma GoodChoice(s: Schema, second: bool, x: Value)
    requires s.Choice? && WellFormed(s)
    ensures var c := if second then s.case1 else s.case0;
            && (Good(s, Alt(second, x)) <==> Good(c, x))
            && (HasType(c, x) ==>
                  Encode(s, Alt(second, x)) == [if second then s.tag1 else s.tag0] + Encode(c, x))
  {
  }

  /** The entries or elements behind a count. */
  lemma {:induction false} CountedDecode(s: Schema, bytes: Bytes)
    requires WellFormed(s) && TakeU32(bytes).Ok?
    requires DecodeMany(s, TakeU32(bytes).value.0, TakeU32(bytes).value.1).Ok?
    ensures var (vs, rest) := DecodeMany(s, TakeU32(bytes).value.0, TakeU32(bytes).value.1).value;
            && |vs| == TakeU32(bytes).value.0 < U32_LIMIT && AllGood(s, vs)
            && (Canonical(s) ==> bytes == (LeBytes(|vs|, 4) + EncodeMany(s, vs)) + rest)
    decreases Rank(s), 5
  {
    hide EncodeMany, DecodeMany, AllTyped, AllFit, AllShallow;
    TakeU32Reprint(bytes);
    var (count, after) := TakeU32(bytes).value;
    ManyDecode(s, count, after);
    var (vs, rest) := DecodeMany(s, count, after).value;
    if Canonical(s) {
      ConcatAssociative(LeBytes(count, 4), EncodeMany(s, vs), rest, []);
    }
  }

  lemma {:induction false} ManyDecode(s: Schema, count: nat, bytes: Bytes)
    requires WellFormed(s) && DecodeMany(s, count, bytes).Ok?
    ensures var (vs, rest) := DecodeMany(s, count, bytes).value;
            AllGood(s, vs) && (Canonical(s) ==> bytes == EncodeMany(s, vs) + rest)
    decreases Rank(s), 4, count
  {
    hide Encode, Decode, HasType, Fits, Shallow, AllTyped, AllFit, AllShallow, AllGood, Good, EncodeMany;
    if count > 0 {
      DecodeEncode(s, bytes);
      var (v, after) := Decode(s, bytes).value;
      ManyDecode(s, count - 1, after);
      var (vs, rest) := DecodeMany(s, count - 1, after).value;
      AllGoodCons(s, v, vs);
      if Canonical(s) {
        ConcatAssociative(Encode(s, v), EncodeMany(s, vs), rest, []);
      }
    } else {
      AllGoodNone(s, bytes);
    }
  }

  lemma AllGoodNone(s: Schema, bytes: Bytes)
    requires WellFormed(s)
    ensures AllGood(s, []) && AllTyped(s, []) && bytes == EncodeMany(s, []) + bytes
  {
  }

  lemma AllGoodCons(s: Schema, v: Value, vs: seq<Value>)
    requires WellFormed(s) && Good(s, v) && AllGood(s, vs)
    ensures AllGood(s, [v] + vs) && AllTyped(s, [v] + vs) && AllTyped(s, vs) && HasType(s, v)
    ensures EncodeMany(s, [v] + vs) == Encode(s, v) + EncodeMany(s, vs)
  {
    hide Encode, HasType, Fits, Shallow;
    assert ([v] + vs)[1..] == vs;
  }

  lemma {:induction false} VecDecode(e: Schema, bytes: Bytes)
    requires WellFormed(e) && Decode(Vec(e), bytes).Ok?
    ensures var (v, rest) := Decode(Vec(e), bytes).value;
            Good(Vec(e), v) && (Canonical(e) ==> Reprints(Vec(e), bytes, v, rest))
    decreases Rank(e), 6
  {
    hide EncodeMany, DecodeMany, AllTyped, AllFit, AllShallow;
    CountedDecode(e, bytes);
  }

  /** The raw entries a map stream lists, in stream order. */
  function RawEntries(k: Schema, e: Schema, bytes: Bytes): seq<Value>
    requires Decode(Map(k, e), bytes).Ok?
  {
    var (count, rest) := TakeU32(bytes).value;
    DecodeMany(Pair(k, e), count, rest).value.0
  }

  lemma {:induction false} MapDecode(k: Schema, e: Schema, bytes: Bytes)
    requires WellFormed(Map(k, e)) && Decode(Map(k, e), bytes).Ok?
    ensures Good(Map(k, e), Decode(Map(k, e), bytes).value.0)
    decreases Rank(Pair(k, e)), 6
  {
    hide EncodeMany, DecodeMany, AllFit, AllShallow, AllTyped, Ascending;
    CountedDecode(Pair(k, e), bytes);
    var raw := RawEntries(k, e, bytes);
    InsertAllTyped(k, e, [], raw) by { EmptyIsTyped(Pair(k, e)); }
    InsertAllGood(Pair(k, e), [], raw) by { EmptyIsTyped(Pair(k, e)); }
  }

  lemma EmptyIsTyped(s: Schema)
    ensures AllTyped(s, []) && AllFit(s, []) && AllShallow(s, []) && Ascending([])
  {
  }

  lemma {:induction false} InsertGood(s: Schema, m: seq<Value>, x: Value)
    requires AllFit(s, m) && AllShallow(s, m) && Fits(s, x) && Shallow(s, x)
    ensures AllFit(s, Insert(m, x)) && AllShallow(s, Insert(m, x))
  {
    hide Fits, Shallow, Lt, Key, AllFit, AllShallow;
    var r := Insert(m, x);
    InsertTail(m, x);
    FitByFirst(s, m);
    FitByFirst(s, r);
    ShallowByFirst(s, m);
    ShallowByFirst(s, r);
    if m != [] {
      InsertGood(s, m[1..], x);
    }
  }

  lemma {:induction false} InsertAllGood(s: Schema, m: seq<Value>, es: seq<Value>)
    requires AllFit(s, m) && AllShallow(s, m) && AllFit(s, es) && AllShallow(s, es)
    ensures AllFit(s, InsertAll(m, es)) && AllShallow(s, InsertAll(m, es))
    decreases |es|
  {
    hide Fits, Shallow, Insert;
    if es != [] {
      InsertGood(s, m, es[0]);
      InsertAllGood(s, Insert(m, es[0]), es[1..]);
    }
  }
}
