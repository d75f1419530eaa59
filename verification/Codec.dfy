/** The byte format of every schema: encoding, decoding, length, and the laws that connect them. */
module Codec {
  import opened Basics
  import opened Wire
  import opened Values
  import ClTypes

  const LIMIT: nat := ClTypes.CL_TYPE_RECURSION_DEPTH

  // ----- Encoding --------------------------------------------------------------------------------

  /** Two's complement: a signed number as the unsigned number with the same bytes. */
  function Unsigned(n: int, width: nat): nat
    requires 0 <= 2 * n + Pow256(width) < 2 * Pow256(width)
  {
    if n < 0 then n + Pow256(width) else n
  }

  function Signed(n: nat, width: nat): int {
    if 2 * n >= Pow256(width) then n - Pow256(width) else n
  }

  function Encode(s: Schema, v: Value): Bytes
    requires WellFormed(s) && HasType(s, v)
    decreases Rank(s), 0
  {
    match s
    case Unit => []
    case UInt(w) => LeBytes(v.n, w)
    case SInt(w) => LeBytes(Unsigned(v.n, w), w)
    case Big(w) => var digits := Trim(LeBytes(v.n, w)); [|digits|] + digits
    case Text => LeBytes(|v.bytes|, 4) + v.bytes
    case Blob => LeBytes(|v.bytes|, 4) + v.bytes
    case Array(_) => v.bytes
    case Vec(e) => LeBytes(|v.items|, 4) + EncodeMany(e, v.items)
    case Pair(a, b) => Encode(a, v.fst) + Encode(b, v.snd)
    case Choice(t0, a, t1, b) => if v.second then [t1] + Encode(b, v.payload) else [t0] + Encode(a, v.payload)
    case Map(k, e) => LeBytes(|v.items|, 4) + EncodeMany(Pair(k, e), v.items)
    case Type => ClTypes.Print(v.clType)
  }

  function EncodeMany(s: Schema, vs: seq<Value>): Bytes
    requires WellFormed(s) && AllTyped(s, vs)
    decreases Rank(s), 1 + |vs|
  {
    if vs == [] then [] else Encode(s, vs[0]) + EncodeMany(s, vs[1..])
  }

  /** Every length prefix inside `v` fits in 32 bits. */
  predicate Fits(s: Schema, v: Value)
    decreases Rank(s), 0
  {
    match (s, v)
    case (Text, Raw(bs)) => |bs| < U32_LIMIT
    case (Blob, Raw(bs)) => |bs| < U32_LIMIT
    case (Vec(e), Items(vs)) => |vs| < U32_LIMIT && AllFit(e, vs)
    case (Map(k, e), Items(vs)) => |vs| < U32_LIMIT && AllFit(Pair(k, e), vs)
    case (Pair(a, b), Both(x, y)) => Fits(a, x) && Fits(b, y)
    case (Choice(_, a, _, b), Alt(f, x)) => Fits(if f then b else a, x)
    case _ => true
  }

  predicate AllFit(s: Schema, vs: seq<Value>)
    decreases Rank(s), 1
  {
    forall i | 0 <= i < |vs| :: Fits(s, vs[i])
  }

  /** Every `CLType` inside `v` is at most as high as the parser's depth limit. */
  predicate Shallow(s: Schema, v: Value)
    decreases Rank(s), 0
  {
    match (s, v)
    case (Type, TypeOf(t)) => ClTypes.Height(t) <= LIMIT
    case (Vec(e), Items(vs)) => AllShallow(e, vs)
    case (Map(k, e), Items(vs)) => AllShallow(Pair(k, e), vs)
    case (Pair(a, b), Both(x, y)) => Shallow(a, x) && Shallow(b, y)
    case (Choice(_, a, _, b), Alt(f, x)) => Shallow(if f then b else a, x)
    case _ => true
  }

  predicate AllShallow(s: Schema, vs: seq<Value>)
    decreases Rank(s), 1
  {
    forall i | 0 <= i < |vs| :: Shallow(s, vs[i])
  }

  lemma FitByFirst(s: Schema, vs: seq<Value>)
    ensures AllFit(s, vs) <==> vs == [] || (Fits(s, vs[0]) && AllFit(s, vs[1..]))
  {
    hide Fits;
    assert forall i | 0 < i < |vs| :: vs[i] == vs[1..][i - 1];
  }

  lemma ShallowByFirst(s: Schema, vs: seq<Value>)
    ensures AllShallow(s, vs) <==> vs == [] || (Shallow(s, vs[0]) && AllShallow(s, vs[1..]))
  {
    hide Shallow;
    assert forall i | 0 < i < |vs| :: vs[i] == vs[1..][i - 1];
  }

  /** `to_bytes`: the only failure is a collection or string too long for its length prefix. */
  function ToBytes(s: Schema, v: Value): Result<Bytes, Error>
    requires WellFormed(s) && HasType(s, v)
  {
    if Fits(s, v) then Ok(Encode(s, v)) else Err(NotRepresentable)
  }

  // ----- Decoding --------------------------------------------------------------------------------

  function DecodeBig(w: nat, bytes: Bytes): Decoded<Value> {
    var (size, rest) :- TakeByte(bytes);
    if size > w then Err(Formatting) else
    var (digits, rest) :- SafeSplitAt(rest, size);
    Ok((Num(FromLe(digits)), rest))
  }

  function DecodeSized(bytes: Bytes): Decoded<Bytes> {
    var (size, rest) :- TakeU32(bytes);
    SafeSplitAt(rest, size)
  }

  function Decode(s: Schema, bytes: Bytes): Decoded<Value>
    decreases Rank(s), 0
  {
    match s
    case Unit => Ok((Nil, bytes))
    case UInt(w) =>
      var (digits, rest) :- SafeSplitAt(bytes, w);
      Ok((Num(FromLe(digits)), rest))
    case SInt(w) =>
      var (digits, rest) :- SafeSplitAt(bytes, w);
      Ok((Num(Signed(FromLe(digits), w)), rest))
    case Big(w) => DecodeBig(w, bytes)
    case Text =>
      var (text, rest) :- DecodeSized(bytes);
      if ValidUtf8(text) then Ok((Raw(text), rest)) else Err(Formatting)
    case Blob =>
      var (blob, rest) :- DecodeSized(bytes);
      Ok((Raw(blob), rest))
    case Array(len) =>
      var (bs, rest) :- SafeSplitAt(bytes, len);
      Ok((Raw(bs), rest))
    case Vec(e) =>
      var (count, rest) :- TakeU32(bytes);
      var (vs, rest) :- DecodeMany(e, count, rest);
      Ok((Items(vs), rest))
    case Pair(a, b) =>
      var (x, rest) :- Decode(a, bytes);
      var (y, rest) :- Decode(b, rest);
      Ok((Both(x, y), rest))
    case Choice(t0, a, t1, b) =>
      var (tag, rest) :- TakeByte(bytes);
      if tag == t0 then
        var (x, rest) :- Decode(a, rest);
        Ok((Alt(false, x), rest))
      else if tag == t1 then
        var (x, rest) :- Decode(b, rest);
        Ok((Alt(true, x), rest))
      else Err(Formatting)
    case Map(k, e) =>
      var (count, rest) :- TakeU32(bytes);
      var (es, rest) :- DecodeMany(Pair(k, e), count, rest);
      Ok((Items(FromEntries(es)), rest))
    case Type =>
      var (t, rest) :- ClTypes.Parse(0, bytes);
      Ok((TypeOf(t), rest))
  }

  function DecodeMany(s: Schema, count: nat, bytes: Bytes): (r: Decoded<seq<Value>>)
    ensures r.Ok? ==> |r.value.0| == count
    decreases Rank(s), 1 + count
  {
    if count == 0 then Ok(([], bytes)) else
    var (v, rest) :- Decode(s, bytes);
    var (vs, rest) :- DecodeMany(s, count - 1, rest);
    Ok(([v] + vs, rest))
  }

  /** `deserialize`: the whole input must be used. */
  function Deserialize(s: Schema, bytes: Bytes): Result<Value, Error> {
    var (v, rest) :- Decode(s, bytes);
    if rest == [] then Ok(v) else Err(LeftOverBytes)
  }

  // ----- Decoding what was encoded ---------------------------------------------------------------

  /** What decoding must give for a value with this encoding in front of `rest`. */
  function Expected<T>(shallow: bool, v: T, rest: Bytes): Decoded<T> {
    if shallow then Ok((v, rest)) else Err(ExceededRecursionDepth)
  }

  lemma SplitConcat(a: Bytes, b: Bytes)
    ensures SafeSplitAt(a + b, |a|) == Ok((a, b))
  {
  }

  lemma IntRoundTrip(s: Schema, v: Value, rest: Bytes)
    requires (s.UInt? || s.SInt?) && WellFormed(s) && HasType(s, v)
    ensures Decode(s, Encode(s, v) + rest) == Ok((v, rest))
  {
    var w := s.width;
    var n := if s.UInt? then v.n else Unsigned(v.n, w);
    LeRoundTrip(n, w);
    SplitConcat(LeBytes(n, w), rest);
  }

  lemma BigRoundTrip(w: nat, v: Value, rest: Bytes)
    requires w < 256 && HasType(Big(w), v)
    ensures DecodeBig(w, Encode(Big(w), v) + rest) == Ok((v, rest))
  {
    var digits := Trim(LeBytes(v.n, w));
    TrimKeepsNumber(LeBytes(v.n, w));
    LeRoundTrip(v.n, w);
    SplitConcat(digits, rest);
    assert (([|digits|] + digits) + rest)[1..] == digits + rest;
  }

  lemma SizedRoundTrip(bs: Bytes, rest: Bytes)
    requires |bs| < U32_LIMIT
    ensures DecodeSized((LeBytes(|bs|, 4) + bs) + rest) == Ok((bs, rest))
  {
    hide LeBytes, TakeU32, SafeSplitAt;
    ConcatAssociative(LeBytes(|bs|, 4), bs, rest, []);
    TakeU32RoundTrip(|bs|, bs + rest);
    SplitConcat(bs, rest);
  }

  /**
   Any value, followed by anything: it comes back with the rest untouched exactly when the CLTypes
   inside it are within the depth limit, and otherwise decoding stops at that limit.
   */
  lemma {:induction false} EncodeDecode(s: Schema, v: Value, rest: Bytes)
    requires WellFormed(s) && HasType(s, v) && Fits(s, v)
    ensures Decode(s, Encode(s, v) + rest) == Expected(Shallow(s, v), v, rest)
    decreases Rank(s), 0
  {
    hide EncodeMany, DecodeMany, AllShallow, AllFit, AllTyped, DecodeBig, DecodeSized, Ascending, FromEntries;
    hide ValidUtf8, FromLe, LeBytes, ClTypes.Print, ClTypes.Parse;
    match s
    case Unit => assert [] + rest == rest;
    case UInt(_) => IntRoundTrip(s, v, rest);
    case SInt(_) => IntRoundTrip(s, v, rest);
    case Big(w) => BigRoundTrip(w, v, rest);
    case Text => SizedRoundTrip(v.bytes, rest);
    case Blob => SizedRoundTrip(v.bytes, rest);
    case Array(_) => SplitConcat(v.bytes, rest);
    case Type => ClTypes.PrintParse(0, v.clType, rest);
    case Pair(a, b) => PairRoundTrip(s, v, rest);
    case Choice(_, a, _, b) => ChoiceRoundTrip(s, v, rest);
    case Vec(e) => CountedRoundTrip(e, v.items, rest);
    case Map(k, e) =>
      CountedRoundTrip(Pair(k, e), v.items, rest);
      FromEntriesAscending(v.items);
  }

  lemma {:induction false} PairRoundTrip(s: Schema, v: Value, rest: Bytes)
    requires s.Pair? && WellFormed(s) && HasType(s, v) && Fits(s, v)
    ensures Decode(s, Encode(s, v) + rest) == Expected(Shallow(s, v), v, rest)
    decreases Rank(s), 0, 0
  {
    var x, y := Encode(s.first, v.fst), Encode(s.second, v.snd);
    assert Encode(s, v) + rest == x + (y + rest);
    EncodeDecode(s.first, v.fst, y + rest);
    EncodeDecode(s.second, v.snd, rest);
  }

  lemma {:induction false} ChoiceRoundTrip(s: Schema, v: Value, rest: Bytes)
    requires s.Choice? && WellFormed(s) && HasType(s, v) && Fits(s, v)
    ensures Decode(s, Encode(s, v) + rest) == Expected(Shallow(s, v), v, rest)
    decreases Rank(s), 0, 0
  {
    var c := if v.second then s.case1 else s.case0;
    var tag := if v.second then s.tag1 else s.tag0;
    var body := Encode(c, v.payload);
    assert Encode(s, v) + rest == [tag] + (body + rest);
    EncodeDecode(c, v.payload, rest);
    DecodeChoice(s, v.second, body + rest);
    assert Shallow(s, v) == Shallow(c, v.payload);
  }

  lemma DecodeChoice(s: Schema, second: bool, body: Bytes)
    requires s.Choice? && s.tag0 != s.tag1
    ensures Decode(s, [if second then s.tag1 else s.tag0] + body)
         == match Decode(if second then s.case1 else s.case0, body) {
              case Ok(p) => Ok((Alt(second, p.0), p.1))
              case Err(e) => Err(e)
            }
  {
  }

  lemma {:induction false} CountedRoundTrip(s: Schema, vs: seq<Value>, rest: Bytes)
    requires WellFormed(s) && AllTyped(s, vs) && AllFit(s, vs) && |vs| < U32_LIMIT
    ensures var bytes := (LeBytes(|vs|, 4) + EncodeMany(s, vs)) + rest;
            && TakeU32(bytes) == Ok((|vs|, EncodeMany(s, vs) + rest))
            && DecodeMany(s, |vs|, EncodeMany(s, vs) + rest) == Expected(AllShallow(s, vs), vs, rest)
    decreases Rank(s), 2
  {
    assert (LeBytes(|vs|, 4) + EncodeMany(s, vs)) + rest == LeBytes(|vs|, 4) + (EncodeMany(s, vs) + rest);
    TakeU32RoundTrip(|vs|, EncodeMany(s, vs) + rest);
    ManyRoundTrip(s, vs, rest);
  }

  lemma {:induction false} ManyRoundTrip(s: Schema, vs: seq<Value>, rest: Bytes)
    requires WellFormed(s) && AllTyped(s, vs) && AllFit(s, vs)
    ensures DecodeMany(s, |vs|, EncodeMany(s, vs) + rest) == Expected(AllShallow(s, vs), vs, rest)
    decreases Rank(s), 1, |vs|
  {
    hide Encode, Decode, Shallow, Fits, HasType, AllTyped, AllFit, AllShallow;
    TypedByFirst(s, vs);
    FitByFirst(s, vs);
    ShallowByFirst(s, vs);
    if vs == [] {
      assert EncodeMany(s, vs) + rest == rest;
    } else {
      var after := EncodeMany(s, vs[1..]) + rest;
      ConcatAssociative(Encode(s, vs[0]), EncodeMany(s, vs[1..]), rest, []);
      EncodeDecode(s, vs[0], after);
      ManyRoundTrip(s, vs[1..], rest);
      assert vs == [vs[0]] + vs[1..];
    }
  }
}
