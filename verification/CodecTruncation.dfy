/** Encodings cut short: every proper prefix is reported as a stream that ends too early. */
module CodecTruncation {
  import opened Basics
  import opened Wire
  import opened Values
  import opened Codec
  import opened CodecLaws
  import opened CodecTheorems
  import ClTypes

  lemma U32Truncated(bytes: Bytes)
    requires |bytes| < 4
    ensures TakeU32(bytes) == Err(EarlyEndOfStream)
  {
  }

  lemma SizedTruncated(bs: Bytes, n: nat)
    requires |bs| < U32_LIMIT && n < 4 + |bs|
    ensures DecodeSized((LeBytes(|bs|, 4) + bs)[..n]) == Err(EarlyEndOfStream)
  {
    hide LeBytes, TakeU32;
    var bytes := (LeBytes(|bs|, 4) + bs)[..n];
    if n < 4 {
      U32Truncated(bytes);
    } else {
      assert bytes == LeBytes(|bs|, 4) + bs[..n - 4];
      TakeU32RoundTrip(|bs|, bs[..n - 4]);
    }
  }

  lemma BigTruncated(w: nat, v: Value, n: nat)
    requires w < 256 && HasType(Big(w), v) && n < |Encode(Big(w), v)|
    ensures DecodeBig(w, Encode(Big(w), v)[..n]) == Err(EarlyEndOfStream)
  {
    hide LeBytes;
    var digits := Trim(LeBytes(v.n, w));
    if n > 0 {
      var bytes := ([|digits|] + digits)[..n];
      assert bytes[0] == |digits| && bytes[1..] == digits[..n - 1];
    }
  }

  lemma LeafTruncated(s: Schema, v: Value, n: nat)
    requires s.UInt? || s.SInt? || s.Array? || s.Text? || s.Blob? || s.Big?
    requires WellFormed(s) && Good(s, v) && n < |Encode(s, v)|
    ensures Decode(s, Encode(s, v)[..n]) == Err(EarlyEndOfStream)
  {
    hide LeBytes, ValidUtf8, FromLe, DecodeBig, DecodeSized;
    match s
    case Text => SizedTruncated(v.bytes, n);
    case Blob => SizedTruncated(v.bytes, n);
    case Big(w) => BigTruncated(w, v, n);
    case _ =>
  }

  /** Every proper prefix of an encoding ends too early. */
  lemma {:induction false} Truncated(s: Schema, v: Value, n: nat)
    requires WellFormed(s) && Good(s, v) && n < |Encode(s, v)|
    ensures Decode(s, Encode(s, v)[..n]) == Err(EarlyEndOfStream)
    decreases Rank(s), 0
  {
    hide EncodeMany, DecodeMany, AllTyped, AllFit, AllShallow, Ascending, LeBytes, ClTypes.Print, ClTypes.Parse;
    match s
    case Type => ClTypes.PrintTruncated(0, v.clType, n);
    case Pair(a, b) => PairTruncated(a, b, v.fst, v.snd, n);
    case Choice(_, _, _, _) => ChoiceTruncated(s, v.second, v.payload, n);
    case Vec(e) => CountedTruncated(e, v.items, n);
    case Map(k, e) => CountedTruncated(Pair(k, e), v.items, n);
    case Unit =>
    case _ => LeafTruncated(s, v, n);
  }

  lemma DecodePair(a: Schema, b: Schema, bytes: Bytes)
    ensures Decode(a, bytes).Err? ==> Decode(Pair(a, b), bytes) == Err(Decode(a, bytes).error)
    ensures Decode(a, bytes).Ok? && Decode(b, Decode(a, bytes).value.1).Err? ==>
              Decode(Pair(a, b), bytes) == Err(Decode(b, Decode(a, bytes).value.1).error)
  {
  }

  lemma {:induction false} PairTruncated(a: Schema, b: Schema, x: Value, y: Value, n: nat)
    requires WellFormed(Pair(a, b)) && Good(Pair(a, b), Both(x, y)) && n < |Encode(Pair(a, b), Both(x, y))|
    ensures Decode(Pair(a, b), Encode(Pair(a, b), Both(x, y))[..n]) == Err(EarlyEndOfStream)
    decreases Rank(Pair(a, b)), 0, 0
  {
    hide Encode, Decode, HasType, Fits, Shallow;
    PairTyped(a, b, x, y);
    EncodePair(a, b, x, y);
    var head, tail := Encode(a, x), Encode(b, y);
    DecodePair(a, b, (head + tail)[..n]);
    if n < |head| {
      assert (head + tail)[..n] == head[..n];
      Truncated(a, x, n);
    } else {
      assert (head + tail)[..n] == head + tail[..n - |head|];
      EncodeDecode(a, x, tail[..n - |head|]);
      Truncated(b, y, n - |head|);
    }
  }

  lemma {:induction false} ChoiceTruncated(s: Schema, second: bool, x: Value, n: nat)
    requires s.Choice? && WellFormed(s) && Good(s, Alt(second, x)) && n < |Encode(s, Alt(second, x))|
    ensures Decode(s, Encode(s, Alt(second, x))[..n]) == Err(EarlyEndOfStream)
    decreases Rank(s), 0, 0
  {
    hide Encode, HasType, Fits, Shallow;
    var c := if second then s.case1 else s.case0;
    GoodChoice(s, second, x);
    if n > 0 {
      hide Decode;
      var tag: Bytes := [if second then s.tag1 else s.tag0];
      assert (tag + Encode(c, x))[..n] == tag + Encode(c, x)[..n - 1];
      DecodeChoice(s, second, Encode(c, x)[..n - 1]);
      Truncated(c, x, n - 1);
    }
  }

  lemma {:induction false} CountedTruncated(s: Schema, vs: seq<Value>, n: nat)
    requires WellFormed(s) && AllGood(s, vs) && |vs| < U32_LIMIT
    requires n < 4 + |EncodeMany(s, vs)|
    ensures var bytes := (LeBytes(|vs|, 4) + EncodeMany(s, vs))[..n];
            || TakeU32(bytes) == Err(EarlyEndOfStream)
            || (&& TakeU32(bytes).Ok?
                && DecodeMany(s, TakeU32(bytes).value.0, TakeU32(bytes).value.1) == Err(EarlyEndOfStream))
    decreases Rank(s), 2
  {
    hide EncodeMany, DecodeMany, AllTyped, AllFit, AllShallow, LeBytes, TakeU32;
    var bytes := (LeBytes(|vs|, 4) + EncodeMany(s, vs))[..n];
    if n < 4 {
      U32Truncated(bytes);
    } else {
      assert bytes == LeBytes(|vs|, 4) + EncodeMany(s, vs)[..n - 4];
      TakeU32RoundTrip(|vs|, EncodeMany(s, vs)[..n - 4]);
      ManyTruncated(s, vs, n - 4);
    }
  }

  lemma {:induction false} ManyTruncated(s: Schema, vs: seq<Value>, n: nat)
    requires WellFormed(s) && AllGood(s, vs) && n < |EncodeMany(s, vs)|
    ensures DecodeMany(s, |vs|, EncodeMany(s, vs)[..n]) == Err(EarlyEndOfStream)
    decreases Rank(s), 1, |vs|
  {
    hide Encode, Decode, HasType, Fits, Shallow, AllTyped, AllFit, AllShallow;
    TypedByFirst(s, vs);
    FitByFirst(s, vs);
    ShallowByFirst(s, vs);
    var head, tail := Encode(s, vs[0]), EncodeMany(s, vs[1..]);
    if n < |head| {
      assert (head + tail)[..n] == head[..n];
      Truncated(s, vs[0], n);
    } else {
      assert (head + tail)[..n] == head + tail[..n - |head|];
      EncodeDecode(s, vs[0], tail[..n - |head|]);
      ManyTruncated(s, vs[1..], n - |head|);
    }
  }
}
