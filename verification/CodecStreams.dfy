/** The stream code of the codec: writing into a growing buffer, and the loops of the collection decoders. */
module CodecStreams {
  import opened Basics
  import opened Wire
  import opened Values
  import opened Codec
  import opened ClTypeStreams

  /** `write_bytes`: appends exactly what `to_bytes` returns, or stops with its error. */
  method WriteBytes(s: Schema, v: Value, writer: Buffer) returns (r: Result<(), Error>)
    requires WellFormed(s) && HasType(s, v)
    modifies writer
    ensures r == if Fits(s, v) then Ok(()) else Err(NotRepresentable)
    ensures r.Ok? ==> writer.bytes == old(writer.bytes) + Encode(s, v)
    decreases Rank(s), 0
  {
    hide AllTyped, AllFit, EncodeMany, Ascending, ValidUtf8, LeBytes;
    r := Ok(());
    match s
    case Unit => assert writer.bytes + [] == writer.bytes;
    case UInt(w) => writer.Extend(LeBytes(v.n, w));
    case SInt(w) => writer.Extend(LeBytes(Unsigned(v.n, w), w));
    case Big(w) =>
      var digits := Trim(LeBytes(v.n, w));
      writer.Extend([|digits|] + digits);
    case Text => r := WriteSized(v.bytes, writer);
    case Blob => r := WriteSized(v.bytes, writer);
    case Array(_) => writer.Extend(v.bytes);
    case Type => AppendBytes(v.clType, writer);
    case Pair(a, b) =>
      ghost var start := writer.bytes;
      r := WriteBytes(a, v.fst, writer);
      if r.Ok? {
        r := WriteBytes(b, v.snd, writer);
        ConcatAssociative(start, Encode(a, v.fst), Encode(b, v.snd), []);
      }
    case Choice(t0, a, t1, b) =>
      ghost var start := writer.bytes;
      if v.second {
        writer.Push(t1);
        r := WriteBytes(b, v.payload, writer);
        ConcatAssociative(start, [t1], Encode(b, v.payload), []);
      } else {
        writer.Push(t0);
        r := WriteBytes(a, v.payload, writer);
        ConcatAssociative(start, [t0], Encode(a, v.payload), []);
      }
    case Vec(e) => r := WriteCounted(e, v.items, writer);
    case Map(k, e) => r := WriteCounted(Pair(k, e), v.items, writer);
  }

  method WriteSized(bs: Bytes, writer: Buffer) returns (r: Result<(), Error>)
    modifies writer
    ensures r == if |bs| < U32_LIMIT then Ok(()) else Err(NotRepresentable)
    ensures r.Ok? ==> writer.bytes == old(writer.bytes) + (LeBytes(|bs|, 4) + bs)
  {
    if |bs| >= U32_LIMIT {
      return Err(NotRepresentable);
    }
    writer.Extend(LeBytes(|bs|, 4));
    writer.Extend(bs);
    return Ok(());
  }

  lemma EncodeManySnoc(s: Schema, vs: seq<Value>, v: Value)
    requires WellFormed(s) && AllTyped(s, vs) && HasType(s, v)
    ensures AllTyped(s, vs + [v]) && EncodeMany(s, vs + [v]) == EncodeMany(s, vs) + Encode(s, v)
  {
    hide Encode, HasType, AllTyped;
    TypedByFirst(s, vs);
    TypedByFirst(s, vs + [v]);
    if vs == [] {
      TypedByFirst(s, []);
      assert vs + [v] == [v] && [v][1..] == [];
      assert EncodeMany(s, []) + Encode(s, v) == Encode(s, v) == Encode(s, v) + EncodeMany(s, []);
    } else {
      EncodeManySnoc(s, vs[1..], v);
      assert (vs + [v])[1..] == vs[1..] + [v];
      ConcatAssociative(Encode(s, vs[0]), EncodeMany(s, vs[1..]), Encode(s, v), []);
    }
  }

  /** The length prefix and then every item, stopping at the first that fails. */
  method WriteCounted(s: Schema, vs: seq<Value>, writer: Buffer) returns (r: Result<(), Error>)
    requires WellFormed(s) && AllTyped(s, vs)
    modifies writer
    ensures r == if |vs| < U32_LIMIT && AllFit(s, vs) then Ok(()) else Err(NotRepresentable)
    ensures r.Ok? ==> writer.bytes == old(writer.bytes) + (LeBytes(|vs|, 4) + EncodeMany(s, vs))
    decreases Rank(s), 1
  {
    hide Encode, HasType, Fits, EncodeMany;
    if |vs| >= U32_LIMIT {
      return Err(NotRepresentable);
    }
    writer.Extend(LeBytes(|vs|, 4));
    ghost var start := writer.bytes;
    EncodeManyNone(s, start);
    for i := 0 to |vs|
      invariant AllTyped(s, vs[..i]) && forall j | 0 <= j < i :: Fits(s, vs[j])
      invariant writer.bytes == start + EncodeMany(s, vs[..i])
    {
      r := WriteBytes(s, vs[i], writer);
      if r.Err? {
        return;
      }
      EncodeManySnoc(s, vs[..i], vs[i]);
      ConcatAssociative(start, EncodeMany(s, vs[..i]), Encode(s, vs[i]), []);
      assert vs[..i + 1] == vs[..i] + [vs[i]];
    }
    assert vs[..|vs|] == vs;
    ConcatAssociative(old(writer.bytes), LeBytes(|vs|, 4), EncodeMany(s, vs), []);
    return Ok(());
  }

  lemma EncodeManyNone(s: Schema, start: Bytes)
    requires WellFormed(s)
    ensures AllTyped(s, []) && start + EncodeMany(s, []) == start
  {
  }

  /** `from_bytes`, with a loop for every collection. */
  method FromBytes(s: Schema, bytes: Bytes) returns (r: Decoded<Value>)
    ensures r == Decode(s, bytes)
    decreases Rank(s), 0
  {
    hide DecodeMany, InsertAll, ValidUtf8;
    match s
    case Pair(a, b) =>
      var x :- FromBytes(a, bytes);
      var y :- FromBytes(b, x.1);
      return Ok((Both(x.0, y.0), y.1));
    case Choice(t0, a, t1, b) =>
      var tag :- TakeByte(bytes);
      if tag.0 == t0 {
        var x :- FromBytes(a, tag.1);
        return Ok((Alt(false, x.0), x.1));
      } else if tag.0 == t1 {
        var x :- FromBytes(b, tag.1);
        return Ok((Alt(true, x.0), x.1));
      }
      return Err(Formatting);
    case Vec(e) =>
      var count :- TakeU32(bytes);
      var vs :- ReadItems(e, count.0, count.1);
      return Ok((Items(vs.0), vs.1));
    case Map(k, e) =>
      var count :- TakeU32(bytes);
      var m :- ReadEntries(k, e, count.0, count.1);
      return Ok((Items(m.0), m.1));
    case Type =>
      var t :- DepthLimitedFromBytes(0, bytes);
      return Ok((TypeOf(t.0), t.1));
    case _ =>
      return Decode(s, bytes);
  }

  lemma ReadStep(s: Schema, done: seq<Value>, count: nat, stream: Bytes)
    requires count > 0
    ensures After(done, DecodeMany(s, count, stream))
         == match Decode(s, stream) {
              case Ok(p) => After(done + [p.0], DecodeMany(s, count - 1, p.1))
              case Err(e) => Err(e)
            }
  {
    hide Decode;
    if Decode(s, stream).Ok? {
      var (v, rest) := Decode(s, stream).value;
      var tail := DecodeMany(s, count - 1, rest);
      if tail.Ok? {
        assert done + ([v] + tail.value.0) == (done + [v]) + tail.value.0;
      }
    }
  }

  lemma ReadNone(s: Schema, stream: Bytes)
    ensures DecodeMany(s, 0, stream) == Ok(([], stream))
  {
  }

  method ReadItems(s: Schema, count: nat, bytes: Bytes) returns (r: Decoded<seq<Value>>)
    ensures r == DecodeMany(s, count, bytes)
    decreases Rank(s), 1
  {
    hide Decode, DecodeMany;
    var result: seq<Value> := [];
    var stream := bytes;
    AfterNothing(DecodeMany(s, count, bytes));
    for i := 0 to count
      invariant DecodeMany(s, count, bytes) == After(result, DecodeMany(s, count - i, stream))
    {
      ReadStep(s, result, count - i, stream);
      var x :- FromBytes(s, stream);
      result := result + [x.0];
      stream := x.1;
    }
    assert DecodeMany(s, 0, stream) == Ok(([], stream)) by { ReadNone(s, stream); }
    assert result + [] == result;
    return Ok((result, stream));
  }

  /** The map after the entries still in the stream have been inserted. */
  ghost function AfterInserts(m: seq<Value>, r: Decoded<seq<Value>>): Decoded<seq<Value>> {
    match r
    case Ok((es, rest)) => Ok((InsertAll(m, es), rest))
    case Err(e) => Err(e)
  }

  method ReadEntries(k: Schema, e: Schema, count: nat, bytes: Bytes) returns (r: Decoded<seq<Value>>)
    ensures r == AfterInserts([], DecodeMany(Pair(k, e), count, bytes))
    decreases Rank(Pair(k, e)), 1
  {
    hide Insert;
    ghost var s := Pair(k, e);
    var result: seq<Value> := [];
    var stream := bytes;
    for i := 0 to count
      invariant AfterInserts([], DecodeMany(s, count, bytes)) == AfterInserts(result, DecodeMany(s, count - i, stream))
    {
      var key :- FromBytes(k, stream);
      var value :- FromBytes(e, key.1);
      ghost var tail := DecodeMany(s, count - i - 1, value.1);
      if tail.Ok? {
        assert ([Both(key.0, value.0)] + tail.value.0)[1..] == tail.value.0;
      }
      result := Insert(result, Both(key.0, value.0));
      stream := value.1;
    }
    return Ok((result, stream));
  }
}
