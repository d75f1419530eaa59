/** The stream code for `CLType`: appending to a buffer, and reading with loops over a shrinking slice. */
module ClTypeStreams {
  import opened Basics
  import opened Wire
  import opened ClTypes

  /** A growing `Vec<u8>`. */
  class Buffer {
    var bytes: Bytes

    constructor ()
      ensures bytes == []
    {
      bytes := [];
    }

    method Push(b: Byte)
      modifies this
      ensures bytes == old(bytes) + [b]
    {
      bytes := bytes + [b];
    }

    method Extend(bs: Bytes)
      modifies this
      ensures bytes == old(bytes) + bs
    {
      bytes := bytes + bs;
    }
  }

  method AppendBytes(t: CLType, stream: Buffer)
    modifies stream
    ensures stream.bytes == old(stream.bytes) + Print(t)
    decreases t, 1
  {
    hide PrintMany;
    ghost var start := stream.bytes;
    match t
    case Prim(p) => stream.Push(PrimitiveTag(p));
    case Option(inner) =>
      stream.Push(TAG_OPTION);
      AppendBytes(inner, stream);
      ConcatAssociative(start, [TAG_OPTION], Print(inner), []);
    case List(inner) =>
      stream.Push(TAG_LIST);
      AppendBytes(inner, stream);
      ConcatAssociative(start, [TAG_LIST], Print(inner), []);
    case ByteArray(len) =>
      stream.Push(TAG_BYTE_ARRAY);
      stream.Extend(LeBytes(len, 4));
      ConcatAssociative(start, [TAG_BYTE_ARRAY], LeBytes(len, 4), []);
    case Result(ok, err) =>
      stream.Push(TAG_RESULT);
      AppendBytes(ok, stream);
      AppendBytes(err, stream);
      ConcatAssociative(start, [TAG_RESULT], Print(ok), Print(err));
    case Map(key, value) =>
      stream.Push(TAG_MAP);
      AppendBytes(key, stream);
      AppendBytes(value, stream);
      ConcatAssociative(start, [TAG_MAP], Print(key), Print(value));
    case Tuple1(a) =>
      SerializeTupleType(TAG_TUPLE1, [a], t, stream);
      PrintCompound(t);
    case Tuple2(a, b) =>
      SerializeTupleType(TAG_TUPLE2, [a, b], t, stream);
      PrintCompound(t);
    case Tuple3(a, b, c) =>
      SerializeTupleType(TAG_TUPLE3, [a, b, c], t, stream);
      PrintCompound(t);
  }

  lemma PrintManySnoc(ts: seq<CLType>, t: CLType)
    ensures PrintMany(ts + [t]) == PrintMany(ts) + Print(t)
  {
    hide Print;
    if ts == [] {
      PrintManyCons(t, []);
      assert [t] == [t] + [];
      assert ts + [t] == [t];
    } else {
      PrintManySnoc(ts[1..], t);
      assert (ts + [t])[1..] == ts[1..] + [t];
    }
  }

  method SerializeTupleType(tag: Byte, ts: seq<CLType>, ghost outer: CLType, stream: Buffer)
    requires forall i | 0 <= i < |ts| :: ts[i] < outer
    modifies stream
    ensures stream.bytes == old(stream.bytes) + ([tag] + PrintMany(ts))
    decreases outer, 0
  {
    stream.Push(tag);
    for i := 0 to |ts|
      invariant stream.bytes == old(stream.bytes) + ([tag] + PrintMany(ts[..i]))
    {
      AppendBytes(ts[i], stream);
      PrintManySnoc(ts[..i], ts[i]);
      assert ts[..i + 1] == ts[..i] + [ts[i]];
    }
    assert ts[..|ts|] == ts;
  }

  lemma ParseUpTo2(depth: nat, bytes: Bytes)
    ensures ParseMany(depth, 1, bytes)
         == match Parse(depth, bytes) { case Ok(p) => Ok(([p.0], p.1)) case Err(e) => Err(e) }
    ensures Parse(depth, bytes).Ok? ==>
              var (a, rest) := Parse(depth, bytes).value;
              ParseMany(depth, 2, bytes)
              == match Parse(depth, rest) { case Ok(p) => Ok(([a, p.0], p.1)) case Err(e) => Err(e) }
    ensures Parse(depth, bytes).Err? ==> ParseMany(depth, 2, bytes) == Err(Parse(depth, bytes).error)
  {
    hide Parse;
    forall bs ensures ParseMany(depth, 1, bs)
                   == match Parse(depth, bs) { case Ok(p) => Ok(([p.0], p.1)) case Err(e) => Err(e) }
    {
      if Parse(depth, bs).Ok? {
        assert [Parse(depth, bs).value.0] + [] == [Parse(depth, bs).value.0];
      }
    }
    if Parse(depth, bytes).Ok? {
      var (a, rest) := Parse(depth, bytes).value;
      if Parse(depth, rest).Ok? {
        assert [a] + [Parse(depth, rest).value.0] == [a, Parse(depth, rest).value.0];
      }
    }
  }

  method DepthLimitedFromBytes(depth: nat, bytes: Bytes) returns (r: Decoded<CLType>)
    ensures r == Parse(depth, bytes)
    decreases CL_TYPE_RECURSION_DEPTH - depth, 0
  {
    hide ParseMany;
    if depth >= CL_TYPE_RECURSION_DEPTH {
      return Err(ExceededRecursionDepth);
    }
    var next := depth + 1;
    var head :- TakeByte(bytes);
    var tag, rest := head.0, head.1;
    ParseUpTo2(next, rest);
    if tag == TAG_OPTION || tag == TAG_LIST {
      var inner :- DepthLimitedFromBytes(next, rest);
      return Ok((if tag == TAG_OPTION then Option(inner.0) else List(inner.0), inner.1));
    } else if tag == TAG_BYTE_ARRAY {
      var len :- TakeU32(rest);
      return Ok((ByteArray(len.0), len.1));
    } else if tag == TAG_RESULT || tag == TAG_MAP {
      var a :- DepthLimitedFromBytes(next, rest);
      var b :- DepthLimitedFromBytes(next, a.1);
      return Ok((if tag == TAG_RESULT then Result(a.0, b.0) else Map(a.0, b.0), b.1));
    } else if tag == TAG_TUPLE1 {
      var ts :- ParseTupleTypes(next, 1, rest);
      return Ok((Tuple1(ts.0[0]), ts.1));
    } else if tag == TAG_TUPLE2 {
      var ts :- ParseTupleTypes(next, 2, rest);
      return Ok((Tuple2(ts.0[0], ts.0[1]), ts.1));
    } else if tag == TAG_TUPLE3 {
      var ts :- ParseTupleTypes(next, 3, rest);
      return Ok((Tuple3(ts.0[0], ts.0[1], ts.0[2]), ts.1));
    }
    match PrimitiveOfTag(tag)
    case Some(p) => return Ok((Prim(p), rest));
    case None => return Err(Formatting);
  }

  /** `r` with `done` put in front of what was read. */
  ghost function After<T>(done: seq<T>, r: Decoded<seq<T>>): Decoded<seq<T>> {
    match r
    case Ok((ts, rest)) => Ok((done + ts, rest))
    case Err(e) => Err(e)
  }

  lemma AfterNothing<T>(r: Decoded<seq<T>>)
    ensures After([], r) == r
  {
    if r.Ok? {
      assert [] + r.value.0 == r.value.0;
    }
  }

  method ParseTupleTypes(depth: nat, count: nat, bytes: Bytes) returns (r: Decoded<seq<CLType>>)
    ensures r == ParseMany(depth, count, bytes)
    decreases CL_TYPE_RECURSION_DEPTH - depth, 1
  {
    hide Parse;
    var types: seq<CLType> := [];
    var rest := bytes;
    AfterNothing(ParseMany(depth, count, bytes));
    for i := 0 to count
      invariant ParseMany(depth, count, bytes) == After(types, ParseMany(depth, count - i, rest))
    {
      ghost var after := if Parse(depth, rest).Ok? then Parse(depth, rest).value.1 else rest;
      ghost var tail := ParseMany(depth, count - i - 1, after);
      var read :- DepthLimitedFromBytes(depth, rest);
      if tail.Ok? {
        assert types + ([read.0] + tail.value.0) == (types + [read.0]) + tail.value.0;
      }
      types := types + [read.0];
      rest := read.1;
    }
    assert types + [] == types;
    return Ok((types, rest));
  }
}
