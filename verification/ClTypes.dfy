/** `CLType`, its printer, and its depth-limited parser. */
module ClTypes {
  import opened Basics
  import opened Wire

  const CL_TYPE_RECURSION_DEPTH: nat := 50

  datatype Primitive =
    | Bool | I32 | I64 | U8 | U32 | U64 | U128 | U256 | U512 | Unit | String | Key | URef | PublicKey | Any

  datatype CLType =
    | Prim(primitive: Primitive)
    | Option(inner: CLType)
    | List(inner: CLType)
    | ByteArray(len: Basics.U32)
    | Result(ok: CLType, err: CLType)
    | Map(key: CLType, value: CLType)
    | Tuple1(t1: CLType)
    | Tuple2(t1: CLType, t2: CLType)
    | Tuple3(t1: CLType, t2: CLType, t3: CLType)

  const TAG_OPTION: Byte := 13
  const TAG_LIST: Byte := 14
  const TAG_BYTE_ARRAY: Byte := 15
  const TAG_RESULT: Byte := 16
  const TAG_MAP: Byte := 17
  const TAG_TUPLE1: Byte := 18
  const TAG_TUPLE2: Byte := 19
  const TAG_TUPLE3: Byte := 20

  function PrimitiveTag(p: Primitive): Byte {
    match p
    case Bool => 0
    case I32 => 1
    case I64 => 2
    case U8 => 3
    case U32 => 4
    case U64 => 5
    case U128 => 6
    case U256 => 7
    case U512 => 8
    case Unit => 9
    case String => 10
    case Key => 11
    case URef => 12
    case Any => 21
    case PublicKey => 22
  }

  function PrimitiveOfTag(tag: Byte): Option<Primitive> {
    match tag
    case 0 => Some(Bool)
    case 1 => Some(I32)
    case 2 => Some(I64)
    case 3 => Some(U8)
    case 4 => Some(U32)
    case 5 => Some(U64)
    case 6 => Some(U128)
    case 7 => Some(U256)
    case 8 => Some(U512)
    case 9 => Some(Unit)
    case 10 => Some(String)
    case 11 => Some(Key)
    case 12 => Some(URef)
    case 21 => Some(Any)
    case 22 => Some(PublicKey)
    case _ => None
  }

  /** What `append_bytes` adds to its stream. */
  function Print(t: CLType): Bytes {
    match t
    case Prim(p) => [PrimitiveTag(p)]
    case Option(inner) => [TAG_OPTION] + Print(inner)
    case List(inner) => [TAG_LIST] + Print(inner)
    case ByteArray(len) => [TAG_BYTE_ARRAY] + LeBytes(len, 4)
    case Result(ok, err) => [TAG_RESULT] + Print(ok) + Print(err)
    case Map(key, value) => [TAG_MAP] + Print(key) + Print(value)
    case Tuple1(a) => [TAG_TUPLE1] + Print(a)
    case Tuple2(a, b) => [TAG_TUPLE2] + Print(a) + Print(b)
    case Tuple3(a, b, c) => [TAG_TUPLE3] + Print(a) + Print(b) + Print(c)
  }

  function SerializedLength(t: CLType): nat {
    1 + match t
        case Prim(_) => 0
        case Option(inner) => SerializedLength(inner)
        case List(inner) => SerializedLength(inner)
        case ByteArray(_) => 4
        case Result(ok, err) => SerializedLength(ok) + SerializedLength(err)
        case Map(key, value) => SerializedLength(key) + SerializedLength(value)
        case Tuple1(a) => SerializedLength(a)
        case Tuple2(a, b) => SerializedLength(a) + SerializedLength(b)
        case Tuple3(a, b, c) => SerializedLength(a) + SerializedLength(b) + SerializedLength(c)
  }

  function Max(a: nat, b: nat): nat {
    if a < b then b else a
  }

  /** Nesting levels, counting the type itself. */
  function Height(t: CLType): (n: nat)
    ensures n > 0
  {
    1 + match t
        case Prim(_) => 0
        case Option(inner) => Height(inner)
        case List(inner) => Height(inner)
        case ByteArray(_) => 0
        case Result(ok, err) => Max(Height(ok), Height(err))
        case Map(key, value) => Max(Height(key), Height(value))
        case Tuple1(a) => Height(a)
        case Tuple2(a, b) => Max(Height(a), Height(b))
        case Tuple3(a, b, c) => Max(Height(a), Max(Height(b), Height(c)))
  }

  /** How many types follow a compound tag; 0 for every other tag. */
  function Arity(tag: Byte): nat {
    if tag == TAG_OPTION || tag == TAG_LIST || tag == TAG_TUPLE1 then 1
    else if tag == TAG_RESULT || tag == TAG_MAP || tag == TAG_TUPLE2 then 2
    else if tag == TAG_TUPLE3 then 3
    else 0
  }

  function Build(tag: Byte, ts: seq<CLType>): CLType
    requires |ts| == Arity(tag) > 0
  {
    if tag == TAG_OPTION then Option(ts[0])
    else if tag == TAG_LIST then List(ts[0])
    else if tag == TAG_TUPLE1 then Tuple1(ts[0])
    else if tag == TAG_RESULT then Result(ts[0], ts[1])
    else if tag == TAG_MAP then Map(ts[0], ts[1])
    else if tag == TAG_TUPLE2 then Tuple2(ts[0], ts[1])
    else Tuple3(ts[0], ts[1], ts[2])
  }

  /** What `depth_limited_from_bytes` computes. */
  function Parse(depth: nat, bytes: Bytes): Decoded<CLType>
    decreases CL_TYPE_RECURSION_DEPTH - depth, 0
  {
    if depth >= CL_TYPE_RECURSION_DEPTH then Err(ExceededRecursionDepth) else
    var (tag, rest) :- TakeByte(bytes);
    if Arity(tag) > 0 then
      var (ts, rest) :- ParseMany(depth + 1, Arity(tag), rest);
      Ok((Build(tag, ts), rest))
    else if tag == TAG_BYTE_ARRAY then
      var (len, rest) :- TakeU32(rest);
      Ok((ByteArray(len), rest))
    else
      match PrimitiveOfTag(tag)
      case Some(p) => Ok((Prim(p), rest))
      case None => Err(Formatting)
  }

  /** `count` types one after another. */
  function ParseMany(depth: nat, count: nat, bytes: Bytes): (r: Decoded<seq<CLType>>)
    ensures r.Ok? ==> |r.value.0| == count
    decreases CL_TYPE_RECURSION_DEPTH - depth, count + 1
  {
    if count == 0 then Ok(([], bytes)) else
    var (t, rest) :- Parse(depth, bytes);
    var (ts, rest) :- ParseMany(depth, count - 1, rest);
    Ok(([t] + ts, rest))
  }

  // ----- Printing and parsing invert each other --------------------------------------------------

  /** The types directly inside `t`. */
  function Parts(t: CLType): seq<CLType> {
    match t
    case Prim(_) => []
    case ByteArray(_) => []
    case Option(inner) => [inner]
    case List(inner) => [inner]
    case Tuple1(a) => [a]
    case Result(ok, err) => [ok, err]
    case Map(key, value) => [key, value]
    case Tuple2(a, b) => [a, b]
    case Tuple3(a, b, c) => [a, b, c]
  }

  function PrintMany(ts: seq<CLType>): Bytes {
    if ts == [] then [] else Print(ts[0]) + PrintMany(ts[1..])
  }

  lemma PrintManyCons(t: CLType, ts: seq<CLType>)
    ensures PrintMany([t] + ts) == Print(t) + PrintMany(ts)
  {
    assert ([t] + ts)[1..] == ts;
  }

  lemma PrintUpTo3(a: CLType, b: CLType, c: CLType)
    ensures PrintMany([a]) == Print(a)
    ensures PrintMany([a, b]) == Print(a) + Print(b)
    ensures PrintMany([a, b, c]) == Print(a) + Print(b) + Print(c)
  {
    hide Print;
    PrintManyCons(a, []);
    PrintManyCons(b, []);
    PrintManyCons(c, []);
    PrintManyCons(b, [c]);
    PrintManyCons(a, [b]);
    PrintManyCons(a, [b, c]);
    assert [a] == [a] + [] && [b] == [b] + [] && [c] == [c] + [];
    assert [a, b] == [a] + [b] && [b, c] == [b] + [c] && [a, b, c] == [a] + [b, c];
  }

  function TagOf(t: CLType): Byte {
    match t
    case Prim(p) => PrimitiveTag(p)
    case ByteArray(_) => TAG_BYTE_ARRAY
    case Option(_) => TAG_OPTION
    case List(_) => TAG_LIST
    case Tuple1(_) => TAG_TUPLE1
    case Result(_, _) => TAG_RESULT
    case Map(_, _) => TAG_MAP
    case Tuple2(_, _) => TAG_TUPLE2
    case Tuple3(_, _, _) => TAG_TUPLE3
  }

  /** A compound type prints as its tag and then its parts. */
  lemma PrintCompound(t: CLType)
    requires !t.Prim? && !t.ByteArray?
    ensures Print(t) == [TagOf(t)] + PrintMany(Parts(t))
  {
    hide PrintMany;
    match t
    case Option(a) => PrintUpTo3(a, a, a);
    case List(a) => PrintUpTo3(a, a, a);
    case Tuple1(a) => PrintUpTo3(a, a, a);
    case Result(a, b) => PrintUpTo3(a, b, b);
    case Map(a, b) => PrintUpTo3(a, b, b);
    case Tuple2(a, b) => PrintUpTo3(a, b, b);
    case Tuple3(a, b, c) => PrintUpTo3(a, b, c);
  }

  lemma BuildOfParts(t: CLType)
    requires !t.Prim? && !t.ByteArray?
    ensures Arity(TagOf(t)) == |Parts(t)| > 0 && Build(TagOf(t), Parts(t)) == t
  {
  }

  lemma PartsOfBuild(tag: Byte, ts: seq<CLType>)
    requires |ts| == Arity(tag) > 0
    ensures var t := Build(tag, ts);
            !t.Prim? && !t.ByteArray? && TagOf(t) == tag && Parts(t) == ts
  {
  }

  lemma PrimitiveTags(p: Primitive, tag: Byte)
    ensures PrimitiveOfTag(PrimitiveTag(p)) == Some(p)
    ensures Arity(PrimitiveTag(p)) == 0 && PrimitiveTag(p) != TAG_BYTE_ARRAY
    ensures PrimitiveOfTag(tag) == Some(p) ==> PrimitiveTag(p) == tag
  {
  }

  /** Every type in `ts` can be read at `depth` without passing the limit. */
  predicate AllFit(depth: nat, ts: seq<CLType>) {
    forall i | 0 <= i < |ts| :: depth + Height(ts[i]) <= CL_TYPE_RECURSION_DEPTH
  }

  lemma FitsByParts(depth: nat, t: CLType)
    requires depth < CL_TYPE_RECURSION_DEPTH
    ensures depth + Height(t) <= CL_TYPE_RECURSION_DEPTH <==> AllFit(depth + 1, Parts(t))
  {
    hide AllFit, Max;
    match t
    case Result(a, b) => FitTogether(depth + 1, a, b, b);
    case Map(a, b) => FitTogether(depth + 1, a, b, b);
    case Tuple2(a, b) => FitTogether(depth + 1, a, b, b);
    case Tuple3(a, b, c) => FitTogether(depth + 1, a, b, c);
    case Option(a) => FitTogether(depth + 1, a, a, a);
    case List(a) => FitTogether(depth + 1, a, a, a);
    case Tuple1(a) => FitTogether(depth + 1, a, a, a);
    case _ => FitTogether(depth + 1, t, t, t);
  }

  lemma FitTogether(depth: nat, a: CLType, b: CLType, c: CLType)
    ensures AllFit(depth, [])
    ensures AllFit(depth, [a]) <==> depth + Height(a) <= CL_TYPE_RECURSION_DEPTH
    ensures AllFit(depth, [a, b]) <==> depth + Max(Height(a), Height(b)) <= CL_TYPE_RECURSION_DEPTH
    ensures AllFit(depth, [a, b, c]) <==> depth + Max(Height(a), Max(Height(b), Height(c))) <= CL_TYPE_RECURSION_DEPTH
  {
    hide Height;
    assert [a][0] == a;
    assert [a, b][0] == a && [a, b][1] == b;
    assert [a, b, c][0] == a && [a, b, c][1] == b && [a, b, c][2] == c;
  }

  /**
   The parser on a printed type followed by anything: it gives the type back exactly when the type
   fits below the depth limit, and reports the depth limit otherwise.
   */
  lemma {:induction false} PrintParse(depth: nat, t: CLType, rest: Bytes)
    requires depth <= CL_TYPE_RECURSION_DEPTH
    ensures Parse(depth, Print(t) + rest)
         == if depth + Height(t) <= CL_TYPE_RECURSION_DEPTH then Ok((t, rest)) else Err(ExceededRecursionDepth)
    decreases t, 1, 0
  {
    hide PrintMany, ParseMany, Build, Height;
    if depth < CL_TYPE_RECURSION_DEPTH {
      FitsByParts(depth, t);
      hide Print;
      var bytes := Print(t) + rest;
      if t.Prim? || t.ByteArray? {
        LeafPrintParse(depth, t, rest);
      } else {
        PrintCompound(t);
        BuildOfParts(t);
        assert bytes[1..] == PrintMany(Parts(t)) + rest;
        PrintParseMany(depth + 1, t, Parts(t), rest);
      }
    }
  }

  lemma LeafPrintParse(depth: nat, t: CLType, rest: Bytes)
    requires depth < CL_TYPE_RECURSION_DEPTH && (t.Prim? || t.ByteArray?)
    ensures Parse(depth, Print(t) + rest) == Ok((t, rest))
    ensures depth + Height(t) <= CL_TYPE_RECURSION_DEPTH
  {
    hide ParseMany, Build;
    var bytes := Print(t) + rest;
    if t.Prim? {
      PrimitiveTags(t.primitive, 0);
      assert bytes[1..] == rest;
    } else {
      assert bytes[1..] == LeBytes(t.len, 4) + rest;
      TakeU32RoundTrip(t.len, rest);
    }
  }

  lemma {:induction false} PrintParseMany(depth: nat, outer: CLType, ts: seq<CLType>, rest: Bytes)
    requires depth <= CL_TYPE_RECURSION_DEPTH
    requires forall i | 0 <= i < |ts| :: ts[i] < outer
    ensures ParseMany(depth, |ts|, PrintMany(ts) + rest)
         == if AllFit(depth, ts) then Ok((ts, rest)) else Err(ExceededRecursionDepth)
    decreases outer, 0, |ts|
  {
    hide Print, Parse, Height;
    if ts == [] {
      assert PrintMany(ts) + rest == rest;
    } else {
      var after := PrintMany(ts[1..]) + rest;
      assert PrintMany(ts) + rest == Print(ts[0]) + after;
      PrintParse(depth, ts[0], after);
      PrintParseMany(depth, outer, ts[1..], rest);
      assert ts == [ts[0]] + ts[1..];
      assert AllFit(depth, ts) <==> depth + Height(ts[0]) <= CL_TYPE_RECURSION_DEPTH && AllFit(depth, ts[1..]);
    }
  }

  /** Whatever the parser accepts is the printed form of its result, which fits below the limit. */
  lemma {:induction false} ParsePrint(depth: nat, bytes: Bytes)
    requires Parse(depth, bytes).Ok?
    ensures var (t, rest) := Parse(depth, bytes).value;
            bytes == Print(t) + rest && depth + Height(t) <= CL_TYPE_RECURSION_DEPTH
    decreases CL_TYPE_RECURSION_DEPTH - depth, 0, 0
  {
    hide PrintMany, ParseMany, Build, Height;
    var tag, rest := bytes[0], bytes[1..];
    var (t, after) := Parse(depth, bytes).value;
    assert bytes == [tag] + rest;
    FitsByParts(depth, t);
    if Arity(tag) > 0 {
      hide Print;
      ParsePrintMany(depth + 1, Arity(tag), rest);
      PartsOfBuild(tag, ParseMany(depth + 1, Arity(tag), rest).value.0);
      PrintCompound(t);
    } else if tag == TAG_BYTE_ARRAY {
      TakeU32Reprint(rest);
    } else {
      PrimitiveTags(t.primitive, tag);
    }
  }

  lemma {:induction false} ParsePrintMany(depth: nat, count: nat, bytes: Bytes)
    requires ParseMany(depth, count, bytes).Ok?
    ensures var (ts, rest) := ParseMany(depth, count, bytes).value;
            bytes == PrintMany(ts) + rest && AllFit(depth, ts)
    decreases CL_TYPE_RECURSION_DEPTH - depth, 1, count
  {
    hide Print, Parse, Height;
    if count > 0 {
      ParsePrint(depth, bytes);
      var (t, rest) := Parse(depth, bytes).value;
      ParsePrintMany(depth, count - 1, rest);
      PrintManyCons(t, ParseMany(depth, count - 1, rest).value.0);
    }
  }

  /** `serialized_length` is the length of the printed form. */
  lemma {:induction false} PrintLength(t: CLType)
    ensures |Print(t)| == SerializedLength(t)
  {
    match t
    case Prim(_) =>
    case ByteArray(_) =>
    case Option(a) => PrintLength(a);
    case List(a) => PrintLength(a);
    case Tuple1(a) => PrintLength(a);
    case Result(a, b) => PrintLength(a); PrintLength(b);
    case Map(a, b) => PrintLength(a); PrintLength(b);
    case Tuple2(a, b) => PrintLength(a); PrintLength(b);
    case Tuple3(a, b, c) => PrintLength(a); PrintLength(b); PrintLength(c);
  }

  // ----- Printing is uniquely readable at any height ---------------------------------------------

  lemma PrintHead(t: CLType)
    ensures Print(t) != [] && Print(t)[0] == TagOf(t)
  {
  }

  /** Printed types followed by anything agree only if the types and what follows agree. */
  lemma {:induction false} PrintUnique(t: CLType, u: CLType, a: Bytes, b: Bytes)
    requires Print(t) + a == Print(u) + b
    ensures t == u && a == b
    decreases |Print(t)|, 0
  {
    PrintHead(t);
    PrintHead(u);
    assert TagOf(t) == (Print(t) + a)[0] == TagOf(u);
    SameKind(t, u);
    if t.Prim? || t.ByteArray? {
      LeafUnique(t, u, a, b);
    } else {
      hide Print;
      assert (Print(t) + a)[1..] == Print(t)[1..] + a && (Print(u) + b)[1..] == Print(u)[1..] + b;
      PrintCompound(t);
      PrintCompound(u);
      BuildOfParts(t);
      BuildOfParts(u);
      PrintManyUnique(Parts(t), Parts(u), a, b);
    }
  }

  lemma LeafUnique(t: CLType, u: CLType, a: Bytes, b: Bytes)
    requires (t.Prim? && u.Prim?) || (t.ByteArray? && u.ByteArray?)
    requires Print(t) + a == Print(u) + b
    ensures t == u && a == b
  {
    assert (Print(t) + a)[1..] == Print(t)[1..] + a && (Print(u) + b)[1..] == Print(u)[1..] + b;
    if t.Prim? {
      PrimitiveTags(t.primitive, 0);
      PrimitiveTags(u.primitive, 0);
    } else {
      TakeU32RoundTrip(t.len, a);
      TakeU32RoundTrip(u.len, b);
    }
  }

  lemma SameKind(t: CLType, u: CLType)
    requires TagOf(t) == TagOf(u)
    ensures (t.Prim? <==> u.Prim?) && (t.ByteArray? <==> u.ByteArray?)
  {
  }

  lemma {:induction false} PrintManyUnique(ts: seq<CLType>, us: seq<CLType>, a: Bytes, b: Bytes)
    requires |ts| == |us| && PrintMany(ts) + a == PrintMany(us) + b
    ensures ts == us && a == b
    decreases |PrintMany(ts)|, 1 + |ts|
  {
    hide Print;
    if ts == [] {
      assert PrintMany(ts) + a == a && PrintMany(us) + b == b;
    } else {
      var a', b' := PrintMany(ts[1..]) + a, PrintMany(us[1..]) + b;
      assert PrintMany(ts) + a == Print(ts[0]) + a' && PrintMany(us) + b == Print(us[0]) + b';
      PrintUnique(ts[0], us[0], a', b');
      PrintManyUnique(ts[1..], us[1..], a, b);
      assert ts == [ts[0]] + ts[1..] && us == [us[0]] + us[1..];
    }
  }

  // ----- The format in numbers -------------------------------------------------------------------

  /** The byte of every type without parts. */
  lemma PrimitiveFormat()
    ensures Print(Prim(Bool)) == [0] && Print(Prim(I32)) == [1] && Print(Prim(I64)) == [2]
    ensures Print(Prim(U8)) == [3] && Print(Prim(U32)) == [4] && Print(Prim(U64)) == [5]
    ensures Print(Prim(U128)) == [6] && Print(Prim(U256)) == [7] && Print(Prim(U512)) == [8]
    ensures Print(Prim(Unit)) == [9] && Print(Prim(String)) == [10] && Print(Prim(Key)) == [11]
    ensures Print(Prim(URef)) == [12] && Print(Prim(Any)) == [21] && Print(Prim(PublicKey)) == [22]
  {
  }

  /** The leading byte of every type with parts, and the order of the parts. */
  lemma CompoundFormat(a: CLType, b: CLType, c: CLType, len: Basics.U32)
    ensures Print(Option(a)) == [13] + Print(a) && Print(List(a)) == [14] + Print(a)
    ensures Print(ByteArray(len)) == [15] + LeBytes(len, 4)
    ensures Print(Result(a, b)) == [16] + Print(a) + Print(b) && Print(Map(a, b)) == [17] + Print(a) + Print(b)
    ensures Print(Tuple1(a)) == [18] + Print(a) && Print(Tuple2(a, b)) == [19] + Print(a) + Print(b)
    ensures Print(Tuple3(a, b, c)) == [20] + Print(a) + Print(b) + Print(c)
  {
  }

  /** What the parser makes of every leading byte; `ParseMany` reads the given number of types one level deeper. */
  lemma ParseFormat(depth: nat, tag: Byte, rest: Bytes)
    requires depth < 50
    ensures var primitives := [Bool, I32, I64, U8, U32, U64, U128, U256, U512, Unit, String, Key, URef];
            tag < 13 ==> Parse(depth, [tag] + rest) == Ok((Prim(primitives[tag]), rest))
    ensures tag == 21 ==> Parse(depth, [tag] + rest) == Ok((Prim(Any), rest))
    ensures tag == 22 ==> Parse(depth, [tag] + rest) == Ok((Prim(PublicKey), rest))
    ensures tag > 22 ==> Parse(depth, [tag] + rest) == Err(Formatting)
    ensures tag == 15 ==> Parse(depth, [tag] + rest) == match TakeU32(rest) {
                            case Ok(p) => Ok((ByteArray(p.0), p.1))
                            case Err(e) => Err(e)
                          }
    ensures tag == 13 || tag == 14 || 16 <= tag <= 20 ==>
              var parts := ParseMany(depth + 1, if tag == 20 then 3 else if tag in {16, 17, 19} then 2 else 1, rest);
              Parse(depth, [tag] + rest) == match parts {
                case Err(e) => Err(e)
                case Ok(p) =>
                  var ts := p.0;
                  Ok((if tag == 13 then Option(ts[0])
                      else if tag == 14 then List(ts[0])
                      else if tag == 16 then Result(ts[0], ts[1])
                      else if tag == 17 then Map(ts[0], ts[1])
                      else if tag == 18 then Tuple1(ts[0])
                      else if tag == 19 then Tuple2(ts[0], ts[1])
                      else Tuple3(ts[0], ts[1], ts[2]), p.1))
              }
  {
    hide ParseMany, TakeU32;
    assert ([tag] + rest)[1..] == rest;
  }

  /** A whole type is read back exactly if it has at most 50 levels. */
  lemma DepthLimit(t: CLType, rest: Bytes)
    ensures Parse(0, Print(t) + rest) == if Height(t) <= 50 then Ok((t, rest)) else Err(ExceededRecursionDepth)
    ensures Parse(0, []) == Err(EarlyEndOfStream)
  {
    hide Height, Print;
    PrintParse(0, t, rest);
  }

  // ----- Truncated types -------------------------------------------------------------------------

  /** A type cut short anywhere is reported as a stream that ends too early. */
  lemma {:induction false} PrintTruncated(depth: nat, t: CLType, n: nat)
    requires depth + Height(t) <= CL_TYPE_RECURSION_DEPTH && n < |Print(t)|
    ensures Parse(depth, Print(t)[..n]) == Err(EarlyEndOfStream)
    decreases t, 1, 0
  {
    hide PrintMany, ParseMany, Build, Height;
    assert depth < CL_TYPE_RECURSION_DEPTH by { HeightPositive(t); }
    var bytes := Print(t)[..n];
    PrintHead(t);
    if n > 0 {
      assert bytes[0] == TagOf(t) && bytes[1..] == Print(t)[1..][..n - 1];
      if t.Prim? || t.ByteArray? {
        LeafTruncated(depth, t, n);
      } else {
        hide Print;
        PrintCompound(t);
        BuildOfParts(t);
        FitsByParts(depth, t);
        assert Print(t)[1..] == PrintMany(Parts(t));
        PrintManyTruncated(depth + 1, t, Parts(t), n - 1);
      }
    }
  }

  lemma HeightPositive(t: CLType)
    ensures Height(t) > 0
  {
  }

  lemma LeafTruncated(depth: nat, t: CLType, n: nat)
    requires depth < CL_TYPE_RECURSION_DEPTH && (t.Prim? || t.ByteArray?) && 0 < n < |Print(t)|
    ensures Parse(depth, Print(t)[..n]) == Err(EarlyEndOfStream)
  {
    hide ParseMany, Build, LeBytes;
  }

  lemma {:induction false} PrintManyTruncated(depth: nat, outer: CLType, ts: seq<CLType>, n: nat)
    requires AllFit(depth, ts) && n < |PrintMany(ts)|
    requires forall i | 0 <= i < |ts| :: ts[i] < outer
    ensures ParseMany(depth, |ts|, PrintMany(ts)[..n]) == Err(EarlyEndOfStream)
    decreases outer, 0, |ts|
  {
    hide Print, Parse, Height;
    var head, tail := Print(ts[0]), PrintMany(ts[1..]);
    if n < |head| {
      assert (head + tail)[..n] == head[..n];
      PrintTruncated(depth, ts[0], n);
    } else {
      assert (head + tail)[..n] == head + tail[..n - |head|];
      PrintParse(depth, ts[0], tail[..n - |head|]);
      PrintManyTruncated(depth, outer, ts[1..], n - |head|);
    }
  }
}
