/** Type-erased values, and the contract records that carry `CLType`s. */
module ClValues {
  import opened Basics
  import opened Wire
  import opened Values
  import opened Codec
  import opened CodecLaws
  import opened CodecTheorems
  import ClTypes

  type CLType = ClTypes.CLType

  /** A Rust string, as its bytes. */
  type Utf8 = bs: Bytes | ValidUtf8(bs) witness []

  predicate Within(t: CLType) {
    ClTypes.Height(t) <= LIMIT
  }

  // ----- CLValue ---------------------------------------------------------------------------------

  datatype ClValue = ClValue(clType: CLType, bytes: Bytes)

  datatype ClValueError =
    | Serialization(error: Error)
    | TypeMismatch(expected: CLType, found: CLType)

  /** A Rust type that is `CLTyped`: its layout and the `CLType` it declares. */
  datatype RustType = RustType(schema: Schema, clType: CLType)

  function FromT(t: RustType, v: Value): Result<ClValue, ClValueError>
    requires WellFormed(t.schema) && HasType(t.schema, v)
  {
    match ToBytes(t.schema, v)
    case Ok(bytes) => Ok(ClValue(t.clType, bytes))
    case Err(e) => Err(Serialization(e))
  }

  function IntoT(t: RustType, c: ClValue): Result<Value, ClValueError> {
    if c.clType != t.clType then Err(TypeMismatch(t.clType, c.clType))
    else
      match Deserialize(t.schema, c.bytes)
      case Ok(v) => Ok(v)
      case Err(e) => Err(Serialization(e))
  }

  /** The bytes come first, then the type. */
  function ClValueSchema(): Schema { Pair(Blob, Type) }

  function ClValueBytes(c: ClValue): Bytes {
    Encode(ClValueSchema(), Both(Raw(c.bytes), TypeOf(c.clType)))
  }

  function ClValueFromBytes(bytes: Bytes): Decoded<ClValue> {
    var (v, rest) :- Decode(ClValueSchema(), bytes);
    Ok((ClValue(v.snd.clType, v.fst.bytes), rest))
  }

  /** A `CLValue` survives with any suffix exactly when its type is within the depth limit. */
  lemma ClValueRoundTrip(c: ClValue, rest: Bytes)
    requires |c.bytes| < U32_LIMIT
    ensures ClValueFromBytes(ClValueBytes(c) + rest)
         == if Within(c.clType) then Ok((c, rest)) else Err(ExceededRecursionDepth)
  {
    hide Decode, Encode, ClTypes.Height;
    EncodeDecode(ClValueSchema(), Both(Raw(c.bytes), TypeOf(c.clType)), rest);
  }

  /** A string or byte vector behind its four-byte count. */
  function Sized(bs: Bytes): Bytes {
    LeBytes(|bs|, 4) + bs
  }

  /** A `CLValue`: its bytes behind their count, then its type. */
  lemma ClValueFormat(c: ClValue)
    ensures ClValueBytes(c) == Sized(c.bytes) + ClTypes.Print(c.clType)
  {
    hide ClTypes.Print, LeBytes;
  }

  /** Erasing and restoring a value, directly and through the bytes of the `CLValue`. */
  lemma FromTIntoT(t: RustType, other: RustType, v: Value, rest: Bytes)
    requires WellFormed(t.schema) && HasType(t.schema, v) && Fits(t.schema, v)
    ensures FromT(t, v) == Ok(ClValue(t.clType, Encode(t.schema, v)))
    ensures var c := FromT(t, v).value;
            && IntoT(t, c) == (if Shallow(t.schema, v) then Ok(v) else Err(Serialization(ExceededRecursionDepth)))
            && (other.clType != t.clType ==> IntoT(other, c) == Err(TypeMismatch(other.clType, t.clType)))
            && (Within(t.clType) && |c.bytes| < U32_LIMIT ==>
                  ClValueFromBytes(ClValueBytes(c) + rest) == Ok((c, rest)))
  {
    hide Decode, Encode, ClValueFromBytes, ClValueBytes;
    var c := FromT(t, v).value;
    EncodeDecode(t.schema, v, []);
    assert Encode(t.schema, v) + [] == Encode(t.schema, v);
    if |c.bytes| < U32_LIMIT {
      ClValueRoundTrip(c, rest);
    }
  }

  // ----- Entry points ----------------------------------------------------------------------------

  datatype Parameter = Parameter(name: Utf8, clType: CLType)

  datatype EntryPointAccess = Public | Groups(groups: seq<Utf8>)

  datatype EntryPointType = Session | Contract

  datatype EntryPoint = EntryPoint(
    name: Utf8, args: seq<Parameter>, ret: CLType, access: EntryPointAccess, entryPointType: EntryPointType)

  function ParameterSchema(): Schema { Pair(Text, Type) }

  function AccessSchema(): Schema { Choice(1, Unit, 2, Vec(Text)) }

  function EntryPointTypeSchema(): Schema { Choice(0, Unit, 1, Unit) }

  /** Name, arguments, return type, access, entry point type, one after another. */
  function EntryPointSchema(): Schema {
    Pair(Text, Pair(Vec(ParameterSchema()), Pair(Type, Pair(AccessSchema(), EntryPointTypeSchema()))))
  }

  function ParameterValue(p: Parameter): Value {
    Both(Raw(p.name), TypeOf(p.clType))
  }

  function ParameterOf(v: Value): Parameter
    requires HasType(ParameterSchema(), v)
  {
    Parameter(v.fst.bytes, v.snd.clType)
  }

  function ParameterValues(ps: seq<Parameter>): (vs: seq<Value>)
    ensures |vs| == |ps| && forall i | 0 <= i < |ps| :: vs[i] == ParameterValue(ps[i])
  {
    if ps == [] then [] else [ParameterValue(ps[0])] + ParameterValues(ps[1..])
  }

  function ParametersOf(vs: seq<Value>): (ps: seq<Parameter>)
    requires AllTyped(ParameterSchema(), vs)
    ensures |ps| == |vs| && forall i | 0 <= i < |vs| :: ps[i] == ParameterOf(vs[i])
  {
    if vs == [] then [] else [ParameterOf(vs[0])] + ParametersOf(vs[1..])
  }

  function TextValues(ts: seq<Utf8>): (vs: seq<Value>)
    ensures |vs| == |ts| && forall i | 0 <= i < |ts| :: vs[i] == Raw(ts[i])
  {
    if ts == [] then [] else [Raw(ts[0])] + TextValues(ts[1..])
  }

  function TextsOf(vs: seq<Value>): (ts: seq<Utf8>)
    requires AllTyped(Text, vs)
    ensures |ts| == |vs| && forall i | 0 <= i < |vs| :: ts[i] == vs[i].bytes
  {
    if vs == [] then [] else
    assert HasType(Text, vs[0]);
    [vs[0].bytes] + TextsOf(vs[1..])
  }

  function AccessValue(a: EntryPointAccess): Value {
    match a
    case Public => Alt(false, Nil)
    case Groups(groups) => Alt(true, Items(TextValues(groups)))
  }

  function EntryPointValue(e: EntryPoint): Value {
    Both(Raw(e.name),
      Both(Items(ParameterValues(e.args)),
        Both(TypeOf(e.ret), Both(AccessValue(e.access), Alt(e.entryPointType.Contract?, Nil)))))
  }

  function AccessOf(v: Value): EntryPointAccess
    requires HasType(AccessSchema(), v)
  {
    if v.second then Groups(TextsOf(v.payload.items)) else Public
  }

  function EntryPointOf(v: Value): EntryPoint
    requires HasType(EntryPointSchema(), v)
  {
    EntryPoint(v.fst.bytes, ParametersOf(v.snd.fst.items), v.snd.snd.fst.clType,
               AccessOf(v.snd.snd.snd.fst), if v.snd.snd.snd.snd.second then Contract else Session)
  }

  /** Every length prefix fits in 32 bits. */
  predicate Representable(e: EntryPoint) {
    && |e.name| < U32_LIMIT
    && |e.args| < U32_LIMIT && (forall i | 0 <= i < |e.args| :: |e.args[i].name| < U32_LIMIT)
    && AccessFits(e.access)
  }

  predicate AccessFits(a: EntryPointAccess) {
    a.Groups? ==> |a.groups| < U32_LIMIT && forall i | 0 <= i < |a.groups| :: |a.groups[i]| < U32_LIMIT
  }

  /** Every type the entry point mentions is within the parser's depth limit. */
  predicate TypesWithin(e: EntryPoint) {
    Within(e.ret) && forall i | 0 <= i < |e.args| :: Within(e.args[i].clType)
  }

  lemma ParametersTyped(ps: seq<Parameter>)
    ensures AllTyped(ParameterSchema(), ParameterValues(ps))
    ensures AllFit(ParameterSchema(), ParameterValues(ps)) <==> forall i | 0 <= i < |ps| :: |ps[i].name| < U32_LIMIT
    ensures AllShallow(ParameterSchema(), ParameterValues(ps)) <==> forall i | 0 <= i < |ps| :: Within(ps[i].clType)
    ensures ParametersOf(ParameterValues(ps)) == ps
  {
    hide HasType, Fits, Shallow, ParameterValue, ParameterOf, Within;
    var vs := ParameterValues(ps);
    forall i | 0 <= i < |ps|
      ensures HasType(ParameterSchema(), vs[i]) && ParameterOf(vs[i]) == ps[i]
      ensures Fits(ParameterSchema(), vs[i]) <==> |ps[i].name| < U32_LIMIT
      ensures Shallow(ParameterSchema(), vs[i]) <==> Within(ps[i].clType)
    {
      ParameterTyped(ps[i]);
    }
    if AllShallow(ParameterSchema(), vs) {
      forall i | 0 <= i < |ps| ensures Within(ps[i].clType) {
        assert Shallow(ParameterSchema(), vs[i]);
      }
    }
    if AllFit(ParameterSchema(), vs) {
      forall i | 0 <= i < |ps| ensures |ps[i].name| < U32_LIMIT {
        assert Fits(ParameterSchema(), vs[i]);
      }
    }
  }

  lemma ParameterTyped(p: Parameter)
    ensures HasType(ParameterSchema(), ParameterValue(p)) && ParameterOf(ParameterValue(p)) == p
    ensures Fits(ParameterSchema(), ParameterValue(p)) <==> |p.name| < U32_LIMIT
    ensures Shallow(ParameterSchema(), ParameterValue(p)) <==> Within(p.clType)
  {
  }

  lemma VecTyped(e: Schema, vs: seq<Value>)
    ensures HasType(Vec(e), Items(vs)) <==> AllTyped(e, vs)
    ensures Fits(Vec(e), Items(vs)) <==> |vs| < U32_LIMIT && AllFit(e, vs)
    ensures Shallow(Vec(e), Items(vs)) <==> AllShallow(e, vs)
  {
  }

  lemma AccessTyped(a: EntryPointAccess)
    ensures HasType(AccessSchema(), AccessValue(a)) && Shallow(AccessSchema(), AccessValue(a))
    ensures AccessOf(AccessValue(a)) == a
    ensures Fits(AccessSchema(), AccessValue(a)) <==> AccessFits(a)
  {
    match a
    case Public => ChoiceTyped(AccessSchema(), false, Nil);
    case Groups(groups) =>
      hide HasType, Fits, Shallow, AllTyped, AllFit, AllShallow, TextValues, TextsOf;
      TextsTyped(groups);
      VecTyped(Text, TextValues(groups));
      ChoiceTyped(AccessSchema(), true, Items(TextValues(groups)));
  }

  lemma ChoiceTyped(s: Schema, second: bool, x: Value)
    requires s.Choice?
    ensures var c := if second then s.case1 else s.case0;
            && (HasType(s, Alt(second, x)) <==> HasType(c, x))
            && (Fits(s, Alt(second, x)) <==> Fits(c, x))
            && (Shallow(s, Alt(second, x)) <==> Shallow(c, x))
  {
  }

  lemma TextsTyped(ts: seq<Utf8>)
    ensures AllTyped(Text, TextValues(ts)) && AllShallow(Text, TextValues(ts))
    ensures AllFit(Text, TextValues(ts)) <==> forall i | 0 <= i < |ts| :: |ts[i]| < U32_LIMIT
    ensures TextsOf(TextValues(ts)) == ts
  {
    hide ValidUtf8;
    var vs := TextValues(ts);
    if AllFit(Text, vs) {
      forall i | 0 <= i < |ts| ensures |ts[i]| < U32_LIMIT {
        assert Fits(Text, vs[i]);
      }
    }
  }

  lemma LeavesTyped(name: Utf8, ret: CLType, contract: bool)
    ensures var kind, s := Alt(contract, Nil), EntryPointTypeSchema();
            HasType(s, kind) && Fits(s, kind) && Shallow(s, kind)
    ensures HasType(Text, Raw(name)) && Shallow(Text, Raw(name)) && (Fits(Text, Raw(name)) <==> |name| < U32_LIMIT)
    ensures HasType(Type, TypeOf(ret)) && Fits(Type, TypeOf(ret)) && (Shallow(Type, TypeOf(ret)) <==> Within(ret))
  {
  }

  lemma EntryPointTyped(e: EntryPoint)
    ensures HasType(EntryPointSchema(), EntryPointValue(e))
    ensures EntryPointOf(EntryPointValue(e)) == e
    ensures Fits(EntryPointSchema(), EntryPointValue(e)) <==> Representable(e)
    ensures Shallow(EntryPointSchema(), EntryPointValue(e)) <==> TypesWithin(e)
  {
    var args, access := ParameterValues(e.args), AccessValue(e.access);
    var kind := Alt(e.entryPointType.Contract?, Nil);
    LeavesTyped(e.name, e.ret, e.entryPointType.Contract?);
    hide HasType, Fits, Shallow, AllTyped, AllFit, AllShallow, Within;
    hide AccessValue, AccessFits, ParameterValues, AccessSchema, ParameterSchema, AccessOf, EntryPointTypeSchema;
    ParametersTyped(e.args);
    AccessTyped(e.access);
    VecTyped(ParameterSchema(), args);
    var tail3 := Pair(AccessSchema(), EntryPointTypeSchema());
    var tail2 := Pair(Type, tail3);
    var tail1 := Pair(Vec(ParameterSchema()), tail2);
    PairTyped(AccessSchema(), EntryPointTypeSchema(), access, kind);
    PairTyped(Type, tail3, TypeOf(e.ret), Both(access, kind));
    PairTyped(Vec(ParameterSchema()), tail2, Items(args), Both(TypeOf(e.ret), Both(access, kind)));
    PairTyped(Text, tail1, Raw(e.name), Both(Items(args), Both(TypeOf(e.ret), Both(access, kind))));
  }

  function EntryPointBytes(e: EntryPoint): Bytes {
    EntryPointTyped(e);
    EntryPointSchemaIsCanonical();
    Encode(EntryPointSchema(), EntryPointValue(e))
  }

  function EntryPointFromBytes(bytes: Bytes): Decoded<EntryPoint> {
    EntryPointSchemaIsCanonical();
    var (v, rest) :- Decode(EntryPointSchema(), bytes);
    DecodeEncode(EntryPointSchema(), bytes);
    Ok((EntryPointOf(v), rest))
  }

  /** A list of strings behind its four-byte count. */
  function SizedTexts(ts: seq<Utf8>): Bytes {
    if ts == [] then [] else Sized(ts[0]) + SizedTexts(ts[1..])
  }

  /** The parameters one after another: name behind its count, then type. */
  function SizedParameters(ps: seq<Parameter>): Bytes {
    if ps == [] then [] else (Sized(ps[0].name) + ClTypes.Print(ps[0].clType)) + SizedParameters(ps[1..])
  }

  lemma {:induction false} TextsFormat(ts: seq<Utf8>)
    ensures AllTyped(Text, TextValues(ts)) && EncodeMany(Text, TextValues(ts)) == SizedTexts(ts)
  {
    hide LeBytes;
    TextsTyped(ts);
    if ts != [] {
      TextsFormat(ts[1..]);
      assert TextValues(ts)[1..] == TextValues(ts[1..]);
      assert Encode(Text, Raw(ts[0])) == Sized(ts[0]);
    }
  }

  lemma {:induction false} ParametersFormat(ps: seq<Parameter>)
    ensures AllTyped(ParameterSchema(), ParameterValues(ps))
    ensures EncodeMany(ParameterSchema(), ParameterValues(ps)) == SizedParameters(ps)
  {
    hide LeBytes, Encode, HasType, AllTyped, ParameterSchema, ParameterValue, ClTypes.Print;
    ParametersTyped(ps);
    if ps != [] {
      ParametersFormat(ps[1..]);
      assert ParameterValues(ps)[1..] == ParameterValues(ps[1..]);
      ParameterFormat(ps[0]);
    }
  }

  lemma ParameterFormat(p: Parameter)
    ensures HasType(ParameterSchema(), ParameterValue(p)) && WellFormed(ParameterSchema())
    ensures Encode(ParameterSchema(), ParameterValue(p)) == Sized(p.name) + ClTypes.Print(p.clType)
  {
    hide LeBytes, ClTypes.Print;
    ParameterTyped(p);
  }

  /** Access: 1 for public, 2 before the groups. */
  function AccessBytes(a: EntryPointAccess): Bytes {
    match a
    case Public => [1]
    case Groups(gs) => [2] + (LeBytes(|gs|, 4) + SizedTexts(gs))
  }

  lemma AccessFormat(a: EntryPointAccess)
    ensures HasType(AccessSchema(), AccessValue(a)) && WellFormed(AccessSchema())
    ensures Encode(AccessSchema(), AccessValue(a)) == AccessBytes(a)
  {
    hide LeBytes, SizedTexts, EncodeMany, AllTyped;
    AccessTyped(a);
    match a
    case Public => assert [1] + [] == [1 as Byte];
    case Groups(gs) => TextsFormat(gs);
  }

  /** An entry point: name, counted parameters, return type, access, and 0 for session or 1 for contract code. */
  lemma EntryPointFormat(e: EntryPoint)
    ensures EntryPointBytes(e)
         == Sized(e.name) + ((LeBytes(|e.args|, 4) + SizedParameters(e.args))
            + (ClTypes.Print(e.ret) + (AccessBytes(e.access) + [if e.entryPointType.Contract? then 1 else 0])))
  {
    var args, access := Items(ParameterValues(e.args)), AccessValue(e.access);
    var kind := Alt(e.entryPointType.Contract?, Nil);
    LeafFormats(e);
    hide Encode, HasType, Fits, Shallow, AllTyped, LeBytes, ClTypes.Print, SizedParameters, AccessBytes;
    hide AccessValue, ParameterValues, AccessSchema, ParameterSchema, EntryPointTypeSchema;
    EntryPointTyped(e);
    AccessFormat(e.access);
    var tail3 := Pair(AccessSchema(), EntryPointTypeSchema());
    var tail2 := Pair(Type, tail3);
    var tail1 := Pair(Vec(ParameterSchema()), tail2);
    PairTyped(AccessSchema(), EntryPointTypeSchema(), access, kind);
    PairTyped(Type, tail3, TypeOf(e.ret), Both(access, kind));
    PairTyped(Vec(ParameterSchema()), tail2, args, Both(TypeOf(e.ret), Both(access, kind)));
    EncodePair(AccessSchema(), EntryPointTypeSchema(), access, kind);
    EncodePair(Type, tail3, TypeOf(e.ret), Both(access, kind));
    EncodePair(Vec(ParameterSchema()), tail2, args, Both(TypeOf(e.ret), Both(access, kind)));
    EncodePair(Text, tail1, Raw(e.name), Both(args, Both(TypeOf(e.ret), Both(access, kind))));
  }

  lemma LeafFormats(e: EntryPoint)
    ensures var kind, s := Alt(e.entryPointType.Contract?, Nil), EntryPointTypeSchema();
            && WellFormed(s) && HasType(s, kind)
            && Encode(s, kind) == [if e.entryPointType.Contract? then 1 else 0]
    ensures HasType(Text, Raw(e.name)) && Encode(Text, Raw(e.name)) == Sized(e.name)
    ensures HasType(Type, TypeOf(e.ret)) && Encode(Type, TypeOf(e.ret)) == ClTypes.Print(e.ret)
    ensures var s, args := Vec(ParameterSchema()), Items(ParameterValues(e.args));
            && WellFormed(s) && HasType(s, args)
            && Encode(s, args) == LeBytes(|e.args|, 4) + SizedParameters(e.args)
  {
    hide LeBytes, ClTypes.Print, AllTyped, EncodeMany, SizedParameters, ParameterValues;
    ParametersFormat(e.args);
  }

  /** An entry point survives with any suffix exactly when all its types are within the limit. */
  lemma EntryPointRoundTrip(e: EntryPoint, rest: Bytes)
    requires Representable(e)
    ensures EntryPointFromBytes(EntryPointBytes(e) + rest)
         == if TypesWithin(e) then Ok((e, rest)) else Err(ExceededRecursionDepth)
  {
    hide Encode, Decode, HasType, EntryPointOf, EntryPointValue, EntryPointSchema, Shallow, Fits;
    EntryPointTyped(e);
    assert WellFormed(EntryPointSchema()) by { EntryPointSchemaIsCanonical(); }
    EncodeDecode(EntryPointSchema(), EntryPointValue(e), rest);
  }

  lemma EntryPointSchemaIsCanonical()
    ensures WellFormed(EntryPointSchema()) && Canonical(EntryPointSchema())
  {
  }

  /** Every value of the entry point schema is the value of an entry point. */
  lemma ValueOfEntryPoint(v: Value)
    requires HasType(EntryPointSchema(), v)
    ensures EntryPointValue(EntryPointOf(v)) == v
  {
    hide HasType, AllTyped, AccessSchema, ParameterSchema, EntryPointTypeSchema;
    hide ParametersOf, ParameterValues, AccessOf, AccessValue;
    EntryPointParts(v);
    var access, kind := v.snd.snd.snd.fst, v.snd.snd.snd.snd;
    ValuesOfParameters(v.snd.fst.items);
    ValueOfAccess(access);
    assert kind == Alt(kind.second, Nil);
  }

  lemma EntryPointParts(v: Value)
    requires HasType(EntryPointSchema(), v)
    ensures v.Both? && v.fst.Raw? && ValidUtf8(v.fst.bytes)
    ensures v.snd.Both? && v.snd.fst.Items? && AllTyped(ParameterSchema(), v.snd.fst.items)
    ensures v.snd.snd.Both? && v.snd.snd.fst.TypeOf?
    ensures var last := v.snd.snd.snd;
            && last.Both? && HasType(AccessSchema(), last.fst)
            && last.snd.Alt? && last.snd.payload == Nil
  {
    hide AllTyped, ValidUtf8, AccessSchema, ParameterSchema;
  }

  lemma ValuesOfParameters(vs: seq<Value>)
    requires AllTyped(ParameterSchema(), vs)
    ensures ParameterValues(ParametersOf(vs)) == vs
  {
  }

  lemma ValueOfAccess(v: Value)
    requires HasType(AccessSchema(), v)
    ensures AccessValue(AccessOf(v)) == v
  {
  }

  /** Bytes accepted as an entry point are its encoding, and the entry point respects every limit. */
  lemma EntryPointReprints(bytes: Bytes)
    requires EntryPointFromBytes(bytes).Ok?
    ensures var (e, rest) := EntryPointFromBytes(bytes).value;
            bytes == EntryPointBytes(e) + rest && Representable(e) && TypesWithin(e)
  {
    hide Encode, Decode, HasType, EntryPointOf, EntryPointValue, EntryPointSchema;
    hide Shallow, Fits, Representable, TypesWithin;
    EntryPointSchemaIsCanonical();
    DecodeEncode(EntryPointSchema(), bytes);
    var v := Decode(EntryPointSchema(), bytes).value.0;
    ValueOfEntryPoint(v);
    EntryPointTyped(EntryPointOf(v));
  }

  // ----- Parameters ------------------------------------------------------------------------------

  function ParameterBytes(p: Parameter): Bytes {
    ParameterTyped(p);
    Encode(ParameterSchema(), ParameterValue(p))
  }

  function ParameterFromBytes(bytes: Bytes): Decoded<Parameter> {
    var (v, rest) :- Decode(ParameterSchema(), bytes);
    DecodeEncode(ParameterSchema(), bytes);
    Ok((ParameterOf(v), rest))
  }

  lemma ParameterRoundTrip(p: Parameter, rest: Bytes)
    requires |p.name| < U32_LIMIT
    ensures ParameterFromBytes(ParameterBytes(p) + rest)
         == if Within(p.clType) then Ok((p, rest)) else Err(ExceededRecursionDepth)
  {
    ParameterTyped(p);
    EncodeDecode(ParameterSchema(), ParameterValue(p), rest);
  }
}
