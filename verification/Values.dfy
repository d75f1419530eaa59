/**
 The types and values of the codec: one universe of schemas for all the Rust types that are built
 from integers, strings, vectors, options, results, tuples, sets, maps and `CLType`.
 */
module Values {
  import opened Basics
  import opened Wire
  import ClTypes

  /** A Rust type with a `ToBytes`/`FromBytes` implementation. */
  datatype Schema =
    | Unit
    | UInt(width: nat)                 // u8, u16, u32, u64: 1, 2, 4 or 8 bytes
    | SInt(width: nat)                 // i32, i64: 4 or 8 bytes
    | Big(width: nat)                  // U128, U256, U512: at most 16, 32 or 64 bytes
    | Text                             // String
    | Blob                             // Bytes
    | Array(len: nat)                  // [u8; len]
    | Vec(elem: Schema)
    | Pair(first: Schema, second: Schema)
    | Choice(tag0: Byte, case0: Schema, tag1: Byte, case1: Schema) // case0 is declared first
    | Map(key: Schema, elem: Schema)
    | Type                             // CLType

  function Bool(): Schema { Choice(0, Unit, 1, Unit) }

  function OptionOf(s: Schema): Schema { Choice(0, Unit, 1, s) }

  /** `Ok` is declared before `Err` but has the greater tag. */
  function ResultOf(ok: Schema, err: Schema): Schema { Choice(1, ok, 0, err) }

  function Triple(a: Schema, b: Schema, c: Schema): Schema { Pair(a, Pair(b, c)) }

  /** A `BTreeSet<T>` is laid out like a `BTreeMap<T, ()>`. */
  function SetOf(s: Schema): Schema { Map(s, Unit) }

  datatype Value =
    | Nil
    | Num(n: int)
    | Raw(bytes: Bytes)
    | Items(items: seq<Value>)
    | Both(fst: Value, snd: Value)
    | Alt(second: bool, payload: Value)
    | TypeOf(clType: ClTypes.CLType)

  function Rank(s: Schema): nat {
    match s
    case Vec(e) => 1 + Rank(e)
    case Pair(a, b) => 1 + Rank(a) + Rank(b)
    case Choice(_, a, _, b) => 1 + Rank(a) + Rank(b)
    case Map(k, e) => 2 + Rank(k) + Rank(e)
    case _ => 0
  }

  /** Schemas whose values have an `Ord` that the model covers. */
  predicate Keyable(s: Schema) {
    match s
    case Vec(e) => Keyable(e)
    case Pair(a, b) => Keyable(a) && Keyable(b)
    case Choice(_, a, _, b) => Keyable(a) && Keyable(b)
    case Map(k, e) => Keyable(k) && Keyable(e)
    case Type => false
    case _ => true
  }

  predicate WellFormed(s: Schema) {
    match s
    case SInt(w) => w > 0
    case Big(w) => w < 256
    case Vec(e) => WellFormed(e)
    case Pair(a, b) => WellFormed(a) && WellFormed(b)
    case Choice(t0, a, t1, b) => t0 != t1 && WellFormed(a) && WellFormed(b)
    case Map(k, e) => WellFormed(k) && WellFormed(e) && Keyable(k)
    case _ => true
  }

  // ----- The order of keys -----------------------------------------------------------------------

  predicate BytesLt(xs: Bytes, ys: Bytes) {
    ys != [] && (xs == [] || xs[0] < ys[0] || (xs[0] == ys[0] && BytesLt(xs[1..], ys[1..])))
  }

  /** The derived `Ord`: numbers by size, everything else lexicographically, enums by variant first. */
  predicate Lt(a: Value, b: Value)
    decreases a, 1
  {
    match (a, b)
    case (Num(x), Num(y)) => x < y
    case (Raw(x), Raw(y)) => BytesLt(x, y)
    case (Items(xs), Items(ys)) => ListLt(xs, ys)
    case (Both(x1, x2), Both(y1, y2)) => Lt(x1, y1) || (x1 == y1 && Lt(x2, y2))
    case (Alt(f, x), Alt(g, y)) => (!f && g) || (f == g && Lt(x, y))
    case _ => false
  }

  predicate ListLt(xs: seq<Value>, ys: seq<Value>)
    decreases xs, 0
  {
    ys != [] && (xs == [] || Lt(xs[0], ys[0]) || (xs[0] == ys[0] && ListLt(xs[1..], ys[1..])))
  }

  lemma {:induction false} BytesLtOrder(a: Bytes, b: Bytes, c: Bytes)
    ensures !BytesLt(a, a)
    ensures BytesLt(a, b) && BytesLt(b, c) ==> BytesLt(a, c)
    ensures a == b || BytesLt(a, b) || BytesLt(b, a)
  {
    if a != [] && b != [] {
      var c' := if c == [] then [] else c[1..];
      BytesLtOrder(a[1..], b[1..], c');
      assert a == [a[0]] + a[1..] && b == [b[0]] + b[1..];
    } else if a != [] {
      BytesLtOrder(a[1..], [], []);
    }
  }

  lemma SameHead<T>(a: seq<T>, b: seq<T>, i: nat)
    requires i <= |a| && i <= |b|
    ensures i > 0 && a[..i] == b[..i] ==> a[0] == b[0]
  {
    if i > 0 {
      assert a[..i][0] == a[0] && b[..i][0] == b[0];
    }
  }

  lemma TailOfSlice<T>(a: seq<T>, i: nat)
    requires 0 < i <= |a|
    ensures a[1..][..i - 1] == a[..i][1..]
  {
  }

  /** At the first place where the strings differ, both have a byte and that of `a` is smaller. */
  ghost predicate SmallerByte(a: Bytes, b: Bytes) {
    exists i | 0 <= i < |a| && i < |b| :: a[..i] == b[..i] && a[i] < b[i]
  }

  /** The order of strings and byte arrays is the dictionary order: a proper prefix, or a smaller first difference. */
  lemma {:induction false} BytesLtExactly(a: Bytes, b: Bytes)
    ensures BytesLt(a, b) <==> a < b || SmallerByte(a, b)
  {
    if a != [] && b != [] && a[0] == b[0] {
      var a', b' := a[1..], b[1..];
      BytesLtExactly(a', b');
      assert a == [a[0]] + a' && b == [b[0]] + b';
      if i: int :| 0 <= i < |a'| && i < |b'| && a'[..i] == b'[..i] && a'[i] < b'[i] {
        assert a[..i + 1] == [a[0]] + a'[..i] && b[..i + 1] == [b[0]] + b'[..i];
        assert a[i + 1] < b[i + 1];
      }
      if i: int :| 0 <= i < |a| && i < |b| && a[..i] == b[..i] && a[i] < b[i] {
        assert i > 0;
        TailOfSlice(a, i);
        TailOfSlice(b, i);
        assert a'[i - 1] < b'[i - 1];
      }
    } else if a != [] && b != [] {
      assert a[0] < b[0] ==> a[..0] == b[..0];
      if i: int :| 0 <= i < |a| && i < |b| && a[..i] == b[..i] && a[i] < b[i] {
        SameHead(a, b, i);
      }
    }
  }

  /** At the first place where the lists differ, both have an item and that of `xs` is smaller. */
  ghost predicate SmallerItem(xs: seq<Value>, ys: seq<Value>) {
    exists i | 0 <= i < |xs| && i < |ys| :: xs[..i] == ys[..i] && Lt(xs[i], ys[i])
  }

  /** The order of lists is the dictionary order over the order of their items. */
  lemma {:induction false} ListLtExactly(xs: seq<Value>, ys: seq<Value>)
    ensures ListLt(xs, ys) <==> xs < ys || SmallerItem(xs, ys)
  {
    hide Lt;
    if xs != [] && ys != [] && xs[0] == ys[0] {
      var xs', ys' := xs[1..], ys[1..];
      ListLtExactly(xs', ys');
      assert xs == [xs[0]] + xs' && ys == [ys[0]] + ys';
      if i: int :| 0 <= i < |xs'| && i < |ys'| && xs'[..i] == ys'[..i] && Lt(xs'[i], ys'[i]) {
        assert xs[..i + 1] == [xs[0]] + xs'[..i] && ys[..i + 1] == [ys[0]] + ys'[..i];
        assert Lt(xs[i + 1], ys[i + 1]);
      }
      if i: int :| 0 <= i < |xs| && i < |ys| && xs[..i] == ys[..i] && Lt(xs[i], ys[i]) {
        LtIrreflexive(xs[0]);
        assert i > 0;
        TailOfSlice(xs, i);
        TailOfSlice(ys, i);
        assert Lt(xs'[i - 1], ys'[i - 1]);
      }
    } else if xs != [] && ys != [] {
      assert Lt(xs[0], ys[0]) ==> xs[..0] == ys[..0];
      if i: int :| 0 <= i < |xs| && i < |ys| && xs[..i] == ys[..i] && Lt(xs[i], ys[i]) {
        SameHead(xs, ys, i);
      }
    }
  }

  /** The order of keys: numbers by size, strings and lists as in a dictionary, pairs and variants first part first. */
  lemma LtExactly(a: Value, b: Value)
    ensures a.Num? && b.Num? ==> (Lt(a, b) <==> a.n < b.n)
    ensures a.Raw? && b.Raw? ==> (Lt(a, b) <==> a.bytes < b.bytes || SmallerByte(a.bytes, b.bytes))
    ensures a.Items? && b.Items? ==> (Lt(a, b) <==> a.items < b.items || SmallerItem(a.items, b.items))
    ensures a.Both? && b.Both? ==> (Lt(a, b) <==> if a.fst != b.fst then Lt(a.fst, b.fst) else Lt(a.snd, b.snd))
    ensures a.Alt? && b.Alt? ==>
              (Lt(a, b) <==> if a.second != b.second then b.second else Lt(a.payload, b.payload))
  {
    match a
    case Raw(x) => if b.Raw? { BytesLtExactly(x, b.bytes); }
    case Items(xs) => if b.Items? { ListLtExactly(xs, b.items); }
    case Both(x, _) => LtIrreflexive(x);
    case _ =>
  }

  lemma {:induction false} LtIrreflexive(a: Value)
    ensures !Lt(a, a)
    decreases a, 1
  {
    match a
    case Raw(x) => BytesLtOrder(x, x, x);
    case Items(xs) => ListLtIrreflexive(xs);
    case Both(x, y) => LtIrreflexive(x); LtIrreflexive(y);
    case Alt(_, x) => LtIrreflexive(x);
    case _ =>
  }

  lemma {:induction false} ListLtIrreflexive(xs: seq<Value>)
    ensures !ListLt(xs, xs)
    decreases xs, 0
  {
    if xs != [] {
      LtIrreflexive(xs[0]);
      ListLtIrreflexive(xs[1..]);
    }
  }

  lemma {:induction false} LtTransitive(a: Value, b: Value, c: Value)
    requires Lt(a, b) && Lt(b, c)
    ensures Lt(a, c)
    decreases a, 1
  {
    match a
    case Num(_) =>
    case Raw(x) => BytesLtOrder(x, b.bytes, c.bytes);
    case Items(xs) => ListLtTransitive(xs, b.items, c.items);
    case Both(x, y) =>
      if Lt(x, b.fst) && Lt(b.fst, c.fst) {
        LtTransitive(x, b.fst, c.fst);
      } else if x == b.fst == c.fst {
        LtTransitive(y, b.snd, c.snd);
      }
    case Alt(_, x) =>
      if a.second == b.second == c.second {
        LtTransitive(x, b.payload, c.payload);
      }
  }

  lemma {:induction false} ListLtTransitive(xs: seq<Value>, ys: seq<Value>, zs: seq<Value>)
    requires ListLt(xs, ys) && ListLt(ys, zs)
    ensures ListLt(xs, zs)
    decreases xs, 0
  {
    if xs != [] {
      if Lt(xs[0], ys[0]) && Lt(ys[0], zs[0]) {
        LtTransitive(xs[0], ys[0], zs[0]);
      } else if xs[0] == ys[0] == zs[0] {
        ListLtTransitive(xs[1..], ys[1..], zs[1..]);
      }
    }
  }

  // ----- Typing ----------------------------------------------------------------------------------

  /** The key of a map entry. */
  function Key(e: Value): Value {
    if e.Both? then e.fst else e
  }

  predicate AllAbove(k: Value, es: seq<Value>) {
    forall i | 0 <= i < |es| :: Lt(k, Key(es[i]))
  }

  /** Strictly ascending keys. */
  predicate Ascending(es: seq<Value>) {
    es == [] || (AllAbove(Key(es[0]), es[1..]) && Ascending(es[1..]))
  }

  predicate HasType(s: Schema, v: Value)
    decreases Rank(s), 0
  {
    match s
    case Unit => v.Nil?
    case UInt(w) => v.Num? && 0 <= v.n < Pow256(w)
    case SInt(w) => v.Num? && 0 <= 2 * v.n + Pow256(w) < 2 * Pow256(w)
    case Big(w) => v.Num? && 0 <= v.n < Pow256(w)
    case Text => v.Raw? && ValidUtf8(v.bytes)
    case Blob => v.Raw?
    case Array(len) => v.Raw? && |v.bytes| == len
    case Vec(e) => v.Items? && AllTyped(e, v.items)
    case Pair(a, b) => v.Both? && HasType(a, v.fst) && HasType(b, v.snd)
    case Choice(_, a, _, b) => v.Alt? && HasType(if v.second then b else a, v.payload)
    case Map(k, e) => v.Items? && AllTyped(Pair(k, e), v.items) && Ascending(v.items)
    case Type => v.TypeOf?
  }

  predicate AllTyped(s: Schema, vs: seq<Value>)
    decreases Rank(s), 1
  {
    forall i | 0 <= i < |vs| :: HasType(s, vs[i])
  }

  lemma TypedByFirst(s: Schema, vs: seq<Value>)
    ensures AllTyped(s, vs) <==> vs == [] || (HasType(s, vs[0]) && AllTyped(s, vs[1..]))
  {
    hide HasType;
    assert forall i | 0 < i < |vs| :: vs[i] == vs[1..][i - 1];
  }

  /** Two values of one keyable type are comparable. */
  lemma {:induction false} LtTotal(s: Schema, a: Value, b: Value)
    requires Keyable(s) && HasType(s, a) && HasType(s, b)
    ensures a == b || Lt(a, b) || Lt(b, a)
    decreases Rank(s), 0, 0
  {
    match s
    case Text => BytesLtOrder(a.bytes, b.bytes, []);
    case Blob => BytesLtOrder(a.bytes, b.bytes, []);
    case Array(_) => BytesLtOrder(a.bytes, b.bytes, []);
    case Vec(e) => ListLtTotal(e, a.items, b.items);
    case Pair(x, y) =>
      LtTotal(x, a.fst, b.fst);
      LtTotal(y, a.snd, b.snd);
    case Choice(_, x, _, y) =>
      if a.second == b.second {
        LtTotal(if a.second then y else x, a.payload, b.payload);
      }
    case Map(k, e) => ListLtTotal(Pair(k, e), a.items, b.items);
    case _ =>
  }

  lemma {:induction false} ListLtTotal(s: Schema, xs: seq<Value>, ys: seq<Value>)
    requires Keyable(s) && AllTyped(s, xs) && AllTyped(s, ys)
    ensures xs == ys || ListLt(xs, ys) || ListLt(ys, xs)
    decreases Rank(s), 1, |xs|
  {
    if xs != [] && ys != [] {
      LtTotal(s, xs[0], ys[0]);
      ListLtTotal(s, xs[1..], ys[1..]);
      assert xs == [xs[0]] + xs[1..] && ys == [ys[0]] + ys[1..];
    }
  }

  // ----- Ordered maps ----------------------------------------------------------------------------

  /** `BTreeMap::insert` on the entries in key order. */
  function Insert(m: seq<Value>, e: Value): (r: seq<Value>)
    ensures |r| <= |m| + 1
  {
    if m == [] then [e]
    else if Key(e) == Key(m[0]) then [e] + m[1..]
    else if Lt(Key(e), Key(m[0])) then [e] + m
    else [m[0]] + Insert(m[1..], e)
  }

  function InsertAll(m: seq<Value>, es: seq<Value>): (r: seq<Value>)
    ensures |r| <= |m| + |es|
    decreases |es|
  {
    if es == [] then m else InsertAll(Insert(m, es[0]), es[1..])
  }

  /** The map that entries read one after another make. */
  function FromEntries(es: seq<Value>): seq<Value> {
    InsertAll([], es)
  }

  function Lookup(m: seq<Value>, k: Value): Option<Value> {
    if m == [] then None
    else if m[0].Both? && m[0].fst == k then Some(m[0].snd)
    else Lookup(m[1..], k)
  }

  function LastValue(es: seq<Value>, k: Value): Option<Value> {
    if es == [] then None
    else
      var last := es[|es| - 1];
      if last.Both? && last.fst == k then Some(last.snd) else LastValue(es[..|es| - 1], k)
  }

  lemma {:induction false} InsertAtEnd(m: seq<Value>, e: Value)
    requires Ascending(m) && forall i | 0 <= i < |m| :: Lt(Key(m[i]), Key(e))
    ensures Insert(m, e) == m + [e] && Ascending(m + [e])
  {
    if m != [] {
      if Lt(Key(e), Key(m[0])) {
        LtTransitive(Key(e), Key(m[0]), Key(e));
      }
      LtIrreflexive(Key(e));
      InsertAtEnd(m[1..], e);
      assert (m + [e])[1..] == m[1..] + [e];
      assert m == [m[0]] + m[1..];
    }
  }

  /** Keys of the first part lie below keys of the second. */
  predicate Below(m: seq<Value>, es: seq<Value>) {
    forall i, j | 0 <= i < |m| && 0 <= j < |es| :: Lt(Key(m[i]), Key(es[j]))
  }

  lemma BelowShift(m: seq<Value>, es: seq<Value>)
    requires es != [] && Ascending(es) && Below(m, es)
    ensures Below(m + [es[0]], es[1..])
  {
    hide Lt, Key;
    forall i, j | 0 <= i < |m| + 1 && 0 <= j < |es| - 1
      ensures Lt(Key((m + [es[0]])[i]), Key(es[1..][j]))
    {
      assert es[1..][j] == es[j + 1];
      if i < |m| {
        assert (m + [es[0]])[i] == m[i];
      }
    }
  }

  lemma {:induction false} InsertAllAscending(m: seq<Value>, es: seq<Value>)
    requires Ascending(m) && Ascending(es) && Below(m, es)
    ensures InsertAll(m, es) == m + es
    decreases |es|
  {
    hide Lt, Key, Insert;
    if es == [] {
      assert m + es == m;
    } else {
      var e := es[0];
      assert forall i | 0 <= i < |m| :: Lt(Key(m[i]), Key(e));
      InsertAtEnd(m, e);
      BelowShift(m, es);
      InsertAllAscending(m + [e], es[1..]);
      assert (m + [e]) + es[1..] == m + es;
    }
  }

  /** Entries that already are a map come out unchanged. */
  lemma FromEntriesAscending(es: seq<Value>)
    requires Ascending(es)
    ensures FromEntries(es) == es
  {
    InsertAllAscending([], es);
  }

  /** What stands behind the first entry after an insertion. */
  lemma InsertTail(m: seq<Value>, x: Value)
    ensures var r := Insert(m, x);
            && r != []
            && (|| (r[0] == x && r[1..] == m)
                || (m != [] && r[0] == x && r[1..] == m[1..])
                || (m != [] && r[0] == m[0] && r[1..] == Insert(m[1..], x)))
  {
    hide Lt, Key;
  }

  lemma {:induction false} InsertTyped(s: Schema, m: seq<Value>, x: Value)
    requires AllTyped(s, m) && HasType(s, x)
    ensures AllTyped(s, Insert(m, x))
  {
    hide HasType, AllTyped, Insert;
    InsertTail(m, x);
    TypedByFirst(s, m);
    TypedByFirst(s, Insert(m, x));
    if m != [] {
      InsertTyped(s, m[1..], x);
    }
  }

  lemma {:induction false} InsertKeepsOrder(k: Schema, e: Schema, m: seq<Value>, x: Value, low: Value)
    requires Keyable(k) && AllTyped(Pair(k, e), m) && HasType(Pair(k, e), x) && Ascending(m)
    ensures Ascending(Insert(m, x))
    ensures AllAbove(low, m) && Lt(low, Key(x)) ==> AllAbove(low, Insert(m, x))
  {
    if m != [] {
      LtTotal(k, Key(x), Key(m[0]));
      if Key(x) != Key(m[0]) {
        if Lt(Key(x), Key(m[0])) {
          forall i | 0 <= i < |m| ensures Lt(Key(x), Key(m[i])) {
            if i > 0 {
              assert m[i] == m[1..][i - 1];
              LtTransitive(Key(x), Key(m[0]), Key(m[i]));
            }
          }
        } else {
          InsertKeepsOrder(k, e, m[1..], x, Key(m[0]));
          InsertKeepsOrder(k, e, m[1..], x, low);
        }
      }
    }
  }

  /** Entries in any order, with any repetitions, make a well-typed map. */
  lemma {:induction false} InsertAllTyped(k: Schema, e: Schema, m: seq<Value>, es: seq<Value>)
    requires Keyable(k) && AllTyped(Pair(k, e), m) && AllTyped(Pair(k, e), es) && Ascending(m)
    ensures AllTyped(Pair(k, e), InsertAll(m, es)) && Ascending(InsertAll(m, es))
    decreases |es|
  {
    if es != [] {
      InsertTyped(Pair(k, e), m, es[0]);
      InsertKeepsOrder(k, e, m, es[0], es[0]);
      InsertAllTyped(k, e, Insert(m, es[0]), es[1..]);
    }
  }

  lemma {:induction false} LookupInsert(m: seq<Value>, e: Value, k: Value)
    requires e.Both? && forall i | 0 <= i < |m| :: m[i].Both?
    ensures Lookup(Insert(m, e), k) == if k == e.fst then Some(e.snd) else Lookup(m, k)
    ensures forall i | 0 <= i < |Insert(m, e)| :: Insert(m, e)[i].Both?
  {
    if m != [] {
      LookupInsert(m[1..], e, k);
      assert ([e] + m[1..])[1..] == m[1..] && ([e] + m)[1..] == m;
      assert ([m[0]] + Insert(m[1..], e))[1..] == Insert(m[1..], e);
    }
  }

  lemma {:induction false} LookupInsertAll(m: seq<Value>, es: seq<Value>, k: Value)
    requires forall i | 0 <= i < |m| :: m[i].Both?
    requires forall i | 0 <= i < |es| :: es[i].Both?
    ensures Lookup(InsertAll(m, es), k) == if LastValue(es, k).Some? then LastValue(es, k) else Lookup(m, k)
    decreases |es|
  {
    if es != [] {
      LookupInsert(m, es[0], k);
      LookupInsertAll(Insert(m, es[0]), es[1..], k);
      LastValueCons(es[0], es[1..], k);
      assert es == [es[0]] + es[1..];
    }
  }

  lemma {:induction false} LastValueCons(e: Value, es: seq<Value>, k: Value)
    requires e.Both?
    ensures LastValue([e] + es, k)
         == if LastValue(es, k).Some? then LastValue(es, k) else if e.fst == k then Some(e.snd) else None
  {
    var all := [e] + es;
    assert all[..|all| - 1] == if es == [] then [] else [e] + es[..|es| - 1];
    if es != [] {
      LastValueCons(e, es[..|es| - 1], k);
    }
  }

  /** The last value read for a key is the one the map holds. */
  lemma LastValueWins(es: seq<Value>, k: Value)
    requires forall i | 0 <= i < |es| :: es[i].Both?
    ensures Lookup(FromEntries(es), k) == LastValue(es, k)
  {
    LookupInsertAll([], es, k);
  }
}
