/** `hash_btree_map`: the Merkle root over the hashed entries of an ordered map, and what it binds. */
module MapHash {
  import opened Basics
  import opened Hashing
  import opened Wire
  import opened Values
  import opened Codec
  import opened CodecLaws
  import opened CodecTheorems

  /** The bytes hashed for one entry: the digest of the key, then the digest of the value. */
  function EntryInput(h: Hasher, k: Schema, e: Schema, x: Value): (input: Bytes)
    requires WellFormed(Pair(k, e)) && HasType(Pair(k, e), x)
    ensures |input| == 2 * DIGEST_LENGTH
  {
    h(Encode(k, x.fst)) + h(Encode(e, x.snd))
  }

  function EntryHashes(h: Hasher, k: Schema, e: Schema, xs: seq<Value>): (ds: seq<Digest>)
    requires WellFormed(Pair(k, e)) && AllTyped(Pair(k, e), xs)
    ensures |ds| == |xs|
  {
    if xs == [] then [] else [h(EntryInput(h, k, e, xs[0]))] + EntryHashes(h, k, e, xs[1..])
  }

  /** `hash_btree_map`: fails exactly if some key or value cannot be serialised. */
  function HashBTreeMap(h: Hasher, chunkSize: nat, k: Schema, e: Schema, m: Value): Result<Digest, Error>
    requires WellFormed(Map(k, e)) && HasType(Map(k, e), m)
  {
    if AllFit(Pair(k, e), m.items) then Ok(HashMerkleTree(h, chunkSize, EntryHashes(h, k, e, m.items)))
    else Err(NotRepresentable)
  }

  method ComputeHashBTreeMap(h: Hasher, chunkSize: nat, k: Schema, e: Schema, m: Value)
    returns (r: Result<Digest, Error>)
    requires WellFormed(Map(k, e)) && HasType(Map(k, e), m)
    ensures r == HashBTreeMap(h, chunkSize, k, e, m)
  {
    var hashes :- HashEntries(h, k, e, m.items);
    r := Ok(HashMerkleTree(h, chunkSize, hashes));
  }

  /** The loop of `hash_btree_map`, pushing one digest per entry, or stopping at the first error. */
  method HashEntries(h: Hasher, k: Schema, e: Schema, xs: seq<Value>) returns (r: Result<seq<Digest>, Error>)
    requires WellFormed(Pair(k, e)) && AllTyped(Pair(k, e), xs)
    ensures r == if AllFit(Pair(k, e), xs) then Ok(EntryHashes(h, k, e, xs)) else Err(NotRepresentable)
  {
    hide HasType, EntryHashes, Encode, EntryInput, Fits;
    var hashes: seq<Digest> := [];
    assert xs[0..] == xs;
    for i := 0 to |xs|
      invariant AllTyped(Pair(k, e), xs[i..])
      invariant forall j | 0 <= j < i :: Fits(Pair(k, e), xs[j])
      invariant hashes + EntryHashes(h, k, e, xs[i..]) == EntryHashes(h, k, e, xs)
    {
      var x := xs[i];
      assert xs[i..][0] == x && xs[i..][1..] == xs[i + 1..];
      EntryIsTyped(k, e, x);
      EntryHashesStep(h, k, e, xs[i..]);
      var key :- ToBytes(k, x.fst);
      var value :- ToBytes(e, x.snd);
      var d := HashPair(h, h(key), h(value));
      ConcatAssociative(hashes, [d], EntryHashes(h, k, e, xs[i + 1..]), []);
      hashes := hashes + [d];
    }
    EntryHashesNone(h, k, e);
    assert xs[|xs|..] == [] && hashes + [] == hashes;
    return Ok(hashes);
  }

  lemma EntryHashesNone(h: Hasher, k: Schema, e: Schema)
    requires WellFormed(Pair(k, e))
    ensures EntryHashes(h, k, e, []) == []
  {
  }

  lemma EntryHashesStep(h: Hasher, k: Schema, e: Schema, xs: seq<Value>)
    requires WellFormed(Pair(k, e)) && AllTyped(Pair(k, e), xs) && xs != []
    ensures HasType(Pair(k, e), xs[0])
    ensures EntryHashes(h, k, e, xs)
         == [HashPair(h, h(Encode(k, xs[0].fst)), h(Encode(e, xs[0].snd)))] + EntryHashes(h, k, e, xs[1..])
  {
  }

  lemma EntryIsTyped(k: Schema, e: Schema, x: Value)
    requires HasType(Pair(k, e), x)
    ensures x.Both? && HasType(k, x.fst) && HasType(e, x.snd)
    ensures Fits(Pair(k, e), x) <==> Fits(k, x.fst) && Fits(e, x.snd)
  {
  }

  function EntryClash(h: Hasher, k: Schema, e: Schema, x: Value, y: Value): Clash
    requires WellFormed(Pair(k, e)) && HasType(Pair(k, e), x) && HasType(Pair(k, e), y)
  {
    if EntryInput(h, k, e, x) != EntryInput(h, k, e, y) then Some((EntryInput(h, k, e, x), EntryInput(h, k, e, y)))
    else if x.fst != y.fst then Some((Encode(k, x.fst), Encode(k, y.fst)))
    else if x.snd != y.snd then Some((Encode(e, x.snd), Encode(e, y.snd)))
    else None
  }

  lemma EntryBinding(h: Hasher, k: Schema, e: Schema, x: Value, y: Value)
    requires WellFormed(Pair(k, e)) && Encodable(Pair(k, e), x) && Encodable(Pair(k, e), y)
    requires h(EntryInput(h, k, e, x)) == h(EntryInput(h, k, e, y))
    ensures Sound(h, EntryClash(h, k, e, x, y))
    ensures x == y || EntryClash(h, k, e, x, y).Some?
  {
    hide Encode;
    var a: Bytes, b: Bytes := h(Encode(k, x.fst)), h(Encode(e, x.snd));
    var c: Bytes, d: Bytes := h(Encode(k, y.fst)), h(Encode(e, y.snd));
    if a + b == c + d {
      ConcatInjective(a, b, c, d);
      if Encode(k, x.fst) == Encode(k, y.fst) {
        PrefixFree(k, x.fst, y.fst);
      }
      if Encode(e, x.snd) == Encode(e, y.snd) {
        PrefixFree(e, x.snd, y.snd);
      }
    }
  }

  function EntriesClash(h: Hasher, k: Schema, e: Schema, xs: seq<Value>, ys: seq<Value>): Clash
    requires WellFormed(Pair(k, e)) && AllTyped(Pair(k, e), xs) && AllTyped(Pair(k, e), ys)
    requires |xs| == |ys|
  {
    if xs == [] then None
    else if xs[0] != ys[0] then EntryClash(h, k, e, xs[0], ys[0])
    else EntriesClash(h, k, e, xs[1..], ys[1..])
  }

  lemma {:induction false} EntriesBinding(h: Hasher, k: Schema, e: Schema, xs: seq<Value>, ys: seq<Value>)
    requires WellFormed(Pair(k, e)) && AllTyped(Pair(k, e), xs) && AllTyped(Pair(k, e), ys)
    requires AllFit(Pair(k, e), xs) && AllFit(Pair(k, e), ys)
    requires EntryHashes(h, k, e, xs) == EntryHashes(h, k, e, ys)
    ensures |xs| == |ys| && Sound(h, EntriesClash(h, k, e, xs, ys))
    ensures xs == ys || EntriesClash(h, k, e, xs, ys).Some?
  {
    hide HasType, Fits, EntryInput, EntryClash;
    assert |xs| == |EntryHashes(h, k, e, xs)| == |ys|;
    if xs != [] {
      assert EntryHashes(h, k, e, xs)[0] == EntryHashes(h, k, e, ys)[0];
      assert EntryHashes(h, k, e, xs)[1..] == EntryHashes(h, k, e, ys)[1..];
      EntryBinding(h, k, e, xs[0], ys[0]);
      EntriesBinding(h, k, e, xs[1..], ys[1..]);
      assert xs == [xs[0]] + xs[1..] && ys == [ys[0]] + ys[1..];
    }
  }

  function MapClash(h: Hasher, chunkSize: nat, k: Schema, e: Schema, m: Value, n: Value): Clash
    requires WellFormed(Map(k, e)) && HasType(Map(k, e), m) && HasType(Map(k, e), n)
    requires 0 < |m.items| < U64_LIMIT && 0 < |n.items| < U64_LIMIT
  {
    var c := MerkleClash(h, chunkSize, EntryHashes(h, k, e, m.items), EntryHashes(h, k, e, n.items));
    if c.Some? then c
    else if |m.items| == |n.items| then EntriesClash(h, k, e, m.items, n.items)
    else None
  }

  /** An input that hashes to the root reserved for trees without leaves. */
  predicate SentinelPreimage(h: Hasher, input: Bytes) {
    h(input) == SENTINEL_MERKLE_TREE
  }

  function MapRootInput(h: Hasher, chunkSize: nat, k: Schema, e: Schema, m: Value): Bytes
    requires WellFormed(Map(k, e)) && HasType(Map(k, e), m) && 0 < |m.items| < U64_LIMIT
  {
    MerkleRootInput(chunkSize, |m.items|, RawRoot(h, EntryHashes(h, k, e, m.items)))
  }

  /**
   Two maps with one digest are equal, or a collision of the underlying hash is in hand, or one map
   is empty and the other yields an input that hashes to the reserved root.
   */
  lemma MapBinding(h: Hasher, chunkSize: nat, k: Schema, e: Schema, m: Value, n: Value)
    requires WellFormed(Map(k, e)) && HasType(Map(k, e), m) && HasType(Map(k, e), n)
    requires |m.items| < U64_LIMIT && |n.items| < U64_LIMIT
    requires HashBTreeMap(h, chunkSize, k, e, m).Ok?
    requires HashBTreeMap(h, chunkSize, k, e, m) == HashBTreeMap(h, chunkSize, k, e, n)
    ensures m.items != [] && n.items != [] ==>
              Sound(h, MapClash(h, chunkSize, k, e, m, n)) && (m == n || MapClash(h, chunkSize, k, e, m, n).Some?)
    ensures m.items == [] && n.items != [] ==> SentinelPreimage(h, MapRootInput(h, chunkSize, k, e, n))
    ensures m.items != [] && n.items == [] ==> SentinelPreimage(h, MapRootInput(h, chunkSize, k, e, m))
  {
    hide AllTyped, AllFit, EntryHashes, MerkleClash, EntriesClash, RawRoot;
    var xs, ys := EntryHashes(h, k, e, m.items), EntryHashes(h, k, e, n.items);
    if xs != [] { HashMerkleTreeIsRawRoot(h, chunkSize, xs); }
    if ys != [] { HashMerkleTreeIsRawRoot(h, chunkSize, ys); }
    if xs != [] && ys != [] {
      MerkleBinding(h, chunkSize, xs, ys);
      if xs == ys {
        EntriesBinding(h, k, e, m.items, n.items);
      }
    }
  }
}
