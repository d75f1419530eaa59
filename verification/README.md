# A Dafny model of Casper's hashing and core types

This project models parts of the Casper node's `casper-hashing` and `casper-types` crates and proves
properties of the model with the Dafny verifier (Dafny 4.11). `dafny verify dfyconfig.toml` checks
the whole project.

It covers five components.

- **Merkle trees, indexed proofs and chunked hashing** (`Basics`, `TreeFold`, `ProofTree`, `Hashing`,
  `MerkleProof`, `MerkleSets`, `Chunks`, `MapHash`). BLAKE2b is a parameter: every statement holds for
  every function from byte strings to 32-byte digests. Binding is never stated as "no collision
  exists", which would be false. Each binding statement comes with a computable function that returns
  two concrete byte strings, and the lemma says: the two sides are equal, or those two strings differ
  and have the same digest. The chunk size is a parameter too, so the results cover 8 MiB as well as
  the 10 bytes of the test configuration.
- **The byte codec** (`Wire`, `Utf8`, `ClTypes`, `ClTypeStreams`, `Values`, `Codec`, `CodecLaws`,
  `CodecTheorems`, `CodecTruncation`, `CodecStreams`, `ClValues`). One universe of schemas and values
  stands for all the Rust types built from integers, strings, byte arrays, vectors, options, results,
  tuples, sets, maps and `CLType`. `Option`, `Result` and `bool` are two-way tagged choices, a
  `BTreeSet<T>` is laid out like a `BTreeMap<T, ()>`, and a triple is a pair of a pair. Map keys are
  ordered by the derived `Ord`. The laws are stated for the format as such; the lemmas named `...Format`
  fix its tags, widths and byte order in numbers.
- **Checksummed hex** (`ChecksummedHex`).
- **Account keys and thresholds** (`Accounts`).
- **Context access rights and contract package versions** (`AccessRights`, `ContractPackages`).

Code that works by loops and updates is modelled by methods with loops and by classes, each proved
equal to a specification function; the properties are proved of those functions. Code made of
expressions is modelled by functions.

## What the model shows that a reader might not expect

- A proof for data of at most one chunk never has the digest of that data as its root, short of a
  collision: `hash_bytes_into_chunks_if_necessary` hashes such data directly, while the proof's root
  goes through the padded Merkle root (`Chunks.ChunkRootIsDataHash`).
- A full set of verified chunks for a root determines the Merkle root over those chunks even when
  nothing is known about where the root came from (`Chunks.CollectedChunksMatchRoot`). The
  concatenation has that root as its digest exactly if the chunks are more than one and evenly cut,
  short of a collision (`Chunks.ReassembledDigest`). `ChunkWithProof::verify` does not look at the
  cut, and every cut has chunks that verify (`Chunks.AnyCutVerifies`, `Chunks.UnevenChunksLoseDigest`).
- Decoding accepts more than one byte string per value exactly for the schemas that contain a big
  integer or a map or set (`CodecTheorems.CanonicalExactly`). A big integer may carry leading zero
  bytes, and map entries may come unsorted or repeated.
- A `CLType` higher than 50 can be written but not read back; everything that contains it fails with
  `ExceededRecursionDepth`. What is written is uniquely readable at any height all the same
  (`CodecTheorems.EncodeUnique`), so `hash_btree_map` binds such values too.
- `string_is_same_case` is documented to return false for a string without letters; it returns true,
  and the model follows the code.
- The documentation of `hash_merkle_tree` gives the final step as a plain pair hash of the count and
  the root, and that of `root_hash` speaks of the index; the code hashes a chunk of zeros, the count
  and the root, and the model follows the code.
- `extend` on a context while a grant is outstanding can lose a right when the grant is taken back.
  Once all is released, a right is held exactly if it was there at the start or was extended at a
  moment when it was not outstanding (`AccessRights.ReleasedKeeps`, `AccessRights.ExtensionSurvives`,
  `AccessRights.ExtensionLostOnRelease`).
- A contract version can be disabled exactly if no smaller version key holds its hash
  (`ContractPackages.DisableExactly`, `ContractPackages.CanBeDisabledExactly`). Inserting one hash
  twice makes a version that nothing ever disables (`ContractPackages.SecondInsertNeverDisabled`).
  Its contract then counts as disabled and is the current version at once
  (`ContractPackages.DisabledContractStaysCurrent`).
- The version counter is 32 bits wide: inserting after version 4294967295 issues version 0, and then
  version 0 again (`ContractPackages.InsertExactly`, `ContractPackages.WrappedKeyIsReused`). The model
  wraps, as a release build does.

## Model

| member | source | states |
|---|---|---|
| `TreeFold.LevelFoldIsSplitFold` | hashing/src/lib.rs:140-171 | pairing neighbours level by level, an odd last element carried up, builds the same tree as splitting top-down at the largest power of two below the length, for every combining function |
| `TreeFold.SplitPointIsPower` | hashing/src/indexed_merkle_proof.rs:138-138 | the split point of `n` is the one power of two in `[n/2, n)` |
| `MerkleProof.Pivot` | hashing/src/indexed_merkle_proof.rs:138-138 | shifting 1 by 63 minus the leading zeros of `n - 1` gives the split point of `n`, for every 64-bit `n` above 1 |
| `MerkleProof.DepthFitsInWord` | hashing/src/indexed_merkle_proof.rs:130-146 | for every 64-bit index and count the path has at most 64 directions |
| `MerkleProof.ComputeExpectedProofLength` | hashing/src/indexed_merkle_proof.rs:171-190 | the loop ends without underflow with one more than the depth of the leaf, 0 for no leaves, never more than 65 |
| `MerkleProof.ComputePath` | hashing/src/indexed_merkle_proof.rs:133-146 | the path word holds all directions to the leaf, first direction most significant |
| `MerkleProof.NoBitLost` | hashing/src/indexed_merkle_proof.rs:137-145 | shifting another direction into the path word never drops a set bit |
| `MerkleProof.ComputeRootHash` | hashing/src/indexed_merkle_proof.rs:121-164 | the bit-path loop computes the fold along the path, for proofs of any length |
| `ProofTree.FoldUpIsReference` | hashing/src/indexed_merkle_proof.rs:148-157 | the fold along the path equals the recursive root, for every index in range or not |
| `MerkleProof.RootHashIsReference` | hashing/src/indexed_merkle_proof.rs:356-378 | `root_hash` equals the recursive reference for every index and count and every proof of the expected length |
| `ProofTree.MarkedFold` | hashing/src/indexed_merkle_proof.rs:82-98 | the fold over marked leaves holds the siblings of the marked leaf, or the root if no leaf is marked |
| `ProofTree.FoldNeverPanics` | hashing/src/indexed_merkle_proof.rs:97-97 | two proofs are never joined |
| `ProofTree.SiblingsRoot` | hashing/src/indexed_merkle_proof.rs:91-98 | the leaf and its siblings rebuild the root of the tree |
| `MerkleProof.Completeness` | hashing/src/indexed_merkle_proof.rs:58-108 | every index below the leaf count gets a proof that starts with its leaf, verifies and has the root of the tree; every other index gets the out-of-bounds error |
| `MerkleProof.TamperedProof` | hashing/src/indexed_merkle_proof.rs:192-209 | an index out of range is refused first; another number of digests is refused with the expected and the actual number |
| `MerkleProof.NoEquivocation` | hashing/src/indexed_merkle_proof.rs:192-209 | two verified proofs for one index with one root hash are identical, or a collision is computed |
| `MerkleProof.ProofBinding` | hashing/src/indexed_merkle_proof.rs:121-209 | a verified proof with the root of given leaves is the very proof `new` builds, or a collision is computed |
| `MerkleSets.SetBinding` | hashing/src/indexed_merkle_proof.rs:148-163 | proofs for all leaves with one raw root: that root is the root over their first digests, or a collision is computed |
| `Hashing.MerkleRootInputLayout` | hashing/src/lib.rs:100-118 | the final hash input is a chunk of zeros, the little-endian count and the root |
| `Hashing.HashMerkleTreeIsRawRoot` | hashing/src/lib.rs:159-171 | the tree hash of a non-empty sequence is the padded hash of its count and its top-down root |
| `Hashing.TreeBinding` | hashing/src/lib.rs:159-171 | equal raw roots over equally many leaves: equal leaves, or a collision is computed |
| `Hashing.MerkleBinding` | hashing/src/lib.rs:87-171 | equal tree hashes of non-empty sequences: equal counts and leaves, or a collision is computed |
| `Hashing.RfoldResumes` | hashing/src/lib.rs:203-215 | the right fold can be resumed at any cut from the hash of the tail |
| `Hashing.SliceBinding` | hashing/src/lib.rs:211-215 | equal right folds with any proofs: the longer slice continues the shorter and the proof of the shorter sums up the rest, or a collision is computed |
| `Hashing.RfoldBinding` | hashing/src/lib.rs:203-215 | two slices with one right fold are equal, or a collision is computed, or the longer one gives a preimage of the reserved digest |
| `Hashing.EmptyDigests` | hashing/src/lib.rs:53-58 | the reserved digests for no leaves and for an empty slice |
| `Chunks.FlattenCut` | hashing/src/lib.rs:232-234 | the chunks of the data, in order, are the data |
| `Chunks.CutIsEven` | hashing/src/lib.rs:232-234 | all chunks are full, except that the last may be shorter but not empty |
| `Chunks.CutFlatten` | hashing/src/lib.rs:232-234 | evenly cut pieces are exactly the chunks of their concatenation |
| `Chunks.FinalInputIsHashed` | hashing/src/lib.rs:227-237 | the digest of data is the hash of one input, which is longer than a chunk exactly when the data is |
| `Chunks.DataBinding` | hashing/src/lib.rs:87-118 | two byte strings with one digest are equal, or a collision is computed, in all small and large combinations |
| `Chunks.ChunkCompleteness` | hashing/src/chunk_with_proof.rs:59-86 | exactly the existing chunks can be requested; each verifies, is the piece asked for and has the tree root; empty data is one empty chunk |
| `Chunks.TamperedChunk` | hashing/src/chunk_with_proof.rs:104-122 | a verified chunk with other data is refused with both digests, unless the data hashes alike |
| `Chunks.ChunkRootIsDataHash` | hashing/src/chunk_with_proof.rs:216-239 | the root of a chunk's proof is the digest of data longer than one chunk; for shorter data equality would be a collision |
| `Chunks.Reassembly` | hashing/src/chunk_with_proof.rs:63-122 | verified chunks for all indices with the digest of the data concatenate to the data, or a collision is computed |
| `Chunks.CollectedChunksMatchRoot` | hashing/src/chunk_with_proof.rs:104-122 | verified chunks for all indices with one root of any origin: the root is the tree root over these chunks, or a collision is computed |
| `Chunks.TreeOfPieces` | hashing/src/lib.rs:227-237 | pieces whose tree hash is the digest of their concatenation are more than one and evenly cut, or a collision is computed |
| `Chunks.ReassembledDigest` | hashing/src/chunk_with_proof.rs:104-122 | the concatenation of such chunks, if shorter than 2^64 bytes, has that root as its digest exactly if they are more than one and evenly cut, or a collision is computed |
| `Chunks.AnyCutVerifies` | hashing/src/chunk_with_proof.rs:104-122 | every non-empty list of pieces, however cut, has verified chunks with the tree hash over the pieces as their one root |
| `Chunks.UnevenChunksLoseDigest` | hashing/src/chunk_with_proof.rs:104-122 | for a concrete hash, two verified one-byte chunks of chunk size 2 whose concatenation does not have their root |
| `MapHash.HashEntries` | hashing/src/lib.rs:179-185 | the loop pushes one digest per entry, key digest before value digest, and fails exactly if some key or value cannot be serialised |
| `MapHash.MapBinding` | hashing/src/lib.rs:174-187 | two maps with one digest are equal, at any height of the types inside, or a collision is computed, or one is empty and the other gives a preimage of the reserved root |
| `ClTypes.PrintParse` | types/src/cl_type.rs:220-305 | at any depth, a printed type followed by anything parses back with the rest untouched exactly when it fits below the depth limit, and fails with the depth error otherwise |
| `ClTypes.ParsePrint` | types/src/cl_type.rs:161-211 | accepted bytes are the printed form of the result, which fits below the limit |
| `ClTypes.PrintUnique` | types/src/cl_type.rs:161-211 | printed types of any height, each followed by anything, agree only if the types and what follows agree |
| `ClTypes.PrintLength` | types/src/cl_type.rs:121-147 | `serialized_length` is the length of the printed form |
| `ClTypes.PrimitiveFormat` | types/src/cl_type.rs:27-49 | the byte of every type without parts |
| `ClTypes.CompoundFormat` | types/src/cl_type.rs:161-211 | the leading byte of every type with parts, and the order of the parts |
| `ClTypes.ParseFormat` | types/src/cl_type.rs:220-305 | what the reader makes of every leading byte from 0 to 22, and that it refuses every greater one as badly formatted |
| `ClTypes.DepthLimit` | types/src/cl_type.rs:24-25 | a whole type is read back exactly if it has at most 50 levels |
| `ClTypes.PrintTruncated` | types/src/cl_type.rs:220-332 | a printed type cut short anywhere is reported as ending too early |
| `ClTypeStreams.AppendBytes` | types/src/cl_type.rs:161-211 | appends the printed form and changes nothing before it |
| `ClTypeStreams.SerializeTupleType` | types/src/cl_type.rs:307-317 | the loop appends the tag and every part in order |
| `ClTypeStreams.DepthLimitedFromBytes` | types/src/cl_type.rs:220-305 | the recursive reader computes the parser, branch by branch |
| `ClTypeStreams.ParseTupleTypes` | types/src/cl_type.rs:319-332 | the loop over the shrinking slice reads the given number of types, or stops at the first error |
| `Codec.EncodeDecode` | types/src/bytesrepr.rs:375-799 | every well-typed value of representable size, followed by anything, decodes to itself with the rest untouched exactly when the types inside it are within the depth limit, and fails with the depth error otherwise |
| `CodecLaws.DecodeEncode` | types/src/bytesrepr.rs:480-799 | every accepted value is well typed and within all limits; for canonical schemas the bytes used are its encoding |
| `CodecLaws.BigDecode` | types/src/uint.rs:166-198 | a big integer re-encodes to the bytes used exactly when they had no leading zero byte |
| `CodecTheorems.DeserializeToBytes` | types/src/bytesrepr.rs:147-176 | `deserialize` on what `to_bytes` wrote gives the value back, refuses any extra byte, and reports the depth limit exactly for values with a type above it |
| `CodecTheorems.EncodeUnique` | types/src/bytesrepr.rs:375-799 | encodings of one type, each followed by anything, agree only if the values and what follows agree, whatever the depth limit of the reader |
| `CodecTheorems.PrefixFree` | types/src/bytesrepr.rs:1288-1314 | no encoding is a prefix of that of another value of the type |
| `CodecTruncation.Truncated` | types/src/bytesrepr.rs:178-185 | every proper prefix of the encoding of a readable value is reported as ending too early |
| `CodecTheorems.UnsignedFormat` | types/src/bytesrepr.rs:231-374 | unsigned integers have a fixed width, least significant byte first |
| `CodecTheorems.SignedFormat` | types/src/bytesrepr.rs:255-301 | signed integers are in two's complement, least significant byte first |
| `CodecTheorems.BigFormat` | types/src/uint.rs:166-198 | big integers have a count of the bytes needed and then those bytes, least significant first |
| `CodecTheorems.SizedFormat` | types/src/bytesrepr.rs:375-398 | strings and byte vectors have a four-byte count and then their bytes |
| `CodecTheorems.MalformedLeaves` | types/src/bytesrepr.rs:391-398 | a big integer that announces too many bytes and a string that is not UTF-8 are badly formatted |
| `Utf8.ValidExactly` | types/src/bytesrepr.rs:391-398 | the strings accepted are exactly the UTF-8 encodings of Unicode scalar values |
| `CodecTheorems.BoolFormat` | types/src/bytesrepr.rs:203-229 | a `bool` is read from 0 or 1, and from nothing else |
| `CodecTheorems.OptionFormat` | types/src/bytesrepr.rs:661-709 | an `Option` is read back from tag 0, or tag 1 and the value |
| `CodecTheorems.ResultFormat` | types/src/bytesrepr.rs:711-761 | a `Result` is read back from tag 1 and the value of `Ok`, or tag 0 and that of `Err` |
| `CodecTheorems.TripleFormat` | types/src/bytesrepr.rs:801-822 | a triple is read back from its parts one after another |
| `CodecTheorems.SetFormat` | types/src/bytesrepr.rs:564-604 | a `BTreeSet` is read from a count and its elements, in any order and with repetitions; elements in order come back as they were |
| `CodecTheorems.EncodeLength` | types/src/bytesrepr.rs:409-411 | `serialized_length` is the length of the encoding, for every schema |
| `CodecTheorems.MapNormalises` | types/src/bytesrepr.rs:605-659 | for every key and value type an accepted map stream re-encodes to itself exactly when its keys were strictly ascending and its entries were in their own encodings; the last value of a key wins; the re-encoding decodes to the same map |
| `CodecTheorems.CanonicalExactly` | types/src/bytesrepr.rs:643-659 | every accepted input is the encoding of its value exactly for the schemas without big integers, maps and sets |
| `Values.LtTotal` | types/src/bytesrepr.rs:592-659 | two values of one key type are equal or ordered one way or the other |
| `Values.LtTransitive` | types/src/bytesrepr.rs:592-659 | the order of keys is transitive |
| `Values.BytesLtExactly` | types/src/bytesrepr.rs:605-659 | string and byte keys come in dictionary order: a proper prefix first, otherwise the smaller byte at the first difference |
| `Values.ListLtExactly` | types/src/bytesrepr.rs:605-659 | list keys come in dictionary order over the order of their items |
| `Values.LtExactly` | types/src/bytesrepr.rs:605-659 | number keys come by size, pairs by first part and then second, variants in the order of declaration |
| `Values.InsertAllTyped` | types/src/bytesrepr.rs:648-658 | inserting entries in any order and with repetitions gives strictly ascending keys |
| `Values.LastValueWins` | types/src/bytesrepr.rs:651-656 | the map holds the last value read for each key |
| `CodecStreams.WriteBytes` | types/src/bytesrepr.rs:375-799 | `write_bytes` appends exactly the encoding, or fails as `to_bytes` does |
| `CodecStreams.WriteCounted` | types/src/bytesrepr.rs:446-453 | the loop writes the length and every item, and fails exactly when a length does not fit in 32 bits |
| `CodecStreams.FromBytes` | types/src/bytesrepr.rs:480-799 | the reader with its loops computes the decoder |
| `CodecStreams.ReadItems` | types/src/bytesrepr.rs:484-493 | the vector loop reads the given number of items, or stops at the first error |
| `CodecStreams.ReadEntries` | types/src/bytesrepr.rs:648-658 | the map loop inserts the entries one by one |
| `ClValues.ClValueRoundTrip` | types/src/cl_value.rs:143-172 | a `CLValue` survives with any suffix exactly when its type is within the depth limit |
| `ClValues.ClValueFormat` | types/src/cl_value.rs:143-172 | a `CLValue` is its counted bytes and then its type |
| `ClValues.FromTIntoT` | types/src/cl_value.rs:79-101 | `into_t` after `from_t` gives the value back, gives a type mismatch for any other type, and works through the bytes of the `CLValue` |
| `ClValues.ParameterRoundTrip` | types/src/contracts.rs:1551-1576 | a parameter survives with any suffix exactly when its type is within the depth limit |
| `ClValues.ParameterFormat` | types/src/contracts.rs:1551-1576 | a parameter is its counted name and then its type |
| `ClValues.EntryPointRoundTrip` | types/src/contracts.rs:1387-1436 | an entry point survives with any suffix exactly when all its types are within the depth limit |
| `ClValues.EntryPointReprints` | types/src/contracts.rs:1417-1436 | bytes accepted as an entry point are its encoding, and it respects every limit |
| `ClValues.AccessFormat` | types/src/contracts.rs:1452-1514 | access is 1 for public, or 2 and the counted groups |
| `ClValues.EntryPointFormat` | types/src/contracts.rs:1387-1436 | an entry point is name, counted parameters, return type, access, and 0 for session or 1 for contract code |
| `ChecksummedHex.EncodeIter` | types/src/checksummed_hex.rs:44-56 | the stateful encoder makes letter number k upper case exactly when bit k of the repeated hash is set |
| `ChecksummedHex.EncodedCase` | types/src/checksummed_hex.rs:44-56 | in the encoding, letter number k is upper case exactly if bit k of the hash of the bytes is set |
| `ChecksummedHex.LettersCount` | types/src/checksummed_hex.rs:44-56 | letters are numbered by how many letters stand before them |
| `ChecksummedHex.BitsRebuildByte` | types/src/checksummed_hex.rs:30-35 | the eight bits drawn for a byte, least significant first, add up to that byte |
| `ChecksummedHex.HexDigits` | types/src/checksummed_hex.rs:15-18 | the characters of the encoding and the value of every character |
| `ChecksummedHex.SpellsExactly` | types/src/checksummed_hex.rs:94-94 | a spelling has two hex digits for each byte, sixteens before ones |
| `ChecksummedHex.BitCycle.Next` | types/src/checksummed_hex.rs:30-35 | the bits come low bit first within each byte and start over after the last byte |
| `ChecksummedHex.SmallInputsNeverWrap` | types/src/checksummed_hex.rs:12-13 | for inputs of at most 75 bytes different letters use different bits of the hash |
| `ChecksummedHex.StringIsSameCase` | types/src/checksummed_hex.rs:60-79 | true exactly when no letter is lower case or no letter is upper case |
| `ChecksummedHex.Base16Spells` | types/src/checksummed_hex.rs:94-94 | plain hex decoding accepts exactly the spellings of a byte string |
| `ChecksummedHex.DecodeAccepts` | types/src/checksummed_hex.rs:93-115 | a string decodes to given bytes exactly when it spells them and is long, in one case, or exactly the checksummed spelling |
| `ChecksummedHex.AcceptedSpellings` | types/src/checksummed_hex.rs:93-115 | bytes of at most 75 have exactly the lower-case, upper-case and checksummed spellings |
| `ChecksummedHex.RoundTrip` | types/src/checksummed_hex.rs:169-175 | decoding undoes encoding for every byte string |
| `ChecksummedHex.ChecksumFailure` | types/src/checksummed_hex.rs:101-113 | a wrong checksum is reported at the first differing position with the expected character |
| `ChecksummedHex.NotHex` | types/src/checksummed_hex.rs:94-94 | anything else is refused: odd length, or the first character that is no hex digit |
| `Accounts.CalculateKeysWeight` | types/src/account/associated_keys.rs:100-121 | the saturating fold gives the exact sum cut off at 255, in whatever order the keys come |
| `Accounts.SumTakeOut` | types/src/account/associated_keys.rs:100-106 | the sum does not depend on the order of the keys |
| `Accounts.Account.AddAssociatedKey` | types/src/account.rs:132-139 | a known key is refused without any change; a new one gets its weight, and no other key and no threshold changes |
| `Accounts.Account.RemoveAssociatedKey` | types/src/account.rs:141-185 | the new state and the answer of removing a key |
| `Accounts.Account.UpdateAssociatedKey` | types/src/account.rs:153-204 | the new state and the answer of changing a weight |
| `Accounts.Account.SetActionThreshold` | types/src/account.rs:206-229 | the new state and the answer of setting a threshold |
| `Accounts.Account.MayDeployWith` | types/src/account.rs:241-247 | the answer for a set of authorizing keys |
| `Accounts.Account.MayManageKeysWith` | types/src/account.rs:251-257 | the answer for a set of authorizing keys |
| `Accounts.AcceptedExactly` | types/src/account.rs:132-229 | on a usable account an operation is accepted exactly when it names a fitting key and the account it asks for is usable with ordered thresholds; then it gets it, otherwise nothing changes |
| `Accounts.RefusedExactly` | types/src/account.rs:132-229 | on any account, which failure every operation meets: a decrease or a removal is refused exactly if it leaves the account unusable, an increase never |
| `Accounts.RunKeepsUsable` | types/src/account.rs:132-229 | every sequence of operations, accepted or rejected, keeps an account usable and its thresholds ordered |
| `Accounts.ReachableExactly` | types/src/account.rs:65-229 | the states that operations can make of a new account are exactly the usable ones with ordered thresholds |
| `Accounts.NoLockOut` | types/src/account.rs:132-257 | after any operations on a usable account, all its keys together can deploy and manage keys |
| `Accounts.CreatedIsUsable` | types/src/account.rs:65-80 | a newly created account is usable |
| `Accounts.CreatedExactly` | types/src/account.rs:65-80 | in a new account exactly the key sets with the account's own key, which weighs 1, may act |
| `Accounts.ManagersCanDeploy` | types/src/account/action_thresholds.rs:41-70 | in every account that comes from a new one, whoever may manage keys may deploy |
| `Accounts.PermittedExactly` | types/src/account.rs:239-257 | keys may deploy, or manage keys, exactly if the exact sum of their weights reaches the threshold of that action |
| `Accounts.AuthorizationMonotone` | types/src/account.rs:239-257 | more keys never lose a permission, keys that are not associated never gain one |
| `AccessRights.ContextAccessRights.Extend` | types/src/access_rights.rs:182-199 | the loop adds the references one by one |
| `AccessRights.ContextAccessRights.GrantAccess` | types/src/access_rights.rs:212-236 | the new rights and the report of a grant |
| `AccessRights.ContextAccessRights.RemoveAccess` | types/src/access_rights.rs:238-243 | none of the rights is left at the address, no other right changes and no address is forgotten |
| `AccessRights.GrantExactly` | types/src/access_rights.rs:212-236 | a grant reports pre-existing access exactly if it was there, and otherwise exactly the rights that were missing |
| `AccessRights.ExtendedAllAt` | types/src/access_rights.rs:166-199 | after extending, each address has the union of its old rights and all rights listed for it |
| `AccessRights.RunKeepsBalance` | types/src/access_rights.rs:182-243 | in every interleaving of grants, releases and extensions, outstanding grants at one address are disjoint and the rights are the base, grown by what was extended and not outstanding, plus what is outstanding |
| `AccessRights.RunBaseAt` | types/src/access_rights.rs:182-243 | the base grows by exactly the rights that were extended while they were not outstanding |
| `AccessRights.ReleasedKeeps` | types/src/access_rights.rs:182-243 | once all is released, a reference is granted exactly if its address was known or named and each of its rights was in the base or extended at a moment when it was not outstanding |
| `AccessRights.ReleasedRestores` | types/src/access_rights.rs:201-243 | after grants and releases alone the context answers as at the start for every reference with a right, and knows a reference without rights exactly if its address was known or granted |
| `AccessRights.HeldDuringRun` | types/src/access_rights.rs:182-243 | during a run a reference with a right is held exactly if the grown base and what is outstanding cover it |
| `AccessRights.ExtensionSurvives` | types/src/access_rights.rs:182-243 | a reference extended while grants are outstanding is still held after their release exactly if none of its rights was outstanding |
| `AccessRights.ExtensionLostOnRelease` | types/src/access_rights.rs:182-243 | a run that loses a right: granted, extended, released |
| `ContractPackages.ContractPackage.NextContractVersionFor` | types/src/contracts.rs:874-890 | the search from the last key down gives the newest version of the major, plus one |
| `ContractPackages.ContractPackage.InsertContractVersion` | types/src/contracts.rs:794-804 | the key issued and the new package |
| `ContractPackages.ContractPackage.FindContractVersionKeyByHash` | types/src/contracts.rs:822-830 | the search finds the first key that holds the hash |
| `ContractPackages.ContractPackage.DisableContractVersion` | types/src/contracts.rs:806-820 | the new package, and an error exactly for an unknown hash |
| `ContractPackages.ContractPackage.ContractIsEnabled` | types/src/contracts.rs:786-792 | whether the first version with the hash is enabled |
| `ContractPackages.ContractPackage.EnabledVersions` | types/src/contracts.rs:837-847 | the loop collects exactly the enabled versions with their hashes |
| `ContractPackages.ContractPackage.CurrentContract` | types/src/contracts.rs:892-900 | the greatest enabled key and its hash, nothing if no version is enabled |
| `ContractPackages.LtExactly` | types/src/contracts.rs:892-900 | version keys come by major version and then by contract version |
| `ContractPackages.InsertExactly` | types/src/contracts.rs:794-804 | an insertion issues a fresh, next key and keeps versions dense exactly while the counter has room |
| `ContractPackages.WrappedKeyIsReused` | types/src/contracts.rs:875-890 | with the counter at its limit two insertions issue the same key |
| `ContractPackages.RunKeepsVersions` | types/src/contracts.rs:770-847 | a run keeps versions dense exactly if it stays within the counters; then versions are counted, no key is reused or rebound, no version leaves the disabled list |
| `ContractPackages.VersionsFromEmpty` | types/src/contracts.rs:794-804 | from an empty package the versions of a major are exactly 1 to the number of insertions |
| `ContractPackages.DisabledForever` | types/src/contracts.rs:770-784 | a disabled version is refused after any run |
| `ContractPackages.ContractAndVersionAgree` | types/src/contracts.rs:780-792 | a contract is enabled exactly when the first version that holds it is |
| `ContractPackages.UnknownContractDisabled` | types/src/contracts.rs:786-820 | a contract that no version holds is not enabled, and disabling it changes nothing |
| `ContractPackages.DisabledContractStaysCurrent` | types/src/contracts.rs:786-900 | a hash inserted twice and then disabled counts as disabled while its second version is the current one |
| `ContractPackages.DistinctInsertsStayDistinct` | types/src/contracts.rs:794-804 | inserting distinct new hashes keeps the hashes distinct |
| `ContractPackages.DisableExactly` | types/src/contracts.rs:806-830 | a request to disable the hash of a version reaches that version exactly if no smaller key holds the hash |
| `ContractPackages.DisableFrame` | types/src/contracts.rs:806-820 | disabling a hash leaves every version with another hash as it was |
| `ContractPackages.RunDisablesExactly` | types/src/contracts.rs:770-830 | after any run exactly those versions are disabled that were, or that were the first with the hash named by some request at its moment |
| `ContractPackages.UnnamedStaysEnabled` | types/src/contracts.rs:770-830 | a run that never names the hash of an enabled version leaves it enabled with that hash |
| `ContractPackages.RepeatedHashNeverDisabled` | types/src/contracts.rs:806-830 | a version whose hash stands under a smaller key is enabled after any run at all |
| `ContractPackages.CanBeDisabledExactly` | types/src/contracts.rs:806-830 | some run disables a version exactly if no smaller key holds its hash |
| `ContractPackages.SecondInsertNeverDisabled` | types/src/contracts.rs:794-830 | after two insertions of one hash into an empty package nothing disables the second |

## Left out

- BLAKE2b itself and the memoised hasher state: the hash is a parameter and the padding is part of its input.
- `OutOfMemory`: `allocate_buffer` and `try_vec_with_capacity` limit or fail on buffer sizes; the model has no allocator.
- The byte format of `IndexedMerkleProof` and `ChunkWithProof`: one more instance of the codec.
- `CLType` as a map key: the codec covers it as a value, but its derived order is not modelled.
- `Key`, `URef` and `PublicKey` as codec values: their layouts are further tagged choices over the modelled ones; only their `CLType`s appear.
- `Ratio`: its reduction is done by another library.
- `Account::can_authorize`, named keys and the main purse: no branching and no effect on weights or thresholds.
- `add_group`, `remove_group` and the lock status of a package: single map updates that do not touch versions.
- `versions_mut`, `disabled_versions_mut`, `groups_mut` and `take_versions`: raw access that bypasses the package operations.
- JSON, serde, schema, display and random generation: formatting and foreign code.
- ContractPackages.CanBeDisabledExactly: stated for packages without a version 0, which only a wrapped counter issues and which can be rebound to another hash.
