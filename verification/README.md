# A verified model of the stateful XMSS / XMSS^MT signer

This project models the hash-based signature core of the repository (RFC 8391, sections 2.5, 2.6, 3.1,
4.1 and 4.2): WOTS+ chains and checksum, L-trees, the Merkle tree loops, the in-memory traversal cache,
key generation, signing, reloading and verification. Its main results are:

- **End to end.** In every run of a freshly generated key (any interleaving of signing calls, reloads of
  the latest bytes, and refused hash calls), every signature returned before the last index is signed with,
  and that last one itself, is accepted under the generated public key, for every message, tree height and
  number of layers (`Runs.IssuedIsAccepted`). `Execution.Execute` drives the modelled methods through an
  arbitrary script and is proved to produce such runs; `EndToEnd.WholeLife` proves the repository's
  boundary-crossing scenario (generate, sign and open under every index, call once more) for every parameter
  set: the last call is refused if and only if the exhaustion marker has room.
- **What acceptance binds.** The converse: the top layer of every accepted signature is, byte for byte, the one
  the key makes of the message that layer signs, or the signature exhibits two different inputs of one keyed
  hash with the same value, at a named place on the authentication path, in the L-tree or on a WOTS+ chain
  (`Binding.VerifiedBinds`, part of the contract of `Verifier.VerifyDetached`).
- **The cache is a reload.** Signing takes its layers from the cache as it stands
  (`LayerWriting.WriteLayers`); the bytes a coherent cache supplies are those the key specifies
  (`CachedSignature.CacheRefines`). The cache agrees with the key bytes at every point of every run, even when
  `advance_auth_path` stops half way (`Runs.Invariant`), it is what a reload would build (`Runs.WarmIsReloaded`,
  with the exact exception), and a warm and a reloaded session give the same signature (`Execution.SignBoth`).
- **One-time keys.** As long as a key has its secret fields, no one-time key of it, at any layer, signs two
  different messages, uses in refused calls included. The exact exception is the layer-0 key of the last
  index, after a refused call and without room for the marker (`Runs.OneTimeKeys`). Up to the last index spent
  indices strictly increase (`Runs.SpentIncrease`).
- **Exhaustion.** A key spends exactly the indices 0 .. 2^fullHeight - 1, in order, and then refuses
  (`Runs.Capacity`), *if and only if* its exhaustion marker lies beyond its last index
  (`Exhaustion.OneTimeIff`, `Exhaustion.LatchIff`).
- **Tree loops.** `treehash`, `treehash_root`, `advance_auth_path`, `l_tree` and `compute_root` compute the
  recursively specified trees, within their buffers.
- **WOTS+.** Public-key recovery for every message, and the checksum antichain, *if and only if* the
  checksum digits do not fill whole bytes (or the message is a single byte).

## Two results where the code and what is promised differ

- The all-ones index that marks an exhausted key equals the last one-time index whenever
  `8 * index_bytes == full_height`. By the rule of src/params.rs:1630-1634 this happens exactly for
  multi-tree sets whose height is a multiple of 8, that is the registered height-40 sets
  (`Parameters.StandardIndexRoom`). For those sets the call after the last signature does not return
  `KeyExhausted`, as README.md and src/error.rs say it should, but signs under the last index again, by then
  with erased secret fields: on every run, not just on some (`Exhaustion.MarkerCollides`, `EndToEnd.WholeLife`),
  and only so: two signatures under one index always mean the last index and a key erased in between
  (`Exhaustion.SecondIsErased`, `Runs.IssuedWhenErased`). A refused hash call at the last
  index is different: it leaves the key with its original fields and the same index
  (`Exhaustion.SpoiledLastRepeats`), so a key that still has its fields spends every index once if and only if
  the marker has room or no hash call is refused (`Exhaustion.OriginalKeyIff`). Theorems that count
  indices are proved for every parameter set up to the last index, and without that restriction when the
  marker has room; those about signatures and one-time keys hold until the key is erased; the agreement of cache
  and key needs no restriction.
- src/params.rs also tabulates w = 256, which its line 1602, setting w = 16, makes unreachable. With w = 256
  the checksum shift of src/wots.rs:113 is a whole byte, the high byte of the checksum is lost, and chain
  lengths of distinct messages can be comparable. Checksum exactness is proved equivalent to `(len2 * log_w) % 8 != 0`, and the antichain to the same or a message of one byte.
  With w = 16, which every parameter set has, both hold.

## How the model is built

- The digest functions are uninterpreted functions held by the parameter set (`Parameters.Digest`), of any
  output length, cut to `n` bytes as the library does. `Digest.faults` says whether a hash call may be refused; when it
  is false every operation is total, when it is true every hash call may fail, any number of times.
- Buffers of n-byte nodes are arrays of nodes; keys, signatures, indices, addresses and the checksum are real
  bytes and words. `Word` is an unsigned 32-bit integer, and `as u32` casts are written out (`Low32`).
- `n`, `log_w`, `tree_height`, `d` and `index_bytes` are symbolic. `Params.Valid` collects what the parameter
  code establishes: n <= 64, w in {4, 16, 256}, at most 131 chains, 1 <= tree_height < 32,
  d * tree_height < 64, and an index width that holds every index.
- Address words 5 to 7 are rewritten before every use. Contracts therefore speak of the first five words of an
  address (layer, tree, type, leaf) only: whatever earlier calls left in the other words is irrelevant.
- What hash values are is stated in terms of the digest functions themselves (`Hashing.Cut`, `StepHashed`,
  `PairHashed`, `Wots.Walk`, `Signer.Carries`, `Binding.Verified`), beside the specification functions that the
  other theorems use.
- Source loops are loops, source objects (`XmssParams`, `LayerState`, `TraversalState`) are classes. Long
  bodies are split into methods, one for each of their blocks.

| file | content |
|---|---|
| Results, Bits, Bytes | results, shifts and masks, big-endian codec and byte buffers |
| Params, Address, Hashing | parameter sets, hash addresses, keyed hashes |
| ChainLengths, Wots, LTree | WOTS+ and the L-tree |
| Merkle, TreeBuilding, RootClimbing | Merkle trees, the loops that build and climb them |
| Positions, CacheSpec, Traversal, Work | layer positions, the traversal cache and its cost |
| SignatureSpec, CachedSignature | byte layout, specified signatures, signatures taken from the cache |
| AddressUse, Binding | the addresses that are hashed, what an accepted signature binds |
| LayerWriting, Signer, Verifier | signing and verification |
| Runs, Exhaustion | whole runs of a key, and their end |
| Execution, EndToEnd | scripts, warm and reloaded sessions, a whole life |

## Model

| member | source | states |
|---|---|---|
| Parameters.XmssParams.Derive | src/params.rs:1602-1645 | w is 16 and the derived fields are the sizes every other contract uses; when the layers divide the height they add up to it and the set is valid; only the choice of digest functions can fail |
| Parameters.XmssParams.DeriveWots | src/params.rs:1608-1627 | the tabulated WOTS+ lengths for w = 4, 16, 256; every other w is refused, and only then |
| Parameters.XmssParams.GenericXmss | src/params.rs:478-506 | the sizes written out for a single tree are the derived ones, and the marker has room |
| Parameters.StandardIndexRoom | src/params.rs:1630-1634 | the assigned index width holds every index, and leaves room for the exhaustion marker exactly when d = 1 or the height is not a multiple of 8 |
| Parameters.HeightFortyHasNoRoom | src/params.rs:1579-1591 | the height-40 set over two layers is valid and has no room for the marker |
| Parameters.MaxIdxFits | src/xmss_core.rs:594-599 | every index fits the index bytes and 64 bits; the marker exceeds the last index exactly when 8 * index_bytes > full_height |
| Bytes.UllToBytes | src/utils.rs:2-9 | writes the big-endian encoding into its slice and nothing else |
| Bytes.ToBytesAt | src/utils.rs:2-9 | byte k of the encoding weighs 256^(len - 1 - k) |
| Bytes.BytesToUll | src/utils.rs:13-19 | decodes at most eight bytes, into 64 bits |
| Bytes.DecodeEncode | src/utils.rs:2-19 | decoding an encoded value below 256^len returns it |
| Bytes.EncodeDecode | src/utils.rs:2-19 | encoding a decoded byte string returns it |
| Bytes.ChunksFlatten | src/xmss_core.rs:668-698 | nodes written back to back and followed by anything are read back unchanged |
| Bytes.FlattenAt | src/xmss_core.rs:668-698 | byte j of node k stands at k * n + j |
| Address.SetTreeAddr | src/hash_address.rs:11-17 | two words hold the high and low half of the 64-bit tree index, the others stay |
| Address.CopySubtreeAddr | src/hash_address.rs:31-35 | copies layer and tree only |
| Address.AddrToBytes | src/hash.rs:71-75 | serialises all eight words in order, each as four big-endian bytes |
| Address.DistinctPositions | src/hash_address.rs:5-65 | different layer, tree, type, leaf or hash position always means different address bytes |
| Hashing.PrfKeygen | src/hash.rs:191-215 | the first n bytes of the key-generation digest of SK_SEED, PUB_SEED and the serialised address |
| Hashing.Prf | src/hash.rs:163-186 | the first n bytes of the PRF digest of key and input |
| Hashing.HashMessage | src/hash.rs:219-246 | the first n bytes of the message digest of R, the root, the index and the message |
| Hashing.ThashH | src/hash.rs:249-299 | the first n bytes of the tree digest of both children, under the key and the two masks that the PRF yields for words 0 to 6 followed by 0, 1, 2; words 0 to 6 survive and the old word 7 does not matter |
| Hashing.ThashF | src/hash.rs:302-348 | the same for the chain digest of one input, with a key and one mask |
| ChainLengths.BaseW | src/wots.rs:81-99 | the bit-extraction loop yields the base-w digits of the bytes, for w in {4, 16, 256} |
| ChainLengths.DigitsRebuild | src/wots.rs:81-99 | the base-w digits and the bytes are the same number |
| ChainLengths.DigitsInjective | src/wots.rs:81-99 | equal digits mean equal messages |
| ChainLengths.WotsChecksum | src/wots.rs:102-122 | the checksum slots hold the digits of the checksum of the message digits before them |
| ChainLengths.ChecksumFits | src/wots.rs:107-113 | for every n up to 64 the sum fits len2 digits, and its shifted form 32 bits |
| ChainLengths.ChecksumDigitsExact | src/wots.rs:113-121 | shifted, serialised and re-read, the checksum is exactly its base-w digits (w = 4, 16) |
| ChainLengths.ChecksumExactIff | src/wots.rs:113-121 | exactness for all messages holds if and only if len2 * log_w is not a multiple of 8 |
| ChainLengths.DeriveLengths | src/wots.rs:125-130 | byte k of the message gives lengths 2k and 2k + 1 (w = 16) or 4k to 4k + 3 (w = 4), high digit first, and the last lengths spell what these lack to their maximum |
| ChainLengths.Antichain | src/wots.rs:125-130 | for distinct messages some chain of the first stops strictly below that of the second (w = 4, 16) |
| ChainLengths.AntichainIff | src/wots.rs:125-130 | incomparability for all pairs holds if and only if len2 * log_w is not a multiple of 8 or the message is one byte |
| Wots.ExpandSeed | src/wots.rs:12-44 | slot i gets the key-generation digest under its chain address, whatever words 5 to 7 held |
| Wots.GenChain | src/wots.rs:48-77 | one slot becomes the end of a walk in which every node is the chain digest of the one before, under its own step address; the walk takes the steps asked for and also stops at w; all other slots stay |
| Wots.ChainCompose | src/wots.rs:69-75 | walking a and then b steps is walking a + b steps |
| Wots.WotsPkgen | src/wots.rs:134-168 | every chain walked to w - 1, in place |
| Wots.WotsSign | src/wots.rs:172-213 | every chain walked to its length, in place; more than 131 chains are refused |
| Wots.WotsPkFromSig | src/wots.rs:216-246 | every chain completed from the signature; more than 131 chains are refused |
| Wots.SigIsWalked | src/wots.rs:172-213 | node i of a signature is the end of a walk of lengths[i] digests from the keyed secret of chain i |
| Wots.PkIsWalked | src/wots.rs:134-168 | node i of a public key is the end of such a walk to position w - 1 |
| Wots.EndIsWalked | src/wots.rs:216-246 | a completed node is the end of a walk from the signature node to position w - 1 |
| Wots.Recovery | src/wots.rs:172-246 | completing a signature yields the public key, for all seeds and lengths |
| LTree.CompressInPlace | src/xmss_commons.rs:14-63 | the in-place compaction yields the root of the unbalanced tree, for any number of nodes |
| LTree.RoundsIsLog | src/xmss_commons.rs:33-60 | it takes ceil(log2(len)) rounds |
| LTree.WidthIsCeiling | src/xmss_commons.rs:33-60 | after h rounds len / 2^h nodes are left, rounded up |
| LTree.InnerIsHashed | src/xmss_commons.rs:33-60 | a node is its leaf, its only child, or the digest of its two children under their height and its index |
| LTree.InnerSpan | src/xmss_commons.rs:33-60 | a node depends on its own run of at most 2^h leaves only |
| Merkle.Merge | src/xmss_core.rs:380-398 | two equal heights on top of the stack are siblings, and their parent covers both |
| Merkle.Settle | src/xmss_core.rs:380-405 | when the heights differ, the stack holds the maximal complete subtrees again |
| Merkle.Room | src/xmss_core.rs:348-373 | before every leaf at most tree_height entries are stacked, so the push fits |
| Merkle.Depth | src/xmss_core.rs:348-405 | the stack depth is the number of one bits of the leaf count |
| Merkle.Full | src/xmss_core.rs:406-407 | a complete range leaves exactly one entry, its root |
| Merkle.NodeIsHashed | src/xmss_core.rs:383-398 | a tree node is the digest of its two children under the tree address with their height and its index |
| Merkle.LeafIsCompressed | src/xmss_commons.rs:122-134 | a leaf is the L-tree (type 1) of the WOTS+ public key (type 0) of its slot |
| Merkle.PathIsSiblings | src/xmss_core.rs:376-404 | the path of a leaf holds, at height h, the node beside leaf / 2^h |
| TreeBuilding.GenLeafWots | src/xmss_commons.rs:122-134 | the compressed WOTS+ public key, depending on layer, tree, type and leaf words only |
| TreeBuilding.PathSettle | src/xmss_core.rs:376-404 | after a leaf and its merges every completed sibling is recorded |
| TreeBuilding.RootIsNoSibling | src/xmss_core.rs:400-403 | the root is never taken for a sibling, so the path is not overrun |
| TreeBuilding.Treehash | src/xmss_core.rs:337-408 | the recursive root, and at every height the sibling node of the leaf's ancestor |
| TreeBuilding.TreehashRoot | src/xmss_core.rs:411-470 | for an aligned range, the node of the full tree at that position, with 2^height leaf computations |
| RootClimbing.ComputeRoot | src/xmss_commons.rs:66-118 | the climb along the path bytes, left or right by the leaf's bits |
| RootClimbing.ClimbIsHashed | src/xmss_commons.rs:86-117 | every step up is the digest of the node below and the path node, on the side given by the bit of the leaf |
| RootClimbing.ClimbMeets | src/xmss_commons.rs:86-117 | on an authentic path the climb meets the tree's own node at every height |
| RootClimbing.ClimbToRoot | src/xmss_commons.rs:66-118 | any leaf with its extracted path gives back the root |
| Positions.Position | src/xmss_core.rs:262-269 | tree index and leaf index concatenate to the position in the layer |
| Positions.PositionIsDivision | src/xmss_core.rs:262-269 | tree index and leaf index are quotient and remainder by powers of two |
| Positions.TreeBelow | src/xmss_core.rs:262-269 | a layer's tree index is the concatenated position of the layer above |
| Positions.LeavesAreDigits | src/xmss_core.rs:262-269 | the leaf indices are the base-2^tree_height digits of the index |
| Positions.Odometer | src/xmss_core.rs:117-131 | from idx to idx + 1 a layer stays, moves one leaf, or rolls over to leaf 0 of the next tree; each case exactly at its multiples |
| CacheSpec.ReadyIsRebuilt | src/xmss_core.rs:14-17 | a ready cache is the rebuilt one up to stored signatures |
| CacheSpec.LayerStays | src/xmss_core.rs:123-125 | a layer whose position does not move stays coherent, stored signature included |
| Traversal.BuildLayerState | src/xmss_core.rs:271-301 | position, root and path of the subtree, no stored signature |
| Traversal.AdvanceAuthPath | src/xmss_core.rs:303-333 | the complete path of leaf i becomes the complete path of leaf i + 1, at the stated cost; on a refused call the leaf index has not moved |
| Traversal.SiblingRange | src/xmss_core.rs:317-327 | every recomputed range is aligned and inside the tree |
| Traversal.OnlyChangedLevels | src/xmss_core.rs:311-312 | a sibling changes exactly on the trailing_ones + 1 recomputed levels |
| Traversal.AdvanceLayer | src/xmss_core.rs:117-131 | one layer coherent with idx becomes coherent with idx + 1, in each of the three cases |
| Traversal.TraversalState.FromTopTree | src/xmss_core.rs:54-69 | the top tree alone, marked for index 0 |
| Traversal.TraversalState.Clear | src/xmss_core.rs:71-75 | the empty cache |
| Traversal.TraversalState.Ensure | src/xmss_core.rs:77-106 | complete and coherent for idx; a ready cache is left as it is; a mismatched cache ends as the rebuilt one; a refused call leaves no false mark |
| Traversal.TraversalState.Advance | src/xmss_core.rs:108-135 | complete and coherent for idx + 1; a layer whose position stays keeps everything, stored signature included; on any error the cache stays marked for idx |
| Work.TreeWork | src/xmss_core.rs:312-328 | walking one layer through a tree of height h takes (h - 1) * 2^h + 1 leaf computations |
| Work.AmortizedWork | README.md:94-107 | fewer than h per signature, with single steps of 2^h - 1 |
| SignatureSpec.SigBytesAre | src/params.rs:1636-1639 | index, R and the layers end exactly at sig_bytes |
| SignatureSpec.LayerStandsAt | src/xmss_core.rs:656-698 | layer i of a signature starts i layer lengths behind R: its WOTS+ signature, then its path |
| SignatureSpec.BumpedKey | src/xmss_core.rs:626-634 | spending an index leaves the secret fields alone |
| SignatureSpec.BumpedIndex | src/xmss_core.rs:626-634 | the next index, or the marker 256^index_bytes - 1 |
| SignatureSpec.LayerRecovers | src/xmss_commons.rs:197-235 | a layer's part leads to the root of its tree, whatever it signed and whatever follows |
| SignatureSpec.LayersRecover | src/xmss_commons.rs:197-235 | all layers together lead to the top root, for every d |
| SignatureSpec.SignedIsAccepted | src/xmss_commons.rs:157-241 | every signature of a key verifies under its public key |
| AddressUse.UsesApart | src/hash_address.rs:5-65 | no two PRF calls, for chain steps, L-tree nodes or tree nodes, share an address |
| AddressUse.AddressesAreUses | src/hash_address.rs:5-65 | the addresses hashed for an index are those of its chain steps, L-tree nodes and tree nodes |
| AddressUse.OtsWordsAre | src/xmss_core.rs:661-664 | a one-time key is named by layer, both halves of the tree index, type 0 and leaf |
| Binding.WotsBinds | src/wots.rs:216-246 | chain ends equal to the public key mean the key's own signature nodes, or a collision on a named chain and step |
| Binding.LTreeBinds | src/xmss_commons.rs:14-63 | equal L-tree roots mean equal public keys, or a collision at a named node |
| Binding.PathBinds | src/xmss_commons.rs:66-118 | a climb that ends in the root started from the tree's own leaf along its own path, or collides at a named height |
| Binding.LayerBinds | src/xmss_commons.rs:197-235 | a layer that leads to the root of its tree is byte for byte the key's own for the message it signs, or collides |
| Binding.AcceptedIsVerified | src/xmss_commons.rs:157-241 | acceptance means that the layers lead from the digest of R, root, index and message to the public root |
| Binding.VerifiedBinds | src/xmss_commons.rs:157-241 | the top layer of every accepted signature is bound, for every number of layers |
| Binding.ForgeryInverts | src/wots.rs:125-130 | a bound layer that signs another message holds, for some chain, a node strictly before the one the key published, from which walking on leads to it (w = 4, 16) |
| CachedSignature.CacheRefines | src/xmss_core.rs:658-698 | the layers taken from a complete coherent cache, each signing the cached root below, are the layers the key specifies |
| CachedSignature.WarmBytesAreRebuilt | src/xmss_core.rs:14-17 | signing from a warm cache and from a rebuilt one yields the same layer bytes |
| CachedSignature.TouchedIsCoherent | src/xmss_core.rs:677-691 | storing the signatures that were used, for any subset of the layers, keeps a cache coherent |
| CachedSignature.CachedCallIsCall | src/xmss_core.rs:665-691 | with a coherent cache every one-time key signs what the key specifies for its index |
| Signer.FromCompactKey | src/xmss_core.rs:34-52 | the rebuilt cache, or the empty one for an exhausted key |
| Signer.SeedKeypair | src/xmss_core.rs:482-525 | key bytes: index 0, the first 2n seed bytes, the root of the top tree, the last n seed bytes; public-key bytes: the same root and the last n seed bytes; and a ready cache |
| LayerWriting.LayerWots | src/xmss_core.rs:668-691 | the stored signature if an upper layer has one, otherwise a fresh one, which is then stored; the one-time key is used exactly in the second case |
| LayerWriting.WriteLayers | src/xmss_core.rs:656-698 | fills the layers behind index and R to the end from any cache as it stands, changing only stored signatures; a missing layer is an error; every one-time key used is recorded |
| Signer.FillSignature | src/xmss_core.rs:636-698 | with a coherent cache the result is the specified signature and the cache stays coherent |
| Signer.StillSynced | src/xmss_core.rs:626-634 | once the index has moved in the key, a cache left for the old index is harmless |
| Signer.Sign | src/xmss_core.rs:570-718 | the exact signature, key bytes, cache and one-time keys used of a call, or a refused call that leaves key and cache in agreement and no key used before the index is spent, or exhaustion; the signature carries the stored index, R cut from the PRF of SK_PRF and the index, and a layer-0 signature of the digest of R, root, index and message |
| Signer.SignAttached | src/xmss_core.rs:548-557 | the same with the message appended |
| Verifier.VerifyLayer | src/xmss_commons.rs:197-235 | one layer's recovered root, reusing the dirty addresses of the layers before |
| Verifier.VerifyDetached | src/xmss_commons.rs:157-241 | succeeds only on accepted signatures, whose digest of R, root, index and message leads to the public root and whose top layer is bound, and reports failed verification only on others |
| Verifier.SignOpen | src/xmss_commons.rs:138-153 | returns exactly the appended message of an accepted signature, and clears the output otherwise |
| Runs.EverySignIsAStep | src/xmss_core.rs:570-718 | every outcome of a signing call made with an agreeing cache is one of the run events, with its answer and the one-time keys it used |
| Runs.Invariant | src/xmss_core.rs:85-135 | over every run with reloads and refused calls the cache agrees with the key bytes; after c spent indices the key holds index c and its fields |
| Runs.Capacity | src/xmss_core.rs:594-634 | indices are spent as 0, 1, 2, ... without gaps; refusal happens exactly after 2^full_height; only index bytes change before |
| Runs.FaultFreeProgress | src/xmss_core.rs:570-718 | without refused hash calls, signing succeeds exactly while the index is in range |
| Runs.IssuedIsAccepted | src/xmss_core.rs:570-718 | every signature of every run, until the last index is signed with, is the specified one and verifies under the generated key |
| Runs.IssuedWhenErased | src/xmss_core.rs:626-714 | any signature after that is made under the last index, without room for the marker, by a key of zeros |
| Runs.CoveredIsUnerased | src/xmss_core.rs:626-634 | with room for the marker, or indices left, every spent index is spent by a key that has its fields |
| Runs.SpentIncrease | src/xmss_core.rs:626-634 | spent indices strictly increase, up to the last index, and on the whole run when the marker has room |
| Runs.OneTimeKeys | src/xmss_core.rs:658-698 | until the key is erased, any two uses of one one-time key in a run, refused calls included, sign the same message, and at layer 0 belong to one call; the one exception is the layer-0 key of the last index after a refused call, without room for the marker |
| Runs.CacheCoherent | src/xmss_core.rs:85-106 | a cache marked for the key's index is coherent, at every point of every run |
| Runs.WarmIsReloaded | src/xmss_core.rs:14-17 | after generation, a signature or a reload the cache is what a reload builds, up to stored signatures, except exactly after the last signature of a key without room for the marker |
| Exhaustion.SecondIsErased | src/xmss_core.rs:626-634 | two signatures under one index occur only under the last index, without room for the marker, and the second is made by an erased key |
| Exhaustion.MarkerCollides | src/xmss_core.rs:594-634 | without room for the marker, on every run: no call is refused as exhausted, the last index is spent again and again, and without refused hash calls every call returns a signature, those after the last index being made by an erased key |
| Exhaustion.SpoiledLastRepeats | src/xmss_core.rs:626-655 | without room for the marker, a refused call at the last index and the next call use the same layer-0 key with the original fields |
| Exhaustion.OriginalKeyIff | src/xmss_core.rs:594-634 | on all runs an index repeats only after the last signature erased the key, if and only if the marker has room or no hash call is refused |
| Exhaustion.OneTimeIff | src/xmss_core.rs:594-634 | no index is spent twice on all runs if and only if 8 * index_bytes > full_height; otherwise one is on every run that spends more indices than there are |
| Exhaustion.LatchIff | src/xmss_core.rs:594-603 | refusal after the last index, forever, holds on all runs if and only if 8 * index_bytes > full_height; otherwise on no run that spends more indices than there are |
| Execution.Execute | src/xmss_core.rs:482-718 | generation and any script of signing calls and reloads, any hash call refused or not, is a run of the key; the answers are those of the run, and every signature until the last index is signed with is accepted under the returned public key |
| Execution.FaultFreeFollows | src/xmss_core.rs:570-718 | without refused hash calls every command of a script has exactly its own event |
| Execution.SignBoth | src/xmss_core.rs:14-17 | a warm session and one whose cache is a reload of the same bytes each make a specified step, return the same signature and end with the same bytes and cache, up to stored signatures, unless a hash call was refused |
| EndToEnd.SignAndOpen | src/xmss_core.rs:548-557 | what was signed carries its index, is accepted, and opens to exactly the message, for every index up to the last |
| EndToEnd.WholeLife | src/xmss_core.rs:727-769 | from generation to the last index, every signature carries its index, is accepted and opens to its message, for every parameter set; the call after the last is refused if and only if the marker has room, and otherwise signs under the last index with a key of zeros; key and cache end erased and empty |

## Left out

- Parameters.XmssParams.Derive: does not model how the digest functions are chosen from family and size; their choice is a parameter that may be an error.
- Execution.Perform: after a refused reload the session goes on with the cache it had, where a program that has dropped it would reload again.
- SHA-2 and SHAKE, digest dispatch, padding prefixes and the XOR with the masks: inside the uninterpreted digest functions.
- `n > 64` and digest-width error branches (src/wots.rs, src/xmss_commons.rs:22-27, src/xmss_core.rs:578-583): no parameter set reaches them.
- `full_height >= 64`: no parameter set reaches it.
- `xmssmt_core_keypair`: only the derivation from a given seed is modelled, not the drawing of the seed.
- src/boxed.rs, src/xmss.rs, PKCS#8, OID tables and names: typed wrappers and encodings around the modelled core.
- Zeroization of memory and constant-time comparison: only their functional effects are kept (empty cache, erased key, equality).
- Replacing a layer (`*state = build_layer_state(..)`) puts a new object in its place instead of overwriting the old one; no other reference to the old one exists.
- Layer 0's WOTS+ signature is made in a buffer of its own and copied, like those of the upper layers, instead of directly in the signature.
- Address setters other than the two listed, and `set_type`: their contracts state one word each and have no row.
- Cryptographic strength: no claim is made.
