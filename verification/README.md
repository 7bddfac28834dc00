# Verified model of the N42 state tree, bootstrap, audit, relay and replay

This project models five parts of the N42 node and its tools in Dafny and proves what each of them
is for. `dafny verify dfyconfig.toml` checks all of it.

* **State tree** (`Hashing`, `Arithmetic`, `MerkleTree`, `Arena`, `Sbmt`, `BmtProof`, `ShardTree`,
  `ShardedProof`, `ShardedSbmt`, `StateDiff`). The sparse binary Merkle tree is a class over a flat node arena
  with a recycled free list, in-place splits, collapses and lazily cached hashes. It is proved
  against a map from keys to value hashes and the canonical tree of that map. The hash function is
  a parameter and nothing is assumed about it. Since every function to 32 bytes collides somewhere,
  a soundness result says where: from an accepted false claim it computes two different inputs with
  one hash, one that the verifier of the proof hashes and one that the other side hashes, or such an
  input that hashes to the empty hash.
* **Bootstrap** (`Bootstrap`). A data directory of five files, each replaced atomically, with a
  crash after any of the writes and node progress between runs.
* **Throughput audit** (`Rlp`, `NativeHeader`, `Receipts`, `Audit`, `HonestFleet`). The RLP codec, the strict
  header parser, the receipt stream that is hashed without an outer list, and the ancestry check
  against validators that may answer anything at any call. Its binding results name the two headers
  or receipt lists that would have to collide, and which validator gave them.
* **Decision relay** (`Decimal`, `Distribution`, `Reread`, `Archive`). Decimal text to parts per million,
  the window that the contract accepts, and the first-writer-wins archive as a state machine over
  any number of interleaved evaluators with crashes.
* **Historical replay** (`Replay`). Payloads and fork-choice updates against an engine that may
  answer anything.

Operations that change state in the source are classes and methods here; each is proved against
functions on values, and the theorems are about those functions. Automatic induction is switched
off on every lemma, so that each inductive proof is the one written down.

Several properties turned out not to hold as one might state them. The exact conditions are proved,
with an input for each:

* An honest inclusion or exclusion proof verifies exactly when the base depth is at most 256
  (`BmtProof.ProveAccepted`, `Sbmt.Sbmt.Prove`): the tree takes any base depth, the verifier does
  not.
* Applying a bundle lowers a persisted vote watermark or the view of the persisted lock exactly when
  the snapshot on disk is ahead in none of the three compared components and the bundle's value is
  the smaller one (`Bootstrap.WatermarkLowered`, `Bootstrap.RestartKeeps`);
  `Bootstrap.WatermarkCanDrop` and `Bootstrap.LockCanGoBack` are runs from an empty directory in
  which that happens. The vote log and the lock file that the node keeps beside
  the snapshot are not part of this model.
* After a bundle went through, receipt and assets are its own, and the snapshot is too unless the one
  on disk was ahead (`Bootstrap.DoneFiles`). `Bootstrap.OlderBundleAgain` is a run that ends with one
  bundle's snapshot over an older one's receipt and assets whenever the newer one is ahead.
* A distribution within a millionth of one is still turned down by the contract's window exactly when
  it sums to 1.000001 and no option was rounded (`Distribution.WindowExact`,
  `Distribution.WindowRejects`).
* Attestations of one request always carry one evidence file, and carry the same answers in every
  run exactly when the JSON codec does not split a response between its writer and its readers
  (`Archive.AgreementExact`). A parser that rounds the digits of a fraction to a double before it
  divides, as those do that give up exact round trips for speed, splits the response
  0.00010099999999999999, which it reads back as 0.000101 (`Archive.SplitExists`); fractions come back
  as they were exactly if their digits are a double (`Reread.ComesBackExactly`).
* A comment in `bin/n42-node/src/main.rs` promises at most `fcu_interval - 1` blocks of rework after a
  restart. A whole interval stays open exactly when the fork-choice update of a full batch is refused
  (`Replay.ReworkExact`, `Replay.WholeIntervalOpen`).

The conversion of a JSON number to millionths is exact (`Decimal.PrintedExactly`). On the level of
text there is a limit, a 32-bit shift that wraps around (`Decimal.QuantizedExactly`,
`Decimal.HugeExponentWraps`); no number that is printed from 64 bits comes near it.

## Model

| member | source | states |
|---|---|---|
| MerkleTree.Insert | crates/n42-bmt-core/src/lib.rs:291-348 | inserting keeps every key on the side its bit selects and changes the map at that key only; it ends although a split recurses twice at one depth, and no bit past 255 is read |
| MerkleTree.InsertKeepsDense | crates/n42-bmt-core/src/lib.rs:291-348 | after an insert every internal node still has two leaves below it, also through the intermediate one-leaf node of a split |
| MerkleTree.Remove | crates/n42-bmt-core/src/lib.rs:365-402 | removing keeps the placement and takes exactly that key out of the map, whatever its prefix |
| MerkleTree.RemoveKeepsDense | crates/n42-bmt-core/src/lib.rs:404-425 | collapsing after a removal leaves no internal node with fewer than two leaves, and drops one leaf iff the key was there |
| MerkleTree.SplitHasRoom | crates/n42-bmt-core/src/lib.rs:102-104 | two distinct keys with a common prefix part before bit 256 |
| MerkleTree.DenseIsCanonical | crates/n42-bmt-core/src/lib.rs:283-437 | every placed tree without thin nodes is the canonical tree of its map, so the history leaves no trace |
| MerkleTree.CanonHolds | crates/n42-bmt-core/src/lib.rs:148-155 | the canonical tree of a map holds exactly that map and is placed and dense |
| MerkleTree.LeafCountIsSize | crates/n42-bmt-core/src/lib.rs:202-204 | as many leaves as keys |
| MerkleTree.InternalsBound | crates/n42-bmt-core/src/lib.rs:250-275 | a non-empty tree has at least one internal node less than leaves |
| MerkleTree.Lookup | crates/n42-bmt-core/src/lib.rs:440-458 | following the bits finds exactly what the map holds |
| Arena.StoredFrame | crates/n42-bmt-core/src/lib.rs:108-126 | a stored tree with its caches is unaffected by writes to slots it does not own |
| Arena.AllOwnedUpdate | crates/n42-bmt-core/src/lib.rs:214-230 | when one operation trades slots only with the free list, every arena slot is again either live once or free once |
| Arena.AllOwnedCount | crates/n42-bmt-core/src/lib.rs:250-275 | live and free slots together count the arena |
| Arena.UpdateCount | crates/n42-bmt-core/src/lib.rs:214-230 | an operation takes exactly as many slots into use as the tree gains nodes |
| Arena.FitsExact | crates/n42-bmt-core/src/lib.rs:108-126 | a map fits into the arena iff its keys share the base prefix and its canonical tree has at most 2^32 - 1 nodes |
| Sbmt.Sbmt.constructor | crates/n42-bmt-core/src/lib.rs:175-195 | an empty tree with its base depth |
| Sbmt.Sbmt.Alloc | crates/n42-bmt-core/src/lib.rs:214-224 | a slot that nobody owned, from the free list or the end, and nothing else changes |
| Sbmt.Sbmt.FreeSlot | crates/n42-bmt-core/src/lib.rs:226-230 | the slot moves from the live set to the free list, which stays free of repeats |
| Sbmt.Sbmt.InsertAt | crates/n42-bmt-core/src/lib.rs:291-348 | the arena below the slot becomes the value-level insert, caches coherent, slots disjoint, and no slot number reaches the null index |
| Sbmt.Sbmt.Split | crates/n42-bmt-core/src/lib.rs:315-327 | the leaf's slot turned internal and filled twice is the value-level insert |
| Sbmt.Sbmt.Descend | crates/n42-bmt-core/src/lib.rs:328-347 | the cache is dropped and the child link written back, so the node stores the updated subtree |
| Sbmt.Sbmt.RemoveAt | crates/n42-bmt-core/src/lib.rs:365-402 | the arena below the slot becomes the value-level remove, without growth |
| Sbmt.Sbmt.Collapse | crates/n42-bmt-core/src/lib.rs:407-425 | the collapsed tree, with the slot on the free list exactly when it is no longer used |
| Sbmt.Sbmt.NodeHash | crates/n42-bmt-core/src/lib.rs:232-248 | the memoizing hash equals the uncached recursive hash and writes only below the node asked about |
| Sbmt.Sbmt.RootHash | crates/n42-bmt-core/src/lib.rs:278-280 | the root hash is, in bytes: 32 zero bytes for the empty map; for one key the hash of 00, key and value; else the hash of 01, the root of the keys with a 0 bit at the depth and the root of those with a 1 bit |
| MerkleTree.RootExactly | crates/n42-bmt-core/src/lib.rs:24-41 | hashing the canonical tree of a map gives these bytes, for all keys that agree on the bits before the depth |
| Hashing.BitByWeight | crates/n42-bmt-core/src/lib.rs:102-104 | bit d of a key is the bit of weight 128, 64, .., 1 of its byte d / 8 |
| Sbmt.Sbmt.InsertHashed | crates/n42-bmt-core/src/lib.rs:283-289 | the map gains the entry, `len` follows, and every invariant of the arena holds again, whenever the tree of the updated map fits |
| Sbmt.Sbmt.Insert | crates/n42-bmt-core/src/lib.rs:351-353 | as above, with the hash of the raw value |
| Sbmt.Sbmt.Remove | crates/n42-bmt-core/src/lib.rs:356-363 | the key leaves the map, reported iff it was there, for any key |
| Sbmt.Sbmt.ApplyBatch | crates/n42-bmt-core/src/lib.rs:428-437 | the map after all updates in order, later ones winning |
| Sbmt.Sbmt.Get | crates/n42-bmt-core/src/lib.rs:440-458 | the map's answer |
| Sbmt.Sbmt.WalkPath | crates/n42-bmt-core/src/lib.rs:461-506 | the walk yields the proof of the tree as a value |
| Sbmt.Sbmt.Prove | crates/n42-bmt-core/src/lib.rs:461-506 | the proof answers as the map does, is at most 256 minus the base depth long, and is accepted for the current root iff the base depth is at most 256 |
| Sbmt.Sbmt.CollectStats | crates/n42-bmt-core/src/lib.rs:250-268 | counts of the subtree and the bytes they take |
| Sbmt.Sbmt.Stats | crates/n42-bmt-core/src/lib.rs:271-275 | one leaf per key, at least that many internal nodes less one, and live plus free slots make up the arena |
| Sbmt.CachesCoherent | crates/n42-bmt-core/src/lib.rs:119-123 | in every valid state a cached hash is the hash of the subtree stored there now |
| Sbmt.SameContentSameTree | crates/n42-bmt-core/src/lib.rs:784-814 | two trees with one map, hash function and base depth have one shape and one root, whatever led there |
| BmtProof.Verify | crates/n42-bmt-core/src/lib.rs:547-590 | the loop accepts exactly the proofs whose end folds up to the root, on arbitrary input |
| BmtProof.SharesPrefix | crates/n42-bmt-core/src/lib.rs:595-597 | says whether two keys agree on the given range of bits |
| BmtProof.ProveAnswers | crates/n42-bmt-core/src/lib.rs:461-506 | the proof claims what the tree holds; an occupying leaf is a live entry sharing the whole path with the key |
| BmtProof.ProveAccepted | crates/n42-bmt-core/src/lib.rs:547-590 | an honest proof is accepted with the tree's answer and no other, iff the base depth is at most 256 |
| BmtProof.ProveHashed | crates/n42-bmt-core/src/lib.rs:461-590 | a verifier of an honest proof hashes only inputs that the root of the tree hashes |
| BmtProof.Extract | crates/n42-bmt-core/src/lib.rs:570-589 | two paths of one key from different ends to one root: an input hashed on the one collides with one hashed on the other, or hashes to the empty hash |
| BmtProof.Conflict | crates/n42-bmt-core/src/lib.rs:547-590 | two accepted answers for one key under one root break the hash function between inputs that the verifiers of the two proofs hash |
| BmtProof.Forgery | crates/n42-bmt-core/src/lib.rs:547-590 | an accepted claim that is not what the tree holds breaks it between an input that the proof's verifier hashes and one that the tree's root hashes |
| ShardTree.ShardTreeRoot | crates/n42-bmt-core/src/lib.rs:612-619 | pairing up level by level is the recursive Merkle root |
| ShardTree.ShardTreePath | crates/n42-bmt-core/src/lib.rs:621-632 | the siblings of the leaf, one for each level |
| ShardTree.ShardTreeRootFromPath | crates/n42-bmt-core/src/lib.rs:634-646 | the loop is the recursive fold of the path |
| ShardTree.PathFoldsToRoot | crates/n42-bmt-core/src/lib.rs:612-646 | for every power of two and every index, the path leads from its leaf to the root |
| ShardTree.TruePathHashed | crates/n42-bmt-core/src/lib.rs:612-646 | a true path hashes only inputs that are hashed for the root, level by level |
| ShardTree.PathsClash | crates/n42-bmt-core/src/lib.rs:634-646 | two paths of one length from different leaves at one index to one root: an input hashed on the one collides with one hashed on the other |
| ShardTree.Detour | crates/n42-bmt-core/src/lib.rs:634-646 | on a full-length path from another leaf to the root an input collides with one that is hashed for the root |
| ShardedProof.SameShardSharesPrefix | crates/n42-bmt-core/src/lib.rs:88-98 | two keys route to one shard iff they agree on the four bits that its tree skips |
| ShardedProof.Verify | crates/n42-bmt-core/src/lib.rs:683-727 | accepts iff index, path length, combined root, value hash and in-shard proof all hold, and each error is given iff it is the first to fail |
| ShardedProof.VerifyForKey | crates/n42-bmt-core/src/lib.rs:729-745 | in addition the proof is about this key, in this key's shard |
| ShardedProof.AbsentEverywhere | crates/n42-bmt-core/src/lib.rs:88-98 | a key without an answer is in none of the sixteen shards |
| ShardedProof.ForgedAnswer | crates/n42-bmt-core/src/lib.rs:683-745 | a proof accepted for a key with an answer that the state does not hold breaks the hash function between an input that the proof's verifier hashes and one hashed for the combined root |
| ShardedProof.ConflictingValues | crates/n42-bmt-core/src/lib.rs:683-745 | two proofs accepted for one key under one combined root carry one value, or break the hash function between inputs that their verifiers hash, with no tree known |
| ShardedSbmt.TreesForHold | crates/n42-jmt/src/sharded_bmt.rs:28-67 | the sixteen trees of a state hold exactly the state, each key in its shard |
| ShardedSbmt.WrongValue | crates/n42-jmt/src/sharded_bmt.rs:279-292 | an accepted proof against the root of a state carries the raw value stored there or none, or breaks the hash function between an input that its verifier hashes and one hashed for the state |
| ShardedSbmt.ShardsCommute | crates/n42-jmt/src/sharded_bmt.rs:206-234 | applying each shard's updates to its part is applying all updates in order to the whole |
| ShardedSbmt.ShardedSbmt.constructor | crates/n42-jmt/src/sharded_bmt.rs:58-67 | sixteen empty shards at version 0 |
| ShardedSbmt.ShardedSbmt.Roots | crates/n42-jmt/src/sharded_bmt.rs:75-78 | the sixteen canonical shard roots, in order |
| ShardedSbmt.ShardedSbmt.RootHash | crates/n42-jmt/src/sharded_bmt.rs:75-78 | the combined root is a function of the state alone: the roots of the keys that start with each nibble, hashed in pairs as the hash of left and right |
| ShardedSbmt.StateRootExactly | crates/n42-jmt/src/sharded_bmt.rs:75-78 | the shard tree over the roots of the sixteen shards is that root, in bytes |
| ShardedSbmt.ShardedSbmt.Get | crates/n42-jmt/src/sharded_bmt.rs:81-83 | the raw value of the state |
| ShardedSbmt.ShardedSbmt.ProveInShard | crates/n42-jmt/src/sharded_bmt.rs:279-281 | the in-shard proof is accepted with the hash of the state's value |
| ShardedSbmt.ShardedSbmt.ProveShard | crates/n42-jmt/src/sharded_bmt.rs:283-288 | the path leads from the shard's root to the combined root |
| ShardedSbmt.ShardedSbmt.Prove | crates/n42-jmt/src/sharded_bmt.rs:279-292 | the light client accepts the proof for this key under the current root, with the state's raw value |
| ShardedSbmt.ShardedSbmt.PutInShard | crates/n42-jmt/src/sharded_bmt.rs:215-227 | tree and value map of the shard move together, and no other shard moves |
| ShardedSbmt.ShardedSbmt.ApplyShard | crates/n42-jmt/src/sharded_bmt.rs:214-229 | the shard holds its part after all its updates |
| ShardedSbmt.ShardedSbmt.ApplyUpdates | crates/n42-jmt/src/sharded_bmt.rs:206-234 | the state after all updates, one version on, and its root |
| ShardedSbmt.ShardedSbmt.InsertRaw | crates/n42-jmt/src/sharded_bmt.rs:85-89 | the entry is added without a new version |
| ShardedSbmt.FromSnapshot | crates/n42-jmt/src/sharded_bmt.rs:294-312 | a snapshot is accepted iff its root is that of its entries, and then holds exactly them |
| ShardedSbmt.SnapshotRoundTrip | crates/n42-jmt/src/sharded_bmt.rs:263-312 | any listing of a state rebuilds to the state's root |
| StateDiff.CodeHashInverse | crates/n42-jmt/src/tree.rs:31-54 | the code hash is read back from the leaf it was written to |
| StateDiff.RefusedExactly | crates/n42-jmt/src/sharded_bmt.rs:130-203 | a diff is refused iff some account without change of code is modified but absent, or has a leaf cut short |
| StateDiff.Prepare | crates/n42-jmt/src/sharded_bmt.rs:130-203 | the updates of all accounts and slots in order, or nothing |
| StateDiff.ApplyDiff | crates/n42-jmt/src/sharded_bmt.rs:206-234 | refused with nothing changed exactly then, else all updates applied, one version on, with the root of the new state |
| StateDiff.EntryWins | crates/n42-jmt/src/sharded_bmt.rs:206-234 | a key that is updated once gets that value |
| StateDiff.OthersKept | crates/n42-jmt/src/sharded_bmt.rs:206-234 | a key that is not updated keeps its own |
| StateDiff.DiffApplied | crates/n42-jmt/src/sharded_bmt.rs:130-234 | while no two keys of a diff coincide: a destroyed account has no leaf; any other has 72 bytes, of which 0 to 31 are the balance, 32 to 39 the nonce and 40 to 71 the new code hash, or bytes 40 to 71 of its former leaf if the code did not change; a slot has its new word, or nothing if that is zero or the account is gone |
| StateDiff.NewLeafIs | crates/n42-jmt/src/tree.rs:31-54 | the encoder lays a leaf out in this way, and the decoder finds the code hash where it was put |
| Bootstrap.VerifyNeverInvalid | crates/n42-consensus-service/src/bootstrap.rs:140-229 | the closing snapshot validation never rejects what the earlier checks passed |
| Bootstrap.LoadedAgain | crates/n42-consensus-service/src/persistence.rs:364-420 | loading a snapshot, which raises the commit vote of old versions, settles it and lowers no vote |
| Bootstrap.LoadedExactly | crates/n42-consensus-service/src/persistence.rs:364-420 | a snapshot loads iff it has version 2 or later, its certificates do not run ahead of each other or of the view, and both votes are at most 128 views ahead; before version 5 the later vote counts as the commit vote |
| Bootstrap.VerifiedExactly | crates/n42-consensus-service/src/bootstrap.rs:140-274 | a bundle verifies iff version, digest, sequence, nonce, chain, genesis, validators one by one, certificates and artifacts all fit the configuration, and its snapshot starts from the fields of the payload |
| Bootstrap.SuccessorExact | crates/n42-consensus-service/src/bootstrap.rs:140-345 | a directory filled by one verified bundle takes another iff it is the same or has a higher sequence, is behind in nothing and does not fork at its view, unless the digest collides |
| Bootstrap.DataDir.Materialize | crates/n42-consensus-service/src/bootstrap.rs:276-381 | a rejected bundle changes nothing; an accepted one performs its five writes in order up to the crash, if any |
| Bootstrap.DataDir.ApplyBundle | crates/n42-consensus-service/src/bootstrap.rs:140-381 | verifying and materializing is one step of the runs below: a bundle that is not admissible changes nothing, and an admissible one fills an empty directory with its receipt, its snapshot and its three assets |
| Bootstrap.ReceiptIsForChain | crates/n42-consensus-service/src/bootstrap.rs:140-381 | over every run from an empty directory, whatever the digest function, the receipt is that of an admissible bundle for the chain, the validators and the fault tolerance of the configuration |
| Bootstrap.DataDir.Run | crates/n42-consensus-service/src/bootstrap.rs:276-381 | a directory goes through a run as the run's final disk says |
| Bootstrap.DataDir.Retry | crates/n42-consensus-service/src/bootstrap.rs:285-381 | a bundle retried after any crashes until it gets through leaves the uninterrupted disk |
| Bootstrap.CrashConverges | crates/n42-consensus-service/src/bootstrap.rs:285-381 | after a crash at any write the same bundle is accepted again with the same snapshot and ends in the uninterrupted disk |
| Bootstrap.RetriesConverge | crates/n42-consensus-service/src/bootstrap.rs:285-381 | so does any number of crashed attempts before one that finishes |
| Bootstrap.RestartAfterProgress | crates/n42-consensus-service/src/bootstrap.rs:286-341 | if the node's snapshot changed in between, the bundle is accepted again iff that one loads and, with it ahead, the receipt had been written, and otherwise the two do not conflict at one view |
| Bootstrap.RunForward | crates/n42-consensus-service/src/bootstrap.rs:276-381 | over every run of applications, crashes and node progress, receipt sequence, current view, committed view and block count never decrease |
| Bootstrap.SequenceUsedOnce | crates/n42-consensus-service/src/bootstrap.rs:285-305 | two applications with one sequence, anywhere in a run, have one digest and nonce, and one payload unless the digest collides |
| Bootstrap.DoneFiles | crates/n42-consensus-service/src/bootstrap.rs:285-381 | once a bundle is through, receipt and assets are its own, and the snapshot is too iff the one before was not ahead |
| Bootstrap.OlderBundleAgain | crates/n42-consensus-service/src/bootstrap.rs:285-381 | after a successor crashed before its receipt, the older bundle goes through again; the snapshot is the successor's iff that is ahead, under the older bundle's receipt and assets |
| Bootstrap.ReceiptCovered | crates/n42-consensus-service/src/bootstrap.rs:285-381 | over every run the receipt is that of the last bundle that went through, its assets are there, and the snapshot is not behind its checkpoint, unless in that run a bundle is applied over the receipt of another with the same digest |
| Bootstrap.ClashIsKnown | crates/n42-consensus-service/src/bootstrap.rs:285-305 | such a clash is between two bundles of the run, or one and the bundle whose receipt was there before |
| Bootstrap.WatermarkLowered | crates/n42-consensus-service/src/bootstrap.rs:286-341 | exactly when applying a bundle lowers either persisted vote watermark or the view of the persisted lock |
| Bootstrap.RestartKeeps | crates/n42-consensus-service/src/bootstrap.rs:286-341 | a node's own snapshot survives a restart on its bundle iff it is ahead, contradicts the bundle or is the bundle's |
| Bootstrap.WatermarkCanDrop | crates/n42-consensus-service/src/bootstrap.rs:286-341 | a run from an empty directory in which a restart forgets the votes of the first view |
| Bootstrap.LockCanGoBack | crates/n42-consensus-service/src/bootstrap.rs:286-341 | and one in which it forgets a lock of that view |
| Rlp.BigEndianInverse | scripts/h2-tps-audit.py:67-79 | decoding the shortest big-endian bytes gives the number back |
| Rlp.BigEndianCanonical | scripts/h2-tps-audit.py:110-135 | bytes without a leading zero are the shortest encoding of their number |
| Rlp.ReadInvertsEncode | scripts/h2-tps-audit.py:67-135 | reading an encoded item before any tail returns its payload, its kind and its exact end |
| Rlp.ReadIsCanonical | scripts/h2-tps-audit.py:110-135 | every item that is read re-encodes to the very bytes it was read from |
| Rlp.ItemsPrefixFree | scripts/h2-tps-audit.py:67-79 | no encoded item is a proper prefix of another |
| Rlp.StreamUnique | scripts/h2-tps-audit.py:67-79 | a stream of encoded values without an outer list decodes in one way only |
| Rlp.ItemsExactly | scripts/h2-tps-audit.py:67-135 | a byte string encodes a list of values iff reading it item by item finds these values, nested lists included |
| NativeHeader.ReadFields | scripts/h2-tps-audit.py:138-163 | the loop over positions is the recursive split of the payload |
| NativeHeader.HeaderFields | scripts/h2-tps-audit.py:138-163 | returns fields iff they are width-valid and encode to exactly this header |
| NativeHeader.WidthsExactly | scripts/h2-tps-audit.py:150-162 | the widths, field by field: which are hashes, integers without leading zeros, optional, or free |
| NativeHeader.HeaderUnique | scripts/h2-tps-audit.py:138-163 | a header has one list of fields |
| Receipts.StreamDetermines | scripts/h2-tps-audit.py:199-261 | two receipt lists with one byte stream agree on every status, cumulative gas and log |
| Receipts.StreamExactly | scripts/h2-tps-audit.py:199-261 | the stream is the one byte string that reads back, item by item, as a list of status, cumulative gas and logs of address, topics and data for each receipt |
| Receipts.TransferStream | scripts/h2-tps-audit.py:199-261 | one plain transfer is c5 01 82 52 08 c0 |
| Receipts.CleanLogExactly | scripts/h2-tps-audit.py:245-250 | a log parses iff it has a 20-byte address, at most four topics of 32 bytes each, and data, and says what its fields say |
| Receipts.CleanSays | scripts/h2-tps-audit.py:214-254 | what goes into the stream for a receipt is its own status, cumulative gas and logs |
| Receipts.AcceptedExactly | scripts/h2-tps-audit.py:199-261 | acceptance without the encoder: receipts in order, gas as in the block, and the root is the hash of the byte string that reads as what they say |
| Receipts.DifferentReceipts | scripts/h2-tps-audit.py:199-261 | the streams of two different accepted lists for one receipts root collide |
| Receipts.ReadReceipt | scripts/h2-tps-audit.py:207-256 | one receipt is taken iff it is in place with binary status, consistent gas and contiguous logs |
| Receipts.Gather | scripts/h2-tps-audit.py:199-261 | the loop's stream, gas, log index and counts are those of the receipts so far |
| Receipts.Summarize | scripts/h2-tps-audit.py:199-261 | accepts exactly the receipts that the block's gas and root commit to, and counts them as successes and failures by status |
| Receipts.GasTelescopes | scripts/h2-tps-audit.py:218-226 | the gas of single receipts sums to the block's gas |
| Receipts.AcceptedConserves | scripts/h2-tps-audit.py:199-261 | gas sums to the block's gas, and successes plus failures to the transactions |
| Receipts.LogIndicesContiguous | scripts/h2-tps-audit.py:228-250 | log indices run from 0 without gaps over the whole block |
| Audit.VerifyHeader | scripts/h2-tps-audit.py:166-182 | accepts iff the header hashes to the block and says what the block says |
| Audit.HeaderClash | scripts/h2-tps-audit.py:166-182 | two blocks with one hash agree on what the header covers, or their two headers collide |
| Audit.FirstHeight | scripts/h2-tps-audit.py:561 | the greatest start height |
| Audit.LastHeight | scripts/h2-tps-audit.py:562 | the least end height |
| Audit.Auditor.At | scripts/h2-tps-audit.py:537-543 | a block that the validator gave for this height, with a header of its own if asked for |
| Audit.Auditor.FetchHeader | scripts/h2-tps-audit.py:166-182 | a header that the validator gave for this block, and that is the block's |
| Audit.Auditor.StepAt | scripts/h2-tps-audit.py:605-613 | block and header that the validator gave for a height, both kept |
| Audit.Auditor.CheckCapture | scripts/h2-tps-audit.py:547-556 | the captured blocks are still what the validator gives, in order, with authentic headers |
| Audit.Auditor.CheckCaptures | scripts/h2-tps-audit.py:547-556 | every validator still gives its captured blocks, in order, with authentic headers; they do if taken from an honest chain |
| Audit.Auditor.FetchReceipts | scripts/h2-tps-audit.py:185-196 | at most three calls; a list that the validator gave, of the expected length |
| Audit.Auditor.CheckRemote | scripts/h2-tps-audit.py:579-592 | the validator gave this block, the header that is kept and receipts that sum up to the result |
| Audit.Auditor.CheckRemotes | scripts/h2-tps-audit.py:578-594 | every validator did, with the same sums; the last one's header is kept |
| Audit.Auditor.CountBlock | scripts/h2-tps-audit.py:571-597 | one counted block: its height, its parent, every validator's word and the header kept |
| Audit.Auditor.CountInterval | scripts/h2-tps-audit.py:565-597 | the heights after the anchor up to the last, each once, hash-linked and vouched for by every validator |
| Audit.Auditor.CheckEnds | scripts/h2-tps-audit.py:598-600 | every validator gives both ends at their heights, with their headers |
| Audit.Auditor.Walk | scripts/h2-tps-audit.py:605-616 | a hash-linked path from the lower to the upper block over blocks and headers that this validator gave |
| Audit.Auditor.WalkAll | scripts/h2-tps-audit.py:603-618 | such a path below and above the interval for every validator, from its own replies |
| Audit.Auditor.Totals | scripts/h2-tps-audit.py:619-620 | the sums over the counted blocks |
| Audit.Auditor.Audit | scripts/h2-tps-audit.py:547-620 | whatever the validators reply, an accepted report puts certified starts, anchor, counted blocks and certified ends on one chain and counts each height once; on an honest fleet it accepts iff there is common progress |
| Audit.ReportIsGood | scripts/h2-tps-audit.py:561-620 | the collected pieces join into one consecutive chain for every validator |
| Audit.CountsPartition | scripts/h2-tps-audit.py:619-620 | successful and failed transactions add up to all counted ones |
| Audit.Divergence | scripts/h2-tps-audit.py:565-597 | two chains of records, with headers, that part and end in one hash: a place after the parting where the headers of the two collide |
| Audit.ForkBelow | scripts/h2-tps-audit.py:601-618 | if two validators' chains differ at a height up to the anchor, a height above it at which their two headers collide |
| Audit.ForkUpTo | scripts/h2-tps-audit.py:561-618 | the same up to the last counted block, since in between all chains have the counted blocks |
| Audit.ForkExposed | scripts/h2-tps-audit.py:547-618 | so a fork takes two colliding headers for one height that the two validators themselves gave |
| Audit.DifferentCounts | scripts/h2-tps-audit.py:199-261 | records of two blocks with one receipts root count alike, or the streams of the receipts that they were counted from collide |
| Audit.DifferentTotals | scripts/h2-tps-audit.py:561-620 | two accepted reports with one first height and one last counted hash have the same totals, or the headers of two of their records collide, or the streams of receipts that any chosen validator of the one and of the other gave for a block |
| HonestFleet.HonestExists | scripts/h2-tps-audit.py:547-620 | fleets of any size that serve one chain of two blocks, the second with a transfer, captured at its ends, exist for every hash function that tells the two headers apart |
| Decimal.U128Below | bin/n42-decision-relay/src/lib.rs:337-339 | every u128 is below 10^39, so cutting off below shift -38 is exact |
| Decimal.ScaleIsFloor | bin/n42-decision-relay/src/lib.rs:335-350 | the scaled integer is the integer part of the shifted value, in all three branches |
| Decimal.MillionthsExact | bin/n42-decision-relay/src/lib.rs:320-351 | readable text gives the mathematically scaled digits for the wrapped shift, and fails exactly for shifts above 38 and results of 2^64 or more |
| Decimal.TextParts | bin/n42-decision-relay/src/lib.rs:321-334 | splitting, filtering and parsing the text of a JSON number gives its digits and exponent |
| Decimal.ValueJoined | bin/n42-decision-relay/src/lib.rs:325-335 | whole part plus fraction times the power of ten is the number of all digits with the point moved, as the code computes it |
| Decimal.PrintedExactly | bin/n42-decision-relay/src/lib.rs:320-351 | a number with exponent and decimals within 400 converts iff its digits fit 128 bits, the shift is at most 38 and the result fits 64 bits, and gives floor(value * 10^6) |
| Decimal.ZeroExactly | bin/n42-decision-relay/src/lib.rs:335-350 | scaling a positive number gives zero iff all its digits fall off |
| Decimal.QuantizedExactly | bin/n42-decision-relay/src/lib.rs:320-351 | of any text: on success floor(value * 10^6), iff the 32-bit shift did not wrap on non-zero digits, or all digits fall off before and after it did |
| Decimal.HugeExponentWraps | bin/n42-decision-relay/src/lib.rs:335-339 | the text 1e2147483647, which is not printable from 64 bits, would become zero |
| Decimal.ParseExactly | bin/n42-decision-relay/src/lib.rs:325-328 | an exponent is read iff it is digits with or without a sign and fits 32 bits, and as that number |
| Decimal.SmallExponent | bin/n42-decision-relay/src/lib.rs:320-351 | 2.5e-3 is 2500 millionths |
| Distribution.PpmExact | bin/n42-decision-relay/src/lib.rs:309-318 | accepts iff the value lies in 0..1, is not written negative and fits the conversion; the result is the integer part in millionths, at most a million |
| Distribution.QuantizeAll | bin/n42-decision-relay/src/lib.rs:362-372 | the loop's exact sum and the quantized values of all options, or nothing iff one of them cannot be read |
| Distribution.OptionExact | bin/n42-decision-relay/src/lib.rs:364-371 | an option is read iff it is present and convertible, with its exact value and the integer part in millionths |
| Distribution.Quantize | bin/n42-decision-relay/src/lib.rs:353-383 | accepts exactly the distributions within a millionth of one whose integer parts fit the window |
| Distribution.FloorSums | bin/n42-decision-relay/src/lib.rs:363-381 | rounding down loses less than a millionth per option, and nothing iff all options are whole millionths |
| Distribution.WindowExact | bin/n42-decision-relay/src/lib.rs:373-381 | a sum near one passes the window iff it is not 1.000001 with no option rounded |
| Distribution.SumOneAccepted | bin/n42-decision-relay/src/lib.rs:373-381 | a distribution that sums to one always passes |
| Distribution.WindowRejects | bin/n42-decision-relay/src/lib.rs:373-381 | an object with the options 0.5 and 0.500001 is quantizable and near one, and no quantization of it is accepted |
| Distribution.MaximumSurvives | bin/n42-decision-relay/src/lib.rs:422-426 | a maximal option stays maximal after quantizing, and one that passes as maximal is within a millionth of the maximum |
| Distribution.ValidateChoice | bin/n42-decision-relay/src/lib.rs:413-435 | answers iff something is signable, and then with it |
| Distribution.SignableUnique | bin/n42-decision-relay/src/lib.rs:413-435 | at most one answer is signable for a response |
| Distribution.HonestAccepted | bin/n42-decision-relay/src/lib.rs:413-435 | a response that names an option of greatest probability in a distribution summing to one is never turned down |
| Distribution.NoulIsPpm | bin/n42-decision-relay/src/lib.rs:470-484 | the noul answer is `ppm` of the number |
| Distribution.NeighboursDiffer | bin/n42-decision-relay/src/lib.rs:309-351 | 0.00010099999999999999 and 0.000101 quantize to 100 and 101 |
| Reread.ComesBackExactly | bin/n42-decision-relay/src/lib.rs:492-512 | a fraction without trailing zeros comes back from such a parser as it was iff its digits are a double |
| Reread.ComesBackHigher | bin/n42-decision-relay/src/lib.rs:492-512 | 0.00010099999999999999 comes back as 0.000101 |
| Archive.Directory.StoreFirst | bin/n42-decision-relay/src/lib.rs:492-512 | creates the file or returns what it holds; an existing file never changes |
| Archive.Directory.StoreEvidence | bin/n42-decision-relay/src/main.rs:549-557 | creates the evidence file, or says whether it reads back as the same evidence |
| Archive.Directory.Evaluate | bin/n42-decision-relay/src/main.rs:526-569 | an undisturbed evaluation is the protocol's steps in order |
| Archive.RunKeeps | bin/n42-decision-relay/src/main.rs:526-569 | in every interleaving every evaluator past the archive uses the first linked response, and every archived one matches the first linked evidence |
| Archive.FilesNeverChange | bin/n42-decision-relay/src/lib.rs:492-512 | from any point of any run on, existing files and attestations stay as they are |
| Archive.SameEvidence | bin/n42-decision-relay/src/main.rs:549-569 | any two attestations are over the same evidence bytes and over the first response |
| Archive.AgreementExact | bin/n42-decision-relay/src/main.rs:526-569 | all attestations of all runs agree on answers and evidence iff the codec splits no response |
| Archive.RoundTripAgrees | bin/n42-decision-relay/src/main.rs:526-569 | they agree under every codec that gives back what it wrote |
| Archive.SplitDisagrees | bin/n42-decision-relay/src/main.rs:526-569 | from a split response, the run in which two evaluators sign different answers |
| Archive.SplitExists | bin/n42-decision-relay/src/lib.rs:492-512 | with a parser that rounds the digits of a fraction to a double and divides once, the noul response 0.00010099999999999999 is split |
| Replay.Interval | bin/n42-node/src/main.rs:751-758 | between 1 and 16: four by default, else the setting or the nearer bound |
| Replay.DueExact | bin/n42-node/src/main.rs:760-763 | a checkpoint is due at multiples of the interval and at the end |
| Replay.CheckpointDue | bin/n42-node/src/main.rs:760-763 | the remainder test agrees with counting the payloads since the last multiple |
| Replay.Import | bin/n42-node/src/main.rs:765-871 | each outcome says exactly which calls were made and taken and why the replay ended there; the batch counter counts the confirmed publications |
| Replay.TakenIsConfirmed | bin/n42-node/src/main.rs:783-833 | a call counts as taken iff the engine answers valid at the very hash that was sent, payload or head |
| Replay.DoneExactly | bin/n42-node/src/main.rs:765-871 | the replay goes through iff the plan is linked, ends where it should, and the engine confirms every call |
| Replay.PayloadRefusedExactly | bin/n42-node/src/main.rs:783-799 | it ends at a payload, which is then the last call, iff all calls before were confirmed and this one is answered with anything but valid at its hash |
| Replay.PublishRefusedExactly | bin/n42-node/src/main.rs:808-833 | it ends at a publication, which is then the last call, iff all calls before were confirmed and this one is answered with anything but valid at its head |
| Replay.OutcomeUnique | bin/n42-node/src/main.rs:765-871 | plan, interval and engine determine outcome and calls |
| Replay.CallsDone | bin/n42-node/src/main.rs:775-843 | the calls for the first payloads execute exactly these in order and publish up to their last checkpoint |
| Replay.BatchCount | bin/n42-node/src/main.rs:808-843 | a whole replay publishes n over k times, rounded up |
| Replay.Boundary | bin/n42-node/src/main.rs:775-843 | at every iteration boundary fewer than an interval of accepted blocks is unpublished |
| Replay.HowFar | bin/n42-node/src/main.rs:765-871 | however it ends, accepted blocks are a prefix of the plan, the published head is a plan block or the start, at most an interval behind, and a whole interval iff the publication of a full batch was refused |
| Replay.ReworkExact | bin/n42-node/src/main.rs:800-834 | plan and engine alone say whether a whole interval stays open: iff everything up to some checkpoint at a multiple of the interval is taken and that checkpoint refused |
| Replay.WholeIntervalOpen | bin/n42-node/src/main.rs:800-834 | four blocks at the default interval, all accepted and none published |

## Left out

- Hash and signature internals (blake3, keccak, BLS, EIP-712) are parameters; nothing is assumed about them.
- Sbmt.Sbmt.InsertHashed: does not say what happens when the tree of the updated map has 2^32 nodes or more and the source's slot numbers run into the null index; likewise the other operations that insert.
- ShardedSbmt.ShardedSbmt.ApplyUpdates: runs the shards one after the other; the parallel iterator is not modelled.
- StateDiff.DiffApplied: how addresses and slots become keys is a parameter.
- Bootstrap.SuccessorExact: validator-set construction, peer binding, certificate checks and the two artifact readers are oracles; the staged epoch transition of a snapshot is not part of its validation here, and neither are fields missing from its file.
- Bootstrap.DataDir.Materialize: the temporary file, the rename and the directory sync of one write are one atomic step.
- Rlp.ReadInvertsEncode: payloads of 2^64 bytes or more, for which the source has no length prefix, do not encode.
- Audit.Auditor.Audit: starts at the recheck of the captured commits; certificate, roster, read-counter and configuration checks and the timing figures before and after it are not modelled, and the JSON-RPC transport is an arbitrary function of call number, validator and question.
- Decimal.MillionthsExact: models the wrap-around of an optimized build; a debug build panics there instead.
- Distribution.PpmExact: numbers have fewer than 2^30 decimals, far more than the JSON printer writes.
- Distribution.Quantize: the raw sum is exact, so the rounding of 64-bit floats in the near-one test and in number printing is not modelled.
- Distribution.ValidateChoice: the score branch with its legend, the shape checks of the noul branch and the loop over the questions of a template are not modelled.
- Archive.SplitExists: the parser's division and the shortest printing of its result are taken to be exact.
- Archive.Directory.Evaluate: the chain and hub checks before the archive and failures of the model call are not part of it; a failed call is a crash in the state machine.
- The watch loop of the relay, which only drives evaluations from a persisted cursor.
- Sizes and diagnostics of proofs and shards, genesis seeding, account and storage key derivation.
- The HotStuff-2 engine, vote log, QMDB, finalized-range decoder and parallel EVM.
- File systems beyond atomic create and replace, environment parsing, metrics, logging and node startup.
