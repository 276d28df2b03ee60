# Verified model of the verifiable chain node

A Dafny model of the node's logic and proofs of what it is for: Merkle commitments bind and prove map contents, the
tip hash of a chain binds its whole history, every reachable state is a replay of the committed blocks, quorums
intersect, encodings can be read back, and the in-memory indexes agree with what they index.
`dafny verify dfyconfig.toml` checks all of it.

Go strings are byte sequences (`Bytes.str`), fixed-width integers are the types `u32`, `u64` and `i64`, and wrap-around
is written out (`Wrap64`) where the code can reach it. Objects the code updates in place are classes whose methods are
proved against functions on their state; the theorems are about those functions. A Go map is iterated in an order
chosen by the verifier, so results hold for every iteration order.

SHA-256 in hex is one unspecified function from byte strings to 64 hex digits (`Hashing.Sha256Hex`). It is never
assumed to be injective. Results that need hash strength carry `CollisionFree(s, t)`, where `s` and `t` are the finite
sets of strings the code hashes on either side; where such a result fails, a string of `s` and a different string of `t`
have the same digest.

| file | content |
|---|---|
| Bytes.dfy, Decimal.dfy, Hashing.dfy, Sorting.dfy | strings, integers, `%d`, digests, key order, the insertion sort |
| Options.dfy, Powers.dfy, Sets.dfy | shared definitions and facts |
| ChainTypes.dfy | records of the chain and the strings hashed for them |
| MerkleTree.dfy, MerkleLevels.dfy, Merkle.dfy | the hash tree, its level-by-level and path forms, map commitments and proofs |
| ChainDomain.dfy, Repository.dfy | transaction roots, block checks, the block store, history binding |
| StateMachine.dfy, Executor.dfy, SnapshotCatalog.dfy | state, state root, batch executor, self-checking snapshots |
| Mempool.dfy | the pool and its two indexes |
| NodeMachine.dfy, ChainNode.dfy | the node as a transition system, and the node object whose methods are its steps |
| BigEndian.dfy, Codec.dfy, Limits.dfy | canonical encoding, frames, FNV-1a |
| Validation.dfy, Consensus.dfy, Schedule.dfy | checks, quorums, the consensus engine, the validator schedule |
| Audit.dfy, BlockIndex.dfy | the hash-linked audit log, the block index |

What the proofs show about the code that its text does not say:

- No check recomputes a block hash: `VerifyChain` accepts a store whose tip holds another state root under the same hash
  (`Repository.TipRootUnchecked`). The tip hash stands for the history exactly in stores whose blocks carry the hashes
  of their headers (`Repository.HistoryBoundIff`), as those of the node itself do.
- `VerifyProof` rejects only empty step hashes, so soundness fails for proofs with other strings in their steps: a last
  step hash holding `=` fits some map of one entry (`Merkle.LastStepAsEntry`), and lower ones fit maps of every size
  (`Merkle.ForeignKeyVerifies`). Proofs without `=` in their step hashes, all those made by `Proof` among them, are
  sound (`Merkle.InclusionSoundForKey`); `Merkle.ConclusiveIff` is the exact condition.
- A proof for the empty key is made but never verifies (`Merkle.ProofComplete`).
- Repeating the last transaction of an odd list keeps its root (`ChainDomain.RepeatedLastTxKeepsRoot`). Blocks mined
  by the node hold no identifier twice, so its own chains are not affected.
- Keys holding `=` make different maps, and different states, share a root (`Merkle.RootsBindMapsIff`,
  `StateMachine.RootsBindStatesIff`), and so do values holding `;`. Among all states only the empty one and those of one
  entry without `=` are fixed by their root (`StateMachine.DeterminedByRootIff`), so a snapshot can verify although the
  data has changed (`NodeMachine.StaleSnapshotIsReachable`).
- `|` in a hashed field of a transaction, a header or an audit record lets another one have the same hashed string
  (`ChainTypes.TxReadableIff`, `ChainTypes.HeaderReadableIff`, `Audit.RecordReadableIff`).
- `ValidateNetwork` admits total powers up to 2^64 - 1, while quorums are two thirds plus one, and intersect, exactly
  below 2^63 (`Validation.QuorumIsTwoThirdsIff`, `Validation.QuorumsIntersectIff`).
- `Engine.Step` carries votes over to the next height, which can then be final without a new vote. `Finalized` compares
  a number of votes with an amount of power, which is a quorum test exactly when every power is one
  (`Engine.FinalIsQuorumIff`), and it counts votes of strangers (`Engine.StrangersFinalize`).
- From view 2^63 on, `Proposer` panics or names the first validator, whoever's turn it is (`Schedule.ProposerPanicsIff`).
- `DecodeTx` drops the upper half of the 64-bit word holding the 32-bit size, so not every accepted input is canonical
  (`Codec.WideSizeWord`).
- The conflict answer of `mine` is unreachable until 2^64 blocks are stored.
- The root reported for a rolled-back batch is that of the data before the rollback.

## Model

| member | source | states |
|---|---|---|
| Bytes.LessMeans | internal/state_machine/state.go:40 | one string is below another exactly when the first byte in which they differ is smaller, or it ends where they still agree |
| Decimal.NaturalMeans | internal/chain_domain/types.go:63 | the digits of a number stand for it in base ten, and only zero starts with a `0` |
| Decimal.NaturalIsOnly | internal/chain_domain/types.go:63 | a string of digits without a leading `0` is the one written for the number it stands for |
| Decimal.FormatMeans | internal/chain_domain/types.go:63 | `%d` reads back as the number, with a minus in front exactly when it is negative |
| Hashing.HexDigits | internal/proof/merkle.go:25 | digests are written in lower-case hex digits |
| MerkleTree.PreimageNotHex | internal/proof/merkle.go:34 | no string hashed at a leaf (`key=value` or a `\|`-separated transaction) is made of hex digits only, so leaves and inner nodes hash different strings |
| Merkle.EntryString | internal/proof/merkle.go:34 | what is hashed for an entry is the key, the character `=` and the value |
| MerkleTree.DigestByHalves | internal/proof/merkle.go:39-49 | the digest of a tree of equal depth is that of its padded leaf strings hashed by halves, the left half in front |
| MerkleTree.EqualDigestsEqualSpreads | internal/proof/merkle.go:39-49 | trees with equal digests have equal leaf sequences, odd tails counted twice, unless hashed strings collide |
| MerkleTree.EqualSpreadsEqualDigests | internal/proof/merkle.go:39-49 | conversely, trees of equal depth with equal padded leaf sequences have equal digests, whether a child is shared or copied |
| MerkleTree.SpreadDeterminesItems | internal/chain_domain/types.go:78-88 | when no leaf string repeats, the padded leaf sequence determines the leaf strings of the list it was made from |
| MerkleLevels.FoldOfDigests | internal/proof/merkle.go:68-80 | folding a list of digests level by level gives the digest of the pointer tree |
| MerkleLevels.RootByHalves | internal/chain_domain/types.go:70-90 | the root of a list is the digest of the empty string if it is empty, else that of its strings, padded at each level by the last position, hashed by halves |
| MerkleLevels.PaddedStarts | internal/chain_domain/types.go:80-86 | padding adds only at the end: the padded list starts with the list itself |
| MerkleLevels.ClimbPath | internal/proof/merkle.go:68-98 | climbing the recorded siblings from any position reaches the root, with one step per level |
| MerkleLevels.PathSides | internal/proof/merkle.go:72-73 | the i-th sibling stands to the left exactly when bit i of the index is set |
| MerkleLevels.StepSides | internal/proof/merkle.go:92-96 | a left step hashes its own hash before the current digest, a right one after |
| MerkleLevels.ClimbPassesLeaf | internal/proof/merkle.go:87-98 | whatever the steps, a climb from a string that is not all hex to a tree's digest started at one of the tree's leaf strings or hashed one of them at a step, unless hashed strings collide |
| MerkleLevels.ClimbStartsAtLeaf | internal/proof/merkle.go:87-98 | a climb from a string that is not all hex to the root of a list, empty or not, that hashes none of the list's leaf strings at a step started at one of them, unless hashed strings collide |
| MerkleLevels.EqualRootsEqualSpreads | internal/chain_domain/types.go:70-90 | two lists with one root, of whatever lengths and the empty one included, give the same strings when padded, unless hashed strings collide |
| MerkleLevels.EqualSpreadsEqualRoots | internal/chain_domain/types.go:78-88 | two lists that give the same strings when padded have one root, whatever the hash |
| Merkle.BuildTree | internal/proof/merkle.go:26-51 | the nodes have the root hash of the map and hold its entries in key order, sharing a child exactly at odd tails |
| Merkle.MapItemsExact | internal/proof/merkle.go:26-35 | the leaves are the entries of the map, each once, in ascending key order |
| Merkle.MapRootByHalves | internal/proof/merkle.go:26-52 | the root of a map is that of its entry strings in ascending key order, padded and hashed by halves |
| Merkle.MapRootBindsSpread | internal/proof/merkle.go:26-52 | whatever the keys, two maps have equal roots exactly when their padded lists of `key=value` strings are equal, unless hashed strings collide |
| Merkle.RootBindsMap | internal/proof/merkle.go:26-52 | maps with `=`-free keys have equal roots exactly when they are equal, whatever their sizes, unless hashed strings collide |
| Merkle.RootsBindMapsIff | internal/proof/merkle.go:26-52 | for any set of keys, all maps of whatever sizes with keys in the set are bound by their roots, collisions of hashed strings aside, if and only if no key of the set is another one followed by `=` |
| Merkle.EqualsInKeysCollide | internal/proof/merkle.go:34 | a key holding `=` makes two different maps of one entry share a root, their only hashed string being the same |
| Merkle.OneEntryBoundIff | internal/proof/merkle.go:34 | a map of one entry is the only one with its root, collisions aside, if and only if neither its key nor its value holds `=` |
| Merkle.Leaves | internal/proof/merkle.go:103-115 | appends a copy of each leaf node once, left to right, although odd levels point twice at one child |
| Merkle.LeafCopiesExact | internal/proof/merkle.go:103-115 | on the nodes of a tree these copies are its entries in order, each with its digest |
| Merkle.SearchStrings | internal/proof/merkle.go:62 | the first position whose key is not below the one searched |
| Merkle.ProofLevel | internal/proof/merkle.go:69-79 | padding the list pairs digests exactly as sharing the last child does, and the step is the sibling with its side |
| Merkle.Proof | internal/proof/merkle.go:53-82 | fails exactly for missing keys, otherwise returns the sibling path of the key under the root of the map |
| Merkle.VerifyProof | internal/proof/merkle.go:83-99 | accepts exactly proofs with key, root, version and non-empty step hashes whose climb ends in their root |
| Merkle.ProofGuards | internal/proof/merkle.go:84-91 | no proof verifies without key, root or version or with an empty step hash, and the others exactly when their root is the end of the climb |
| Merkle.ProofComplete | internal/proof/merkle.go:53-99 | a proof made for a present key carries key, value, root and version 1, verifies if and only if the key is non-empty, has digest steps, and as many of them as the least s with 2^s at least the map size |
| Merkle.InclusionSound | internal/proof/merkle.go:83-99 | a proof that verifies against the root of a map and has no `=` in its step hashes proves the string of one of its entries, unless hashed strings collide |
| Merkle.InclusionSoundAnySteps | internal/proof/merkle.go:83-99 | whatever its step hashes, a proof that verifies against the root of a map proves the string of one of its entries when no entry string begins or ends with 64 hex digits, unless hashed strings collide |
| Merkle.InclusionSoundForKey | internal/proof/merkle.go:83-99 | where the keys of the map, the proved key and the step hashes lack `=`, the map with the stated root holds the proved value under the proved key, unless hashed strings collide |
| Merkle.LastStepAsEntry | internal/proof/merkle.go:89-97 | a proof of any length whose last step hash, left or right, holds `=` verifies against the root of a map of one entry that is not the proved one, unless the string hashed last is the proved entry itself |
| Merkle.ConclusiveIff | internal/proof/merkle.go:89-97 | of the proofs of an `=`-free key whose last step hash is not 64 hex digits, whatever the steps below, and those without `=` in any step hash, exactly those prove membership for every `=`-free-keyed map with the root, collisions aside, whose last step hash lacks `=`, or whose last hashed string is the proved entry, or whose climb hashes two strings to one digest |
| Merkle.LowerStepVerifies | internal/proof/merkle.go:86-98 | where an entry string of a map is the digest of `k=v` beside a step hash, that step followed by the proof made for the entry verifies `k` and `v` against the root of the map, whatever its size and whether or not it holds them |
| Merkle.ForeignKeyVerifies | internal/proof/merkle.go:86-98 | any map can be given an entry with which some proof, starting with a left or with a right step, verifies a key the map does not hold |
| ChainTypes.HeaderBytesInjective | internal/chain_domain/types.go:62-64 | two headers whose four string fields hold no `\|` are equal when their hashed strings are |
| ChainTypes.HeaderReadableIff | internal/chain_domain/types.go:62-64 | the hashed string of a header is that of no other header if and only if its four string fields hold no `\|` |
| ChainTypes.HeaderRead | internal/chain_domain/types.go:63 | cut at its `\|`, the hashed string of a header gives height, view, previous hash, state root, transaction root, proposer, time and version, numbers in decimal |
| ChainTypes.TxBytesInjective | internal/chain_domain/types.go:66-69 | two transactions whose identifier, sender, receiver and key hold no `\|` agree on every hashed field when their hashed strings are equal |
| ChainTypes.BarInKeyCollides | internal/chain_domain/types.go:66-69 | a key holding `\|` makes two different writes share a hashed string |
| ChainTypes.TxReadableIff | internal/chain_domain/types.go:66-69 | the hashed string of a transaction fixes its hashed fields against all others if and only if identifier, sender, receiver, key and value hold no `\|` |
| ChainTypes.TxRead | internal/chain_domain/types.go:67 | cut at its `\|`, the hashed string of a transaction gives identifier, sender, receiver, nonce, fee, gas, key and value |
| ChainDomain.MerkleRoot | internal/chain_domain/types.go:70-90 | computes the digest of the tree over the transactions |
| ChainDomain.TxRootByHalves | internal/chain_domain/types.go:70-90 | the transaction root is that of the hashed strings of the list, padded and hashed by halves |
| ChainDomain.TxRootBindsSpread | internal/chain_domain/types.go:70-90 | two lists share a root if and only if padding them gives the same list, unless hashed strings collide |
| ChainDomain.TxRootBindsList | internal/chain_domain/types.go:70-90 | two lists in which no hashed string repeats and which share a root have the same hashed strings, length and order included, unless hashed strings collide |
| ChainDomain.RepeatedLastTxKeepsRoot | internal/chain_domain/types.go:80-86 | repeating the last entry of an odd list of three or more keeps its root |
| ChainDomain.ValidateBlock | internal/chain_domain/types.go:93-112 | accepts exactly blocks with positive height, the link to the previous block, the right transaction root and a hash; each error names its cause |
| Repository.AcceptedHeights | internal/repository/retention.go:21-37 | a store that verifies holds exactly the heights 1 to its size |
| Repository.TipHashBindsHistory | internal/repository/retention.go:21-37 | take two stores that verify, hold their blocks under their own heights and carry the hashes of their headers, one of them with no `\|` in state roots, proposers and the first previous hash; if their latest blocks have one hash they have the same heights and, at each height, equal headers, equal padded transaction lists, and equal transaction strings where none repeats, unless hashed strings collide |
| Repository.HistoryBoundIff | internal/repository/retention.go:21-37 | a store that verifies and has the tip hash of one as above shares its history if and only if its blocks lie under their own heights and carry the hashes of their headers, unless hashed strings collide |
| Repository.TipRootUnchecked | internal/chain_domain/types.go:93-112 | every non-empty store that verifies still verifies, under the same tip hash, with any other state root in its tip, since no check recomputes a block hash |
| Repository.DeleteAboveKeepsAccepted | internal/repository/retention.go:38-46 | cutting a verified store at any height leaves a verified store |
| Repository.Repo.VerifyChain | internal/repository/retention.go:21-37 | returns no error exactly for stores where every height up to the size is present and follows its predecessor; otherwise the error is that of the first height that does not |
| Repository.Repo.DeleteAbove | internal/repository/retention.go:38-46 | keeps exactly the blocks at or below the height |
| Repository.Repo.PutBlock | internal/repository/repo.go:18-26 | refuses an occupied height, otherwise stores the block under its own height |
| Repository.Repo.Latest | internal/repository/repo.go:33-43 | a block of greatest positive height, or the zero block |
| Repository.LatestOfAccepted | internal/repository/repo.go:33-43 | on a verified store with blocks under their own heights `Latest` is the tip, at a height equal to the number of blocks |
| Sorting.InsertionSort | internal/state_machine/state.go:38-43 | the nested loops leave a sorted permutation |
| Sorting.SortedPermutationUnique | internal/state_machine/state.go:34-43 | any two sorted orders of the same keys are equal, so iteration order does not matter |
| StateMachine.WriteCanonical | internal/state_machine/state.go:34-49 | writes the entries in ascending key order whatever order iteration yields |
| StateMachine.CanonicalMeans | internal/state_machine/state.go:34-49 | the written form starts with the entry of the smallest key, as key, mark, value, mark, and goes on with that of the other entries |
| StateMachine.RootMarks | internal/state_machine/state.go:44-48 | under a state root the marks are `=` and `;` |
| StateMachine.CanonicalInjective | internal/state_machine/state.go:44-48 | of two maps whose keys lack the first mark and whose values lack the second, equal written forms mean equal maps |
| StateMachine.RootBindsData | internal/state_machine/state.go:34-49 | two states with no `=` in keys and no `;` in values have equal roots exactly when they are equal, unless the two written forms collide |
| StateMachine.UnreadableValuesCollide | internal/state_machine/state.go:45-47 | a value holding `;` and `=` gives a state with fewer entries the same root |
| StateMachine.EqualsInKeysCollide | internal/state_machine/state.go:45-47 | a key holding `=` makes two different states of one entry share a root |
| StateMachine.WrittenOnceIff | internal/state_machine/state.go:44-48 | a map is the only one with its written form if and only if it is empty, or has one entry whose key and value lack the first mark |
| StateMachine.DeterminedByRootIff | internal/state_machine/state.go:34-49 | a state is the only one with its root, collisions of written forms aside, if and only if it is empty, or has one entry without `=` in key and value |
| StateMachine.RootsBindStatesIff | internal/state_machine/state.go:34-49 | for any set of `;`-free keys, all states with keys in the set and `;`-free values are bound by their roots, collisions of written forms aside, if and only if no key of the set is another one followed by `=` |
| StateMachine.ApplyAllKeepsLastWrite | internal/state_machine/state.go:21-32 | after a sequence of transactions a key holds the value of the last one that wrote it |
| StateMachine.ApplyAllKeepsUnwritten | internal/state_machine/state.go:21-32 | keys no valid transaction writes keep their value or absence |
| StateMachine.State.Apply | internal/state_machine/state.go:21-32 | fails without effect on missing gas, then on a missing key, otherwise writes the value under the key |
| StateMachine.State.Root | internal/state_machine/state.go:33-49 | the digest of the canonical form of the data |
| StateMachine.State.Rollback | internal/state_machine/state.go:60-72 | restores the data of a snapshot, or fails changing nothing |
| Executor.BatchAccounts | internal/state_machine/executor.go:26-53 | every transaction is applied or reported, applied gas stays within the limit, applied transactions are valid, and the data is their fold |
| Executor.TxFaultMeans | internal/state_machine/executor.go:31-45 | the error of a transaction is the gas limit before an invalid field and that before a missing key |
| Executor.BatchStep | internal/state_machine/executor.go:31-49 | one transaction more is applied exactly when its gas fits beside that of those applied before, it is valid and it has a key; else one error is added |
| Executor.SmallValidBatchApplies | internal/state_machine/executor.go:31-49 | a batch of valid transactions with non-empty keys within the gas limit is applied whole |
| Executor.Executor.Execute | internal/state_machine/executor.go:26-53 | counts, gas and errors are those of the batch, applied and failed add up, the gas subtraction never wraps |
| Executor.Executor.ApplyWithRollback | internal/state_machine/executor.go:73-80 | if any transaction failed the data is as before and the rollback succeeds, otherwise it is the fold of all writes |
| SnapshotCatalog.ChecksumBindsEntries | internal/state_machine/snapshot.go:66-80 | NUL-free maps have equal checksums exactly when they are equal, unless the written forms collide |
| SnapshotCatalog.DeterminedByChecksumIff | internal/state_machine/snapshot.go:66-80 | a map is the only one with its checksum, collisions of written forms aside, if and only if it is empty, or has one entry without NUL |
| SnapshotCatalog.MakeSnapshot | internal/state_machine/snapshot.go:81-87 | a new record holds the map and its checksum |
| SnapshotCatalog.Catalog.Verify | internal/state_machine/snapshot.go:55-65 | marks a record verified exactly when its checksum is that of its entries |
| Mempool.SlotIffHeld | internal/mempool/pool.go:24-48 | a slot names an identifier exactly when that transaction is stored with that identifier, sender and nonce |
| Mempool.RunAgrees | internal/mempool/pool.go:24-71 | over every run of additions, removals and expiries the two maps stay inverse, the pool stays within its limit, and account sizes sum to the number of transactions |
| Mempool.AddExact | internal/mempool/pool.go:24-48 | an addition succeeds exactly when there is room, the identifier is new and the fee exceeds that of whatever is stored for the sender and nonce; then only that leaves and the transaction comes in, else nothing changes |
| Mempool.AddErrors | internal/mempool/pool.go:27-43 | the error is the full pool, else the known identifier, else the fee |
| Mempool.OnePerSlot | internal/mempool/pool.go:39-46 | at most one transaction per sender and nonce |
| Mempool.RunNotUndercut | internal/mempool/pool.go:39-44 | while a slot stays occupied its fee never falls and strictly rises whenever its transaction changes |
| Mempool.Pool.Add | internal/mempool/pool.go:24-48 | full pool, duplicate identifier and a replacement that does not pay more are refused without effect; otherwise the transaction takes its slot, evicting the one there |
| Mempool.Pool.List | internal/mempool/pool.go:49-61 | each unexpired transaction once, by descending fee |
| Mempool.ListingExact | internal/mempool/pool.go:49-61 | a stored transaction is listed exactly when it has no expiry or one not before the clock, nothing else is, and no fee is below a later one |
| Mempool.ListingHasDistinctIds | internal/mempool/pool.go:49-61 | no identifier is listed twice |
| Mempool.Pool.Remove | internal/mempool/pool.go:62-71 | removes the named transactions from both maps |
| Mempool.Pool.Expire | internal/mempool/policy.go:40-57 | whatever the iteration order, removes exactly the expired transactions, prunes the accounts this empties and returns their number |
| Mempool.ExpireExact | internal/mempool/policy.go:45 | exactly the transactions without expiry, or with one not before the clock, stay |
| Mempool.ExpireAccounts | internal/mempool/policy.go:47-52 | an account stays exactly when it was empty before or keeps a transaction |
| NodeMachine.ReachableStatesReplay | internal/app/node.go:105-205 | in the state reached by any interleaving of submissions with mine and snapshot steps the chain verifies, and the data, all state roots and all snapshots are replays of the committed blocks, if and only if the store holds fewer than 2^64 blocks |
| NodeMachine.ReachableChainVerifies | internal/app/node.go:142-170 | the store of a reachable node with fewer than 2^64 blocks verifies, under the heights of its blocks, holds exactly heights 1 to n, and its first block names no previous one |
| NodeMachine.LiveDataIsReplay | internal/app/node.go:142-170 | in every reachable state between operations with fewer than 2^64 blocks, the data is the replay of all committed blocks |
| NodeMachine.LiveDataIsLastWrites | internal/app/node.go:142-170 | in such a state the keys are those some committed transaction with gas writes, each with the value of the last write in the chain |
| NodeMachine.StateRootsAreReplays | internal/app/node.go:148-154 | in every reachable state with fewer than 2^64 blocks, the state root of each block is the root of the replay up to it |
| NodeMachine.SnapshotsAreReplays | internal/app/node.go:179-203 | in every reachable state with fewer than 2^64 blocks, each snapshot holds data and root of the replay to its height, whatever happened since |
| NodeMachine.SnapshotIsTaken | internal/app/node.go:179-184 | a snapshot request stores data and root, unverified, under the number of blocks, as a snapshot and as a version, and changes nothing else |
| NodeMachine.MinedBlockIsStored | internal/app/node.go:146-159 | `PutBlock` inside `mine` finds its height free in every reachable state with fewer than 2^64 blocks and stores the sealed block there, changing nothing else |
| NodeMachine.StoredBlocks | internal/app/node.go:153-159 | after every run each stored block was stored by a seal and has its time, view 0, version 1, no votes, the hash of its header, the previous hash and the transactions of the operation in flight |
| NodeMachine.ProposerName | internal/app/node.go:154 | the proposer is `validator-1` |
| NodeMachine.PoolStaysSmall | internal/app/node.go:105-170 | after every run the pool holds at most 1000 transactions |
| NodeMachine.CommittedWereSubmitted | internal/app/node.go:105-170 | after every run, every pending or committed transaction was submitted, with all its fields |
| NodeMachine.ListedLeavePool | internal/app/node.go:145-166 | removing a listing from the pool it was made from leaves exactly the expired transactions |
| NodeMachine.VerifiedMeansCurrent | internal/app/node.go:188-205 | between operations in a reachable state with fewer than 2^64 blocks, where neither the snapshot nor the data holds `=` in keys or `;` in values, a snapshot verifies exactly when the replay to its height equals the replay of all blocks, unless the two written forms collide |
| NodeMachine.VerifiedMeansSameForm | internal/app/node.go:188-205 | whatever the data holds, a snapshot verifies exactly when the two replays have one written form, unless two different forms collide; otherwise as above |
| NodeMachine.StaleSnapshotVerifies | internal/app/node.go:188-205 | a snapshot of `{k: v;l=w}` verifies while the data is `{k: v, l: w}`, although the two replays differ |
| NodeMachine.StaleSnapshotIsReachable | internal/app/node.go:105-205 | a run of three blocks leads to such a snapshot, for any keys k below l and any values |
| NodeMachine.SameTipSameData | internal/app/node.go:142-170 | two reachable nodes between operations, with fewer than 2^64 blocks and no `\|` in the identifier, sender, receiver or key of a committed transaction, that have one tip hash hold the same headers and the same data, unless hashed strings collide |
| NodeMachine.SameTipSameRoot | internal/app/node.go:142-170 | whatever the transactions hold, two reachable nodes between operations, with fewer than 2^64 blocks, that have one tip hash share history and state root, unless hashed strings collide; and the data too where neither holds `=` in keys or `;` in values and the two written forms do not collide |
| ChainNode.Node.Submit | internal/app/node.go:115-124 | one submission step |
| ChainNode.Node.Mine | internal/app/node.go:142-170 | one request: a block at the next height holds the listing, the data is its fold, listed transactions leave the pool, all else stays |
| ChainNode.Node.MineSeal | internal/app/node.go:153-159 | the sealed block links to the previous one and commits to the data and the transactions |
| ChainNode.Node.TakeSnapshot | internal/app/node.go:179-184 | one snapshot step: live data and root under the latest height, in the repository and in the state |
| ChainNode.Node.VerifySnapshot | internal/app/node.go:188-204 | one verification step, absent for an empty or unknown identifier |
| Validation.ValidateTx | internal/chain_domain/validation.go:9-26 | accepts exactly transactions with non-blank sender and receiver, gas in 32 bits but not zero, bounded key and value, and a nonce that can be followed |
| Validation.BlankMeans | internal/chain_domain/validation.go:10 | a string is blank exactly when it is the UTF-8 form of white space and nothing else |
| Validation.Quorum | internal/chain_domain/validation.go:46-52 | computes the quorum with its wrap-around |
| Validation.QuorumIsTwoThirdsIff | internal/chain_domain/validation.go:46-52 | the quorum is two thirds plus one if and only if the total power is below 2^63 |
| Validation.HasQuorum | internal/chain_domain/validation.go:53-67 | counts each voter once, with the power of the last validator at that address, against the quorum |
| Validation.LastPowerCounts | internal/chain_domain/validation.go:54-57 | the last validator at an address gives its power, and unknown addresses have none |
| Validation.QuorumsIntersect | internal/chain_domain/validation.go:53-67 | below total power 2^63, voters common to two quorums hold more than a third of the power, even with repeated addresses |
| Validation.QuorumAvailable | internal/chain_domain/validation.go:53-67 | below total power 2^63 and with distinct addresses, voters lacking less than a third of the power form a quorum |
| Validation.HalvesReachAlone | internal/chain_domain/validation.go:46-52 | for every total power from 2^63 to 2^64 - 1, two validators with half of it each are two disjoint quorums |
| Validation.QuorumsIntersectIff | internal/chain_domain/validation.go:46-67 | any two quorums of any validators with total power p share a voter if and only if p is below 2^63, and so for the networks that `ValidateNetwork` accepts |
| Validation.CountDecidesIff | internal/consensus/simulator.go:66-70 | below total power 2^63 and without powers of zero, the number of voters reaches the quorum exactly when their power does, for every set of validator addresses, if and only if all counted powers are one or no set reaches it |
| Validation.CountDecidesIffUnit | internal/consensus/simulator.go:66-70 | with distinct addresses besides, that is if and only if every power is one |
| Validation.ValidateNetwork | internal/chain_domain/validation.go:27-45 | accepts exactly identified networks of proper validators whose power fits in 64 bits; otherwise the error is that of the first check that fails |
| Engine.RoundOfSteps | internal/consensus/bft.go:33-46 | from a proposal four steps lead through prevote, precommit and commit to the proposal of view 0 at the next height |
| Engine.FirstVoteCounts | internal/consensus/bft.go:51-58 | a first vote for the current height and view is recorded under its name, any other changes nothing |
| Engine.StepKeepsVotesCurrentIff | internal/consensus/bft.go:30-47 | from a state whose votes are of its height and view, a step leaves only such votes if and only if it does not leave a commit with votes |
| Engine.VotesStayCurrent | internal/consensus/bft.go:30-59 | over runs that start with current votes and clear votes before leaving a commit, all votes held are of the current height and view, one per validator |
| Engine.FinalityCarriesOver | internal/consensus/bft.go:40-43 | after a final height four steps make the next height final with the same votes |
| Engine.FinalizedImpliesQuorum | internal/consensus/simulator.go:66-70 | below total power 2^63, finality implies a quorum when all voters are validators with power |
| Engine.FinalizedIffQuorumForUnitPower | internal/consensus/simulator.go:66-70 | below total power 2^63, where every voter is a validator of power one, final means commit phase and quorum |
| Engine.FinalIsQuorumIff | internal/consensus/simulator.go:66-70 | below total power 2^63 and without powers of zero, final means commit phase and quorum in every engine state in which only validators voted if and only if all counted powers are one or no set reaches the quorum; with distinct addresses, if and only if every power is one |
| Engine.StrangersFinalize | internal/consensus/simulator.go:66-70 | whoever the validators are, some state with current votes is final although no validator voted |
| Engine.SoleHeavyValidatorNeverFinal | internal/consensus/simulator.go:66-70 | a single validator with power from two up to below 2^63 is a quorum and never final |
| Engine.Bft.Step | internal/consensus/bft.go:30-47 | moves through the phases, and from commit to the next height keeping the votes |
| Engine.Bft.Vote | internal/consensus/bft.go:48-59 | records the first vote of each name for the current height and view, without checking membership |
| Engine.Bft.SetHeight | internal/consensus/simulator.go:48-53 | sets the height and clears the votes |
| Engine.Bft.SetView | internal/consensus/simulator.go:54-60 | sets the view, returns to proposal and clears the votes |
| Engine.Bft.Finalized | internal/consensus/simulator.go:66-70 | commit phase with at least as many votes as the quorum |
| Schedule.ValidatorSchedule.At | internal/consensus/evidence.go:167-179 | whatever the iteration order, the set of the last rotation at or below the height, else the initial one |
| Schedule.RotationScope | internal/consensus/evidence.go:167-188 | a rotation changes who serves only from its height up to the next recorded rotation |
| Schedule.ValidatorSchedule.Rotate | internal/consensus/evidence.go:180-188 | refuses height zero and empty sets, otherwise records the set |
| Schedule.ValidatorSchedule.ProposerAt | internal/consensus/evidence.go:195-201 | the proposer among the one set that serves, none for an empty set, a panic for a negative index |
| Schedule.ProposerPanicsIff | internal/consensus/evidence.go:195-201 | it panics exactly for non-empty sets at views from 2^63 on whose distance to 2^64 is no multiple of the set size; at the other views from 2^63 on the first validator proposes |
| Schedule.ProposerTakesTurns | internal/consensus/evidence.go:200 | for a non-empty set and views below 2^63 the proposer is the validator whose turn it is |
| Schedule.EachProposesOnce | internal/consensus/evidence.go:200 | over as many consecutive views as validators each position has exactly one turn |
| Schedule.ValidatorSchedule.QuorumAt | internal/consensus/evidence.go:219-226 | the quorum of the one set that serves, as `Quorum` computes it |
| Codec.Buffer.Put | internal/codec/canonical.go:16-25 | writes a two-byte length and the string, or refuses strings over 65535 bytes writing nothing |
| Codec.Reader.Get | internal/codec/canonical.go:26-39 | reads one length-prefixed string or fails on too few bytes |
| Codec.EncodeTx | internal/codec/canonical.go:40-54 | succeeds exactly when all six strings have at most 65535 bytes, with at most 393262 bytes of output, so the size check never fires |
| Codec.DecodeTx | internal/codec/canonical.go:55-75 | parses six strings and five words from at most 2 MiB, ignoring what follows |
| Codec.TxLayout | internal/codec/canonical.go:42-49 | the encoding of a transaction is its six strings after two-byte lengths, then five eight-byte words, in the order of the code and the highest byte first |
| Codec.BlockLayout | internal/codec/canonical.go:79-97 | the encoding of a block is five strings, five words and its transactions |
| Codec.TxFramesLayout | internal/codec/canonical.go:89-96 | each transaction of a block stands after its length in four bytes |
| Codec.TxRoundTrip | internal/codec/canonical.go:40-75 | decoding the encoding of a transaction with short strings, whatever bytes follow within 2 MiB, returns the transaction, signed expiry and 32-bit size included |
| Codec.DecodedInputIsEncodingIff | internal/codec/canonical.go:55-75 | an accepted input starts with the encoding of its result if and only if the size word fits in 32 bits |
| Codec.WideSizeWord | internal/codec/canonical.go:55-75 | within 2 MiB, six short strings and five words, the last of 2^32 or more, are accepted without being an encoding, and decode to the same transaction as another input |
| Codec.EncodeBlock | internal/codec/canonical.go:76-99 | succeeds exactly when all strings are short enough and the output is at most 2 MiB |
| Codec.BlockEncodingInjective | internal/codec/canonical.go:76-99 | blocks that encode within 2 MiB to equal bytes agree on hash, header and transactions |
| Limits.ComputeChecksum | internal/codec/limits.go:81-88 | the FNV-1a fold over the bytes in order |
| Limits.ChecksumMeans | internal/codec/limits.go:82-86 | it starts from the published basis 0x811C9DC5, and each byte is combined by exclusive or before the multiplication by 16777619 |
| Limits.XorBits | internal/codec/limits.go:84 | exclusive or, bit by bit |
| Limits.RoundInjective | internal/codec/limits.go:84-85 | one round determines the state before it from the byte and the byte from the state |
| Limits.OneByteChangeDetected | internal/codec/limits.go:81-88 | inputs of equal length differing in exactly one byte have different checksums |
| Limits.Frame | internal/codec/limits.go:89-100 | a four-byte big-endian length and the payload, refused above the limit |
| Limits.FrameRoundTrip | internal/codec/limits.go:89-113 | unframing the frame of a payload within the limit returns the payload if and only if its length is below 2^32 |
| Limits.UnframedWasFramed | internal/codec/limits.go:101-113 | whatever unframes is the frame of the result |
| Limits.UnframeExact | internal/codec/limits.go:101-113 | unframing gives a payload exactly when the input is its length in four bytes and the payload, within the limit and below 2^32 |
| Audit.RecordRead | internal/audit/chain.go:33 | cut at its `\|`, the hashed string of a record gives sequence, actor, action, resource, payload, previous hash and secret |
| Audit.VerifiedMeans | internal/audit/chain.go:38-57 | a log is verified exactly when the i-th record counts i + 1, names the hash before it, and carries the digest of its string as hash and signature |
| Audit.Chain.Append | internal/audit/chain.go:24-37 | appends a record linked to the last one and keeps the log verified |
| Audit.Chain.Verify | internal/audit/chain.go:38-57 | returns no error exactly when every record has its sequence number, link and digest; otherwise the error is that of the first record that does not |
| Audit.LastHashBindsLog | internal/audit/chain.go:24-57 | verified logs with one secret and no `\|` in actor, action, resource and payload have equal last hashes exactly when they agree on length and all fields but the time, unless hashed strings collide |
| Audit.RecordReadableIff | internal/audit/chain.go:33 | the hashed string of a record, whatever the secret, fixes its hashed fields if and only if actor, action, resource, payload and previous hash hold no `\|` |
| Audit.Chain.Since | internal/audit/chain.go:63-73 | on a verified log returns exactly the records after the first s |
| BlockIndex.RunProjects | internal/repository/index.go:23-87 | over every run of additions and removals heights, hashes and each proposer's list are projections of one log of accepted blocks |
| BlockIndex.Compact | internal/repository/index.go:78-86 | the in-place compaction keeps exactly the heights at or below the bound, in order |
| BlockIndex.AtMostConcat | internal/repository/index.go:78-86 | filtering keeps order, part by part |
| BlockIndex.Index.Add | internal/repository/index.go:23-36 | refuses missing and known hashes, otherwise extends all three indexes |
| BlockIndex.Index.RemoveAbove | internal/repository/index.go:63-87 | filters all three indexes by height, whatever the iteration order |

## Left out

- HTTP handlers, routing, JSON, metrics, peers, the `audit.Log` calls of the node, and `cmd/node/main.go`: input and output.
- SHA-256 and hex encoding internals, `crypto/rand`: unspecified function, and identifiers chosen by the environment.
- Clocks: `now` and time stamps are parameters; `CreatedAt` and `Duration` are dropped, and one `now` serves all of `List`.
- Mutexes: each method is one atomic step; `NodeMachine` splits `mine` where submissions can fall in between.
- Aliasing of Go maps and slices: the map returned by `State.Snapshot` is also the stored version, and the proposer lists of the block index share arrays across calls; both are values here, except inside `BlockIndex.Compact`.
- `internal/proof/proof.go`: its `Verify` does not recompute a root from a path, so there is no round trip to state.
- `Repo.Range`, `Index.Height`, `Index.Heights`, `Pool.Stats`, `Executor.Estimate`, `ValidateBatch` and other plain accessors.
- `mempool.Select`, `CheckReplacement`, `ValidateNonce`, `Reservation`, `MetaStore`, `RoundState`, `EvidencePool`, the simulated `Network` and `audit.Bus`: independent of the results above.
- Library sorts and searches (`sort.Strings`, `sort.Slice`, `sort.SearchStrings`): modelled by methods with their contracts; the order `sort.Slice` leaves among equal fees stays open.
- Repository.Repo.VerifyChain: stores of 2^63 blocks or more are excluded; Go's `len` is an `int`, so it measures no such map.
- Merkle.ConclusiveIff: proofs with 64 hex digits as last step hash above a step hash holding `=` are not decided; whether a map has the root of such a proof depends on which strings have the digests in the steps above.
