# Privacy pool verification

A Dafny model of the privacy-pool stack: the shielded pools that run on NEAR, CosmWasm, Substrate
and ink!, the Poseidon permutation under their trees, and the client-side code around them (route
search, note selection, relayer batching, fee estimation, proof binding).

| file | models |
|---|---|
| `Hashing.dfy`, `MerkleTree.dfy` | abstract two-to-one hash; the zero-padded Merkle tree and its paths |
| `PoolLedger.dfy` | the NEAR / CosmWasm / Substrate pool as an abstract machine; theorems over every run |
| `PrivacyPool.dfy` | the same pool as stored: filled subtrees, root ring, spent set, epoch records |
| `Subsequence.dfy` | which positions a filter keeps |
| `SparseTree.dfy` | the ink! tree, where an empty subtree is zero at every level |
| `InkLedger.dfy`, `InkPool.dfy` | the ink! pool with commit / reveal / reclaim, abstract and stored |
| `Router.dfy` | breadth-first route search over bridges |
| `ModularArithmetic.dfy`, `Poseidon.dfy` | residues, and the two implementations of the permutation |
| `NoteWallet.dfy`, `Aggregator.dfy`, `Fees.dfy`, `ProofBinding.dfy` | note selection, event batching, fee threshold, proof tags |

The three contracts of the first pool are one algorithm; `Config.platform` selects where they differ
(deposit overflow aborts on NEAR and CosmWasm and saturates in the pallet; the pallet stores no empty
list for a new epoch). A failed call is rolled back by every platform, so each call is all or
nothing: the stored pools write as they go and put the fields back on an error. The hash, the proof
check of the pool and the keccak tag of ink! are function parameters. Where a property rests on the
hash having no collisions, the lemma produces the two colliding arguments instead of assuming that
there are none.

Where code and documentation differ, the model follows the code:

- `sdk/src/fees.ts` says a fee of half the amount or more is never economical; `NeverEconomicalIff`
  gives the exact condition, `ThresholdHoldsIff` says when the returned minimum is a true bound, and
  `VaultThresholdIff` when it is one with a flat vault fee.
- `relayer/src/aggregator.rs` draws the batch jitter from `0..max_jitter_ms`, which panics when the
  maximum is 0; `BatchingIsInvisible` states exactly when batching loses nothing.
- `pallets/privacy-pool/src/verifier.rs` describes the tag as tying a proof to its public inputs; a
  withdrawal tag leaves out the output commitments. `WithdrawBinds` states exactly what it ties.

In one place the code has no meaning to follow: `ink/privacy-pool/lib.rs` compares the leaf counter
with `1u32 << TREE_DEPTH`, and for its depth of 32 that is not a 32-bit value. There the model follows
the intention, a limit of 2^depth, and lets the overflow of the counter abort the message, so at most
2^depth - 1 leaves ever exist and the stored full-tree guard never fires (`InkPool.GuardsNeverFire`).

## Model

| member | source | states |
|---|---|---|
| MerkleTree.ComputeZeroHash | near/contracts/privacy-pool/src/hash.rs:27-33 | the loop computes the digest of an empty subtree of that height |
| MerkleTree.RootIsPaddedRoot | pallets/privacy-pool/src/lib.rs:549-576 | the root is the half-splitting hash of all leaves padded with zeros to 2^depth, for every depth and hash |
| MerkleTree.SmallTrees | near/contracts/privacy-pool/src/lib.rs:370-386 | the roots of the smallest trees written out: left child first, zeros on the right |
| MerkleTree.NodePastTheEnd | near/contracts/privacy-pool/src/lib.rs:374-377 | a node right of every leaf is the empty-subtree digest the insertion uses as right sibling |
| MerkleTree.EveryLeafHasAPath | lumora-coprocessor/src/circuits.rs:481-531 | each of the 2^depth positions has a path of depth siblings that folds to the root (bit 0: current left, bit 1: current right) |
| MerkleTree.PathBindsLeaf | lumora-coprocessor/src/circuits.rs:481-531 | a path with the bits of i that folds to the root starts at the leaf of position i or at zero padding; otherwise path and tree exhibit a collision |
| PrivacyPool.Pool.constructor | near/contracts/privacy-pool/src/lib.rs:85-133 | the stored empty pool represents the initial ledger: zero subtrees, one root, one open epoch (whose list the pallet does not store) |
| PrivacyPool.EmptySubtrees | cosmwasm/contracts/privacy-pool/src/contract.rs:41-47 | the initialisation loop stores the empty subtree of every level and returns the empty root |
| PrivacyPool.ClimbLeft | near/contracts/privacy-pool/src/lib.rs:373-377 | at an even index the parent of the new leaf's node is its hash with an empty right sibling |
| PrivacyPool.ClimbRight | near/contracts/privacy-pool/src/lib.rs:378-384 | at an odd index the stored subtree is the left sibling in the new tree too |
| PrivacyPool.Pool.Climb | near/contracts/privacy-pool/src/lib.rs:370-386 | the O(depth) walk returns the root of the full padded tree and leaves in each slot the node at the last even index reached |
| PrivacyPool.Pool.InsertLeaf | near/contracts/privacy-pool/src/lib.rs:365-394 | after any insertion filled subtrees and root ring again describe the tree of all leaves; a full tree is refused unchanged |
| PrivacyPool.Pool.IsKnownRoot | near/contracts/privacy-pool/src/lib.rs:396-414 | the wrapping walk accepts a root if and only if it is non-zero and one of the last min(k+1, N) roots after k insertions |
| PrivacyPool.Pool.CheckAndSpendNullifiers | near/contracts/privacy-pool/src/lib.rs:416-439 | same verdict and same error as spending in order on the epoch lists; the spent set stays the union of the lists |
| PrivacyPool.ComputeNullifierRoot | near/contracts/privacy-pool/src/hash.rs:36-45 | the loop computes the left fold of the list, zero for none |
| PrivacyPool.Pool.Deposit | near/contracts/privacy-pool/src/lib.rs:141-160 | stored pool and ledger move together; an error is the ledger's and restores every field |
| PrivacyPool.Pool.Transfer | near/contracts/privacy-pool/src/lib.rs:165-194 | the same for a transfer, with the nullifiers spent before the proof check rolled back |
| PrivacyPool.Pool.Withdraw | cosmwasm/contracts/privacy-pool/src/contract.rs:248-301 | the same for a withdrawal; the clamp to zero never takes effect |
| PrivacyPool.Pool.CloseEpoch | pallets/privacy-pool/src/lib.rs:488-507 | the sealed record holds the fold and the untruncated count of the list, and a fresh epoch is opened |
| PrivacyPool.StoredFields | near/contracts/privacy-pool/src/lib.rs:48-79 | what each stored field says: counter, balance, newest root, spent set, and per epoch its blocks, list, sealed root, count and flag |
| PrivacyPool.OpenEpochIsStored | pallets/privacy-pool/src/lib.rs:485-486 | in every stored pool the current epoch has a record, which is not finalised, and a list within the bound |
| PrivacyPool.Pool.FinalizeEpoch | pallets/privacy-pool/src/lib.rs:481-518 | finalisation does what the ledger says, in which the missing-epoch and already-finalised errors do not exist |
| PrivacyPool.Pool.Execute | cosmwasm/contracts/privacy-pool/src/contract.rs:73-117 | every call of the pool is accepted, refused and performed exactly as by the abstract machine |
| PoolLedger.SpendAcceptedIff | near/contracts/privacy-pool/src/lib.rs:416-439 | two nullifiers are accepted if and only if they differ, are unspent in every epoch and the open epoch has room for both |
| PoolLedger.ExchangeAcceptedIff | near/contracts/privacy-pool/src/lib.rs:165-222 | the exact condition under which a transfer or a withdrawal is accepted |
| PoolLedger.DepositAcceptedIff | near/contracts/privacy-pool/src/lib.rs:141-158 | a deposit is accepted if and only if it is positive, its commitment was never deposited, the tree has room and, outside the pallet, 128 bits do not overflow |
| PoolLedger.FinalizeAcceptedIff | pallets/privacy-pool/src/lib.rs:481-518 | a finalisation is accepted if and only if governance calls it |
| PoolLedger.ErrorsAreTrue | cosmwasm/contracts/privacy-pool/src/contract.rs:171-347 | whatever error a call is refused with is true of the state it met |
| PoolLedger.CallEffect | near/contracts/privacy-pool/src/lib.rs:141-288 | the ledger after each accepted call, field by field: which leaf, nullifier and amount goes where, and that nothing else moves |
| PoolLedger.NoDoubleDeposit | near/contracts/privacy-pool/src/lib.rs:147-150 | over any run the deposited commitments are distinct, were not deposited before, and make up the commitment set |
| PoolLedger.DepositsFromFresh | near/contracts/privacy-pool/src/lib.rs:147-150 | from a fresh pool the commitment set holds exactly the commitments of the accepted deposits, which are pairwise distinct |
| PoolLedger.SpendKeeps | pallets/privacy-pool/src/lib.rs:605-621 | spending appends to the open list only and keeps all listed nullifiers distinct and the list within its bound |
| PoolLedger.RunKeepsSound | near/contracts/privacy-pool/src/lib.rs:416-439 | in every reachable state the epoch lists are pairwise disjoint, duplicate-free and bounded, closed epochs are exactly those below the current one |
| PoolLedger.RunTrace | near/contracts/privacy-pool/src/lib.rs:141-237 | the tree holds exactly the leaves, and the epochs exactly the nullifiers, of the accepted calls, in order |
| PoolLedger.EachInOneEpoch | near/contracts/privacy-pool/src/lib.rs:416-439 | a nullifier belongs to one place of one epoch |
| PoolLedger.NoDoubleSpend | near/contracts/privacy-pool/src/lib.rs:424-431 | no run from a fresh pool spends a nullifier twice |
| PoolLedger.FinalisedEpochsAreFrozen | near/contracts/privacy-pool/src/lib.rs:252-288 | over any run, finalised epochs never change and the open one only grows |
| PoolLedger.EpochsOfRun | pallets/privacy-pool/src/lib.rs:481-518 | over any run there is one epoch more for each finalisation, from its block to that of the next, listing exactly the nullifiers accepted in between, in order |
| PoolLedger.EpochsFromFresh | near/contracts/privacy-pool/src/lib.rs:252-288 | the same from a fresh pool, for every epoch |
| PoolLedger.NullifierRootValues | near/contracts/privacy-pool/src/hash.rs:36-45 | zero for no nullifier, a single one itself, each further one hashed on the right |
| PoolLedger.NullifierRootBinds | pallets/privacy-pool/src/lib.rs:624-633 | equal root and count mean equal ordered lists, or a collision is exhibited |
| PoolLedger.NullifierRootNeedsCount | pallets/privacy-pool/src/lib.rs:624-633 | without the count the root does not determine the list |
| PoolLedger.Conservation | pallets/privacy-pool/src/lib.rs:339-340 | over any run balance plus withdrawals never exceeds deposits, with equality if and only if no accepted deposit passed 128 bits; always equal on NEAR and CosmWasm |
| PoolLedger.BalanceFromFresh | near/contracts/privacy-pool/src/lib.rs:157-237 | on NEAR and CosmWasm the balance of a pool is all deposits less all withdrawals |
| PoolLedger.SaturationLosesValue | pallets/privacy-pool/src/lib.rs:339-340 | on Substrate a deposit of the 128-bit maximum followed by one of 1 is accepted and leaves the 1 out of the balance |
| PoolLedger.RootRetention | near/contracts/privacy-pool/src/lib.rs:388-414 | a root stays accepted while fewer than N leaves have been added after it, over any run |
| PoolLedger.KnownAfterRun | near/contracts/privacy-pool/src/lib.rs:396-414 | after any run a root is accepted if and only if it is not zero and is the padded root of the inserted leaves without the last few, fewer than N |
| PoolLedger.KnownRootOpens | near/contracts/privacy-pool/src/lib.rs:396-414 | every accepted root is the root of a recent prefix of the leaves, all its leaves open against it, and nothing else does |
| SparseTree.SparseElsewhere | ink/privacy-pool/lib.rs:826-857 | a new leaf changes only the nodes above it |
| SparseTree.SparseUp | ink/privacy-pool/lib.rs:830-855 | hashing with the sibling read from the map, absent read as zero, gives the parent in the sparse tree |
| SparseTree.UpdateTree | ink/privacy-pool/lib.rs:826-857 | afterwards a node is stored exactly when its subtree holds a leaf, with its recursive hash, and the root is the hash at the top |
| SparseTree.SmallSparseTrees | ink/privacy-pool/lib.rs:826-857 | the roots of the smallest trees written out: left child first, an empty half zero at any height |
| SparseTree.EverySparseLeafHasAPath | ink/privacy-pool/lib.rs:826-857 | every inserted leaf has a path of depth siblings that folds to the sparse root |
| SparseTree.PathBindsSparseLeaf | ink/privacy-pool/lib.rs:826-857 | a path that folds to the sparse root starts at the leaf of its position, or exhibits a collision; where there is no leaf a preimage of zero is the only further way |
| InkPool.HistoryIsRecent | ink/privacy-pool/lib.rs:802-814 | the slots of the circular history are exactly the last 100 pushed roots |
| InkPool.Pool.constructor | ink/privacy-pool/lib.rs:201-235 | the stored empty pool represents the initial ledger, with root zero |
| InkPool.Pool.IsKnownRoot | ink/privacy-pool/lib.rs:802-814 | accepts exactly the current root and the last 100 pushed ones |
| InkPool.Pool.PushRoot | ink/privacy-pool/lib.rs:817-820 | overwrites the oldest slot, so the history is again the last 100 pushes |
| InkPool.Pool.InsertCommitment | ink/privacy-pool/lib.rs:260-267 | leaf map, node map, counter and root again describe the extended leaf sequence; the leaf map is its exact inverse |
| InkPool.Pool.Deposit | ink/privacy-pool/lib.rs:242-280 | stored pool and ledger move together, with the same error and rollback |
| InkPool.Pool.TransferOrWithdraw | ink/privacy-pool/lib.rs:288-410 | both messages do what the ledger says, in which a zero output is never skipped |
| InkPool.Pool.VerifyProofStructure | ink/privacy-pool/lib.rs:731-798 | the checks in their order decide exactly the proof predicate of the ledger |
| InkPool.Pool.CommitDeposit | ink/privacy-pool/lib.rs:488-516 | records the commit and takes the value, as the ledger says |
| InkPool.Pool.CheckReveal | ink/privacy-pool/lib.rs:525-563 | the checks of a reveal give the ledger's error, or leave only the insertion to fail |
| InkPool.Pool.RevealDeposit | ink/privacy-pool/lib.rs:520-577 | marks the commit used, inserts the leaf and pushes the root, or changes nothing |
| InkPool.Pool.ReclaimExpiredCommit | ink/privacy-pool/lib.rs:581-613 | marks an expired commit used and nothing else; the value stays in the pool |
| InkPool.Pool.FinalizeEpoch | ink/privacy-pool/lib.rs:417-458 | closes the epoch with the current root, as the ledger says |
| InkPool.Pool.SetPaused | ink/privacy-pool/lib.rs:619-641 | pause and unpause by governance only |
| InkPool.Pool.Execute | ink/privacy-pool/lib.rs:242-641 | every message is accepted, refused and performed exactly as by the abstract machine, and a refused one changes nothing |
| InkPool.StoredFields | ink/privacy-pool/lib.rs:160-196 | what each stored field says: counter, root, leaf index, spent set, balance, commits, pause and each closed epoch |
| InkPool.GuardsNeverFire | ink/privacy-pool/lib.rs:255-258 | in every stored pool the leaf counter is below 2^depth and the current epoch has a record that is not finalised |
| InkLedger.ProofLength | ink/privacy-pool/lib.rs:736-775 | an accepted proof has length 128 + 64k with 1 <= k <= 62 |
| InkLedger.ProofAcceptedIff | ink/privacy-pool/lib.rs:731-798 | tag and body are accepted if and only if the digests are non-zero, the nullifiers differ, the body is 96 + 64k bytes, not all is zero, and the tag is the one of the four digests and the body |
| InkLedger.ProofBinds | ink/privacy-pool/lib.rs:777-796 | one proof accepted for two calls means the same nullifiers and outputs, or two digest lists with one tag |
| InkLedger.DepositAcceptedIff | ink/privacy-pool/lib.rs:242-280 | the exact condition under which a deposit is accepted |
| InkLedger.CommitAcceptedIff | ink/privacy-pool/lib.rs:488-516 | the exact condition under which a commit is accepted |
| InkLedger.RevealAcceptedIff | ink/privacy-pool/lib.rs:520-577 | a reveal is accepted if and only if the committer sends it 2 to 100 blocks after an unused commit, for a new leaf with room; paused or not |
| InkLedger.ReclaimAcceptedIff | ink/privacy-pool/lib.rs:581-613 | a reclaim is accepted if and only if the commit is unused and more than 100 blocks old, whoever sends it |
| InkLedger.GovernanceAcceptedIff | ink/privacy-pool/lib.rs:417-641 | finalising, pausing and unpausing are accepted if and only if governance sends them |
| InkLedger.PauseStops | ink/privacy-pool/lib.rs:619-641 | a paused pool refuses exactly deposits, commits, transfers and withdrawals for that reason, and treats the rest as before |
| InkLedger.ErrorsAreTrue | ink/privacy-pool/lib.rs:242-641 | whatever error a message is refused with is true of the state it met |
| InkLedger.MessageEffect | ink/privacy-pool/lib.rs:242-641 | the ledger after each accepted message, field by field, and that nothing else moves |
| InkLedger.PauseAndEpochsOfRun | ink/privacy-pool/lib.rs:417-641 | after any run the pause flag is the last accepted one, and each closed epoch holds the sparse root of the leaves present at its finalisation and the block |
| InkLedger.RecordsOfRun | ink/privacy-pool/lib.rs:488-613 | after any run there is a record exactly for each accepted commit, marked exactly if a reveal or reclaim of it was accepted |
| InkLedger.ValueFromFresh | ink/privacy-pool/lib.rs:242-410 | from a fresh pool the balance is what came in less what went out, and the spent set is what was spent |
| InkLedger.RunKeepsSound | ink/privacy-pool/lib.rs:251-267 | in every reachable state no commitment is in the tree twice and the newest pushed root is the current one |
| InkLedger.RunTrace | ink/privacy-pool/lib.rs:242-410 | the leaves are those of the accepted messages in order, and balance plus withdrawals equals deposits plus commits |
| InkLedger.NoDoubleSpend | ink/privacy-pool/lib.rs:304-319 | over any run all spent nullifiers are distinct, were unspent before, and make up the spent set |
| InkLedger.NextLeafIndexCounts | ink/privacy-pool/lib.rs:380-392 | the leaf counter is deposits + reveals + 2 transfers + 2 withdrawals over the accepted messages |
| InkLedger.CommittedOnce | ink/privacy-pool/lib.rs:492-494 | a commit hash is committed at most once in any run, even after it was used up |
| InkLedger.ConsumedOnce | ink/privacy-pool/lib.rs:520-613 | a commit hash is revealed or reclaimed at most once, and never both |
| InkLedger.ConsumedInTime | ink/privacy-pool/lib.rs:537-544 | a reveal comes from the committer 2 to 100 blocks after an accepted commit, a reclaim more than 100 after one |
| InkLedger.PushesPerRun | ink/privacy-pool/lib.rs:817-820 | each accepted message that inserts leaves pushes one root; pushed roots and closed epochs are never rewritten |
| InkLedger.RootRetention | ink/privacy-pool/lib.rs:802-820 | a pushed root is accepted until 100 further messages have pushed |
| InkLedger.PushedRootsArePrefixRoots | ink/privacy-pool/lib.rs:817-857 | over any run the pushed roots are the sparse roots of strictly longer and longer prefixes of the leaves, one for each inserting message |
| InkLedger.KnownRootIff | ink/privacy-pool/lib.rs:802-820 | after any run a root is accepted if and only if it is the sparse root of the leaves present at one of the last 100 pushes, or of the empty tree before the first push |
| InkLedger.KnownRootOpens | ink/privacy-pool/lib.rs:802-857 | after any run every accepted root opens to each leaf of such a prefix, and, short of an exhibited collision, to no other value at the position of a leaf |
| Router.LatencyOfOne | sdk/src/router.ts:176-176 | one hop takes the latency of its edge; with `LatencySum` this fixes every total |
| Router.LatencySum | sdk/src/router.ts:176-176 | the latency of two paths in a row is the sum of theirs |
| Router.ProtocolsInOrder | sdk/src/router.ts:177-177 | the protocols of a route stand in the order of their first use |
| Router.WantedMeans | sdk/src/router.ts:137-182 | a returned route is a chain of active edges from source to destination within the limit that enters no chain twice, and every such chain is one |
| Router.DetourIsFaster | sdk/src/router.ts:185-187 | a worked topology: the faster route of two hops comes before the direct one, an inactive edge is not used, and nothing else is returned |
| Router.NoWorseThanDirect | sdk/src/router.ts:192-198 | the best route is at least as good as any direct bridge |
| Router.FujiToMoonbase | sdk/src/router.ts:95-101 | the shipped direct bridge from Fuji to Moonbase is reported with 60 seconds |
| Router.Expand | sdk/src/router.ts:163-182 | the inner loop takes every active edge out of the chain that leads to a new chain, each once, and no other |
| Router.SortRanks | sdk/src/router.ts:186-186 | the stable sort of routes found in order of hop count ranks them by latency, then hops, and loses none |
| Router.FindRoutes | sdk/src/router.ts:137-187 | terminates and returns all chains of active edges within the hop limit that enter no chain twice, each exactly once, ranked by latency and then hops |
| Router.ExpansionIsLighter | sdk/src/router.ts:158-183 | the queue's total weight, the sum of (E+1)^(hops left), falls with each expansion |
| Router.SimplifyWalk | sdk/src/router.ts:166-169 | every walk, cyclic ones included, can be cut down to a returned route that is no longer and no slower |
| Router.FirstRouteIsBest | sdk/src/router.ts:185-187 | without negative latencies the first route is no slower than any walk, and no longer than an equally fast one |
| Router.EmptyMeansUnreachable | sdk/src/router.ts:137-187 | nothing is returned if and only if no walk within the hop limit exists |
| Router.FindOptimalRoute | sdk/src/router.ts:192-198 | over the shipped topology: the best of all walks of at most three hops, or none when there is no walk |
| ModularArithmetic.OnlyRootIsOne | cosmwasm/contracts/privacy-pool/src/poseidon.rs:37-42 | for prime p with 5 not dividing p - 1, one is the only fifth root of one |
| ModularArithmetic.Pow5Injective | cosmwasm/contracts/privacy-pool/src/poseidon.rs:37-42 | for such p the S-box is injective |
| Poseidon.SboxIsPow5 | cosmwasm/contracts/privacy-pool/src/poseidon.rs:37-42 | three reduced multiplications are one fifth power reduced once |
| Poseidon.StagedMdsIsMix | cosmwasm/contracts/privacy-pool/src/poseidon.rs:93-107 | nested addmod and mulmod give the integer matrix product reduced once |
| Poseidon.FullRound | cosmwasm/contracts/privacy-pool/src/poseidon.rs:237-243 | the in-place round is the unreduced integer round, reduced once |
| Poseidon.PartialRound | cosmwasm/contracts/privacy-pool/src/poseidon.rs:254-258 | the in-place partial round is the unreduced integer round, reduced once |
| Poseidon.Permute | cosmwasm/contracts/privacy-pool/src/poseidon.rs:247-264 | for any tables and any state the result is congruent to the unreduced integer permutation, and reduced if the input was |
| Poseidon.ContractHash | cosmwasm/contracts/privacy-pool/src/poseidon.rs:270-283 | the hash is the first word of the unreduced permutation taken mod p once, below p |
| Poseidon.SdkMds | sdks/python/src/soul_privacy/poseidon.py:150-158 | the accumulating loops give the integer matrix product reduced once |
| Poseidon.SdkPermute | sdks/python/src/soul_privacy/poseidon.py:161-185 | on any integer state the SDK permutation squeezes the same word mod p, and a reduced one if the state was |
| Poseidon.SdkHash | sdks/python/src/soul_privacy/poseidon.py:188-199 | same specification as the contract's hash, so both agree on all inputs |
| Poseidon.TraceIsHash | cosmwasm/contracts/privacy-pool/src/poseidon.rs:237-283 | the hash is word 0 of the last state of an evaluation that starts from (0, left, right) and whose every full or partial round is given word by word |
| Poseidon.OneFullRound | cosmwasm/contracts/privacy-pool/src/poseidon.rs:237-243 | the hash of a single full round, first or last: which constant, input and matrix entry go together |
| Poseidon.OnePartialRound | cosmwasm/contracts/privacy-pool/src/poseidon.rs:254-258 | the hash of a single partial round: only word 0 passes the S-box |
| Poseidon.InputsAreOrdered | sdks/python/src/soul_privacy/poseidon.py:188-199 | a table for which exchanging the two inputs changes the hash |
| Poseidon.HashIgnoresReduction | sdks/python/src/soul_privacy/poseidon.py:198-199 | reducing the inputs first changes nothing |
| Poseidon.MixInjective | cosmwasm/contracts/privacy-pool/src/poseidon.rs:93-107 | a matrix with non-zero determinant mod p mixes injectively |
| Poseidon.PermutationInjective | cosmwasm/contracts/privacy-pool/src/poseidon.rs:237-264 | with p prime, 5 not dividing p - 1 and an invertible matrix, distinct reduced states have distinct images |
| Poseidon.ShippedConstantsInvertible | cosmwasm/contracts/privacy-pool/src/poseidon.rs:12-90 | the shipped modulus and matrix meet the two arithmetic conditions |
| NoteWallet.UnspentIsSubsequence | sdk/src/wallet.ts:155-160 | the notes to choose from are all that are not spent, once, in wallet order |
| NoteWallet.SortIsStable | sdk/src/wallet.ts:155-160 | sorting keeps notes of equal value in wallet order |
| NoteWallet.LargestAreBest | sdk/src/wallet.ts:155-170 | no choice of n notes is worth more than the n largest |
| NoteWallet.SelectNotesForSpend | sdk/src/wallet.ts:155-179 | selects the shortest prefix of the sorted unspent notes that reaches the target, with its change, or fails when none does |
| NoteWallet.SelectNotes | sdks/python/src/soul_privacy/wallet.py:73-89 | the same with the test after the note |
| NoteWallet.SelectionIsMinimal | sdk/src/wallet.ts:150-154 | no choice of unspent notes with fewer notes reaches the target |
| NoteWallet.FailsOnlyIfShort | sdk/src/wallet.ts:172-176 | selection fails if and only if no choice of unspent notes reaches the target |
| NoteWallet.ChangeIsSmall | sdk/src/wallet.ts:178-178 | for a positive target the change is below every selected note |
| NoteWallet.SelectBoth | sdks/python/src/soul_privacy/wallet.py:73-89 | both wallets pick the same notes, or both fail, if and only if the target is positive |
| NoteWallet.MarkLowersBalance | sdk/src/wallet.ts:119-141 | marking a note spent lowers the balance by its value, once |
| NoteWallet.Wallet.AddNote | sdk/src/wallet.ts:85-114 | appends an unspent note, or overwrites the one with that id in place |
| NoteWallet.Wallet.MarkSpent | sdk/src/wallet.ts:119-124 | marks the note with that id, lowering the balance by its value once, or reports that there is none |
| Aggregator.DispatchEvent | relayer/src/aggregator.rs:98-140 | appends the registry command and one command per other chain with an adapter, in order |
| Aggregator.RelayTargets | relayer/src/aggregator.rs:117-133 | the relays go to the other chains with an adapter, in configuration order and as often as configured, each with the event's source, epoch and root |
| Aggregator.DispatchMeans | relayer/src/aggregator.rs:98-140 | first the only registry command, with the event's four fields; a relay is sent if and only if it carries the event to another configured chain with an adapter |
| Aggregator.FlushBatch | relayer/src/aggregator.rs:81-95 | sends the commands of the whole batch in order, or panics before the first on an empty jitter range |
| Aggregator.RunAggregator | relayer/src/aggregator.rs:13-78 | the loop follows the step function on every sequence of arrivals, timeouts and close |
| Aggregator.EveryStateFaithful | relayer/src/aggregator.rs:24-78 | in every state of every interleaving the commands are those of a prefix of the received events, the batch is exactly the rest and shorter than max(1, batch_size) |
| Aggregator.BatchFillsUp | relayer/src/aggregator.rs:24-60 | what waits is exactly what arrived since the last timeout, modulo the batch size |
| Aggregator.PanicsWhenDue | relayer/src/aggregator.rs:24-95 | with an empty jitter range the relayer panics exactly when a flush is first due |
| Aggregator.PanicSendsNothing | relayer/src/aggregator.rs:88-94 | with jitter on and a maximum of 0 a batching relayer never sends anything |
| Aggregator.BatchingIsInvisible | relayer/src/aggregator.rs:24-95 | at close the batched trace equals the unbatched one if and only if flushing cannot panic or nothing was received |
| Fees.EstimateAddsUp | sdk/src/fees.ts:96-147 | three parts make the total, total and net make the amount, and when net is zero and the amount economical |
| Fees.DefaultRates | sdk/src/fees.ts:51-55 | a multiplier of 110 tips a tenth of the gas cost and 30 basis points charge 3 in 1000, rounded down |
| Fees.VaultFeeIsFlat | sdk/src/fees.ts:111-117 | a vault fee replaces the rate |
| Fees.GasAndTipIs | sdk/src/fees.ts:104-108 | gas and tip together are the gas cost times the multiplier in percent, rounded down |
| Fees.AboveThreshold | sdk/src/fees.ts:159-176 | every amount strictly above the returned minimum is economical while 2b < D |
| Fees.EconomicalBound | sdk/src/fees.ts:96-132 | every economical x, negative ones included, satisfies x(D - 2b) > (2g - 1)D |
| Fees.NotFarBelowThreshold | sdk/src/fees.ts:159-176 | while 2b < D no economical amount undershoots the returned minimum by D/(D - 2b) or more |
| Fees.ThresholdHoldsIff | sdk/src/fees.ts:168-175 | everything above the returned minimum is economical if and only if 2b < D |
| Fees.NeverEconomicalIff | sdk/src/fees.ts:170-173 | at 2b >= D no amount at all is economical if and only if b = D, or b < D and gas and tip are positive |
| Fees.NegativeAmountIsEconomical | sdk/src/fees.ts:96-132 | at a rate of 20000 basis points without gas, the amount -1 is called economical |
| Fees.VaultThresholdIff | sdk/src/fees.ts:111-121 | with a flat vault fee v everything above the returned minimum is economical if and only if v(D - 2b) <= 2bg while 2b < D, or there are no costs at all when 2b >= D |
| Fees.VaultThresholdFails | sdk/src/fees.ts:111-121 | an estimator with a flat fee of 10000 for which 790000 is above the returned minimum and not economical |
| ProofBinding.TransferAcceptedIff | pallets/privacy-pool/src/verifier.rs:52-99 | tag and body are accepted for a transfer if and only if no input check fails, the body holds 1 to 32 rounds, not all is zero, and the tag is the hash of domain, inputs and body |
| ProofBinding.WithdrawAcceptedIff | pallets/privacy-pool/src/verifier.rs:109-142 | the same for a withdrawal |
| ProofBinding.TransferLayout | pallets/privacy-pool/src/verifier.rs:200-210 | where each public input stands in the 176 bytes |
| ProofBinding.WithdrawLayout | pallets/privacy-pool/src/verifier.rs:213-220 | where each public input stands in the 112 bytes |
| ProofBinding.ToBytesRoundTrip | pallets/privacy-pool/src/verifier.rs:207-218 | the bytes of a number, highest first, give the number back |
| ProofBinding.AcceptedLength | pallets/privacy-pool/src/verifier.rs:167-197 | an accepted proof has length 128 + 64k with 1 <= k <= 32 |
| ProofBinding.EncodeTransferInjective | pallets/privacy-pool/src/verifier.rs:200-210 | the transfer encoding determines all its inputs |
| ProofBinding.EncodeWithdrawBinds | pallets/privacy-pool/src/verifier.rs:213-220 | two withdrawals have one encoding if and only if they differ in output commitments only |
| ProofBinding.TransferBinds | pallets/privacy-pool/src/verifier.rs:52-99 | one proof is accepted for at most one set of transfer inputs, or two transcripts collide |
| ProofBinding.WithdrawBinds | pallets/privacy-pool/src/verifier.rs:109-142 | without a collision an accepted withdrawal proof is accepted for exactly the inputs that differ in output commitments only |
| ProofBinding.WithdrawOutputsAreFree | pallets/privacy-pool/src/verifier.rs:213-220 | a concrete change of an output commitment leaves the proof accepted |
| ProofBinding.TransferIsNotWithdraw | pallets/privacy-pool/src/verifier.rs:52-142 | no proof is accepted both as transfer and as withdrawal, short of a collision |

## Left out

- Hash bodies (keccak256, blake2, SHA-256) and hex encoding: abstract total functions. NEAR hashes the unpadded concatenation of two strings, so strings of unequal lengths can collide; the CosmWasm hash aborts on text that is not 64 hex digits.
- The proof check of the first pool is a function of the call; its tag is modelled for the pallet only.
- Execute: in `PrivacyPool`, the epoch-root sync, governance and relayer arms of the entry point are not calls of the model.
- DispatchEvent: a failed send, which the source logs and drops, is not modelled; the commands are those offered to the channel.
- A root history of size 0, which CosmWasm accepts at instantiation and which makes every insertion abort: `Config.Valid` excludes it.
- The total issuance of the currency, which bounds what can really be deposited into the pallet.
- Remote epoch roots, relayer and governance setters: single guards on fields no modelled operation reads; governance is fixed.
- Token transfers, existential deposits and NEAR promises: a successful transfer is taken as given.
- Widths of indices and epoch ids (u32, u64): unbounded, except the ink! leaf counter, the 128-bit balances and the 32-bit nullifier count; a depth of 64 or more would overflow the capacity computation of the first pool.
- Primality of the BN254 modulus is a hypothesis of the injectivity results.
- The pallet's Poseidon has other modulus limbs than the CosmWasm and Python one and is not compared with them.
- Commitment uniqueness over all leaves outside ink!: only deposits consult the commitment set there.
- Fractional, infinite or NaN hop limits and floating-point rounding of latencies in the route search: hop limits are integers and latencies reals.
- The length of the aggregator's jitter.
- Rounding of the tip multiplier to a percentage; the gas price is a parameter.
- Backup, import, export, stealth addresses and nullifier derivation in the wallets, and the Python wallet's lookup by commitment: library calls and single lookups.
- EVM contracts, subgraph, coprocessor circuits, relayer watcher and dispatcher, RPC clients.
