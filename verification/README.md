# PantheonChain in Dafny

A model of the stateful cores of PantheonChain, a three-layer chain (TALANTON settlement and
governance, DRACHMA exchange and rollups, OBOLOS contracts), with proofs of what those cores are
for. Code that updates objects in place is modelled by classes whose methods are proved against
functions on values; the properties below are proved about those functions, over all inputs and all
runs.

SHA-256, Schnorr signatures and zero-knowledge proofs stay uninterpreted: members that hash take the
hash as a parameter, and nothing more than that it is a function is assumed. What rests on a hash
being hard to collide is stated as "the claim holds, or here are two inputs with one digest".
64-bit and 32-bit arithmetic is written out wherever a sum or product can leave its range.

| files | what they hold |
|---|---|
| `Arithmetic`, `Bytes`, `Ordered`, `Sums`, `Decimals` | products and quotients, bytes and digests, number encodings and map order, sums over maps, decimal text |
| `Trie`, `TrieMap`, `TrieDelete`, `TrieHeap`, `TrieStore`, `TrieBinding` | the Merkle Patricia trie: on values, against a map, its deletion as written, on the heap, as a store, and what its root binds |
| `WorldState`, `WorldStateClass`, `StateHistory`, `StateRoot` | accounts and storage with cached roots, what their reads return, and what a state root commits to |
| `OrderQueue`, `OrderBook`, `Amm`, `AmmAmounts`, `AmmShares` | price-time matching, the constant-product pool and its amounts, and what its doubly credited shares redeem |
| `Merkle`, `ZkState`, `ZkBatchCodec` | Merkle proofs in both implementations, the private rollup state, the batch byte form |
| `Word256`, `WordDivision`, `WordShift`, `VmWords`, `Squaring`, `WordPower` | 256-bit words; exponentiation by squaring over any product, and over the machine's |
| `VmRun`, `VmLaws`, `VmMemoryLaws`, `VmAccounting`, `VmRefund`, `VmOutside`, `VmClass` | the bytecode interpreter: its steps, what each leaves on the stack, in memory and in storage, its gas and memory, its refunds, and its accesses outside the memory |
| `Rollup`, `RollupWindow`, `RollupChain`, `RollupClass` | the optimistic rollup, its challenge window, its live batches as a stack, and its fraud proofs |
| `Commitments`, `CommitmentCodec`, `CommitmentRoundTrip` | checkpoint commitments: quorum and text form |
| `Utf8Memo` | destination tags and the strict UTF-8 check |
| `Bridge`, `BridgeChecks`, `BridgeClass` | the lock-mint and burn-unlock bridge, and what an accepted message has met |
| `Treasury`, `TreasuryRuns`, `TreasuryHistory`, `TreasuryGrants`, `TreasuryBudgets`, `TreasuryReserve`, `TreasurySigners`, `TreasuryClass` | treasury money track by track, its grants, budgets and reserve, and who signed for it |
| `AntiWhale`, `Voting`, `VotingRuns`, `VotingHistory`, `VotingStatus`, `VotingVerdict`, `VotingClass` | governance votes: what is recorded, tallied and carried out |

Where the code departs from its own comments or from what it is meant to do, the code is modelled as it
is, and the departure is a theorem: the trie's collapse of a branch loses a key
(`TrieDelete.DeleteExactly` says exactly when), and a collapse that loses none can leave a trie that the
next insertion fails on (`TrieStore.ValuelessSurvivorFaults`); a node encoding keeps one byte of a
path's length (`TrieBinding.LongPathsUnbound`); multiplication places its partial products wrongly
(`WordShift.MulCorrectExactly`); shifts look at 64 bits of the amount (`WordShift.ShlAgrees`,
`WordShift.ShrAgrees`); exponentiation inherits the product (`WordPower.ExpRightExactly`) and leaves its
loop too early (`WordPower.ExitsMatterExactly`); liquidity shares are credited twice
(`AmmShares.CreditsAddUp`), so that more can be redeemed than was issued or deposited
(`AmmShares.RedemptionWrapsExactly`, `AmmShares.RoundTripOverpaidExactly`), and a saturated deposit
dilutes (`AmmShares.DepositDilutesExactly`); an expansion whose size wraps hands gas back
(`VmAccounting.WrappedExpansionRefunds`, and `VmRefund.RefundReached` for a program that gets it), and
one whose end wraps is followed by an access outside the memory (`VmOutside.RunLeavesMemoryExactly`, and
`VmOutside.OutsideReached` for a program that gets there); STOP does not stop (`VmOutside.StopGoesOn`);
a Merkle proof of any length is accepted, so that inner strings of the tree pass for accounts
(`ZkState.InnerStringsVerify`); splitting an input that overflows may pay where one swap does not
(`Amm.SplittingPaysExactly`); a fraud proof names its own claimed root, so that every batch can be
challenged (`RollupModel.ChallengeableExactly`); quorum products saturate
(`Commitments.SaturationHarmlessExactly`); the bridge quorum counts listings, not keys
(`BridgeModel.CountsKeysExactly`) and signs a hash that the payload is never compared with
(`BridgeModel.PayloadUnbound`), so that a delivered lock can mint the whole supply
(`BridgeModel.WholeSupplyMinted`); a burn beyond the supply is recorded as a success
(`BridgeModel.BurnAddsUpExactly`); a lock sent under a chain's number blocks one of its messages
(`BridgeModel.ChainSenderBlocks`); the signature of a removed guardian still counts
(`TreasurySigners.ExecutedByGuardiansExactly`); wrapping products let a spend past the reserve rule
(`TreasuryReserve.ReserveRuleExactly`); the turnout can exceed a snapshot's total that has wrapped
(`VotingRuns.TurnoutBoundExactly`); a re-tally makes an executed proposal executable again
(`VotingRuns.RetallyReopensExecuted`) and postpones a passed one (`VotingVerdict.PostponedForever`); a
saturated veto comparison is always passed (`VotingVerdict.PassesExactly`); a wrapping milestone sum is
not covered (`TreasuryRuns.GrantCoversMilestones`); the square root of the largest 64-bit number divides
by zero (`AntiWhale.Isqrt`).

Remarks that need no proof beyond their statement stand beside the results. Some complete the laws of the
machine, the pool, the bridge and votes for the cases the rows below leave: `VmLaws.PopLaw`,
`VmLaws.NothingLaw`, `VmLaws.PriceLaw`, `VmLaws.UnpaidLaw`, `VmLaws.EndOfCode`,
`VmMemoryLaws.UnderflowLaw`, `AmmAmounts.SwapMeetsMinimum`, `AmmAmounts.FirstMinted`,
`AmmAmounts.NotRedeemed`, `BridgeChecks.LockAcceptedExactly`, `BridgeChecks.BurnAcceptedExactly`,
`VotingHistory.OneWeight`. Five are small facts:
`TrieStore.EmptyRepresents` and `TrieStore.MixedLengthsLoseKey` (why keys of one width are asked for),
`RollupModel.HonestBatch` (an honest batch is accepted and draws no generated proof),
`VmAccounting.LoadAfterStore` (a stored word is loaded back), `VmOutside.RunPastStop` (a program that
pushes behind its STOP). The others put numbers into the theorems on liquidity, the treasury and votes:
`AmmShares.FirstDepositorOverdraws`, `AmmShares.FirstDepositRedeemed` (1000 and 1000 into an empty pool
redeem 2000 and 2000 and wrap a reserve), `AmmShares.LaterDepositRedeemed` (100 and 100 beside 1000 and
1000 redeem 200 and 200), `AmmShares.SaturatedDepositDilutes`, `TreasurySigners.RemovedGuardianCounts`
(the only guardian proposes, is removed, and the spend goes through), `TreasuryReserve.NoReserveLeft` (a
spend goes through with nothing in the emergency track), `VotingRuns.WrappedSnapshotExceeded` (two
entries of 2^63 total zero), and `VotingVerdict.VetoIgnored` (two thirds of all votes veto a proposal
that passes).

## Model

| member | source | states |
|---|---|---|
| TrieMap.InsertThenLookup | layer3-obolos/evm/mpt.cpp:86-204 | inserting into a trie of fixed-length keys changes the answer for that key alone, through leaf and extension splits and branch inserts |
| TrieMap.InsertWellFormed | layer3-obolos/evm/mpt.cpp:86-204 | inserting keeps the shape invariant of fixed-length tries |
| TrieMap.RemoveThenLookup | layer3-obolos/evm/mpt.cpp:253-322 | removal, with the collapse the comment describes or where the code's collapse meets an extension, changes the answer for the removed key alone |
| TrieMap.RemoveWellFormed | layer3-obolos/evm/mpt.cpp:279-319 | such a removal keeps the shape invariant |
| TrieDelete.DeleteExactly | layer3-obolos/evm/mpt.cpp:284-307 | for every trie of fixed-length keys and every key: the code's removal acts as a map's deletion if and only if it collapses no branch, or collapses one onto an extension or onto a node holding no value |
| TrieDelete.UnsafeDeleteLosesKey | layer3-obolos/evm/mpt.cpp:296-305 | in every other case it exhibits another key whose value is lost |
| TrieDelete.ShapeKeptExactly | layer3-obolos/evm/mpt.cpp:284-307 | the code's removal keeps the shape if and only if it collapses no branch onto a leaf or branch; onto a node holding no value the answers stay a map's, but the shape is broken |
| TrieStore.WrittenCollapseLosesKey | layer3-obolos/evm/mpt.cpp:296-305 | the shortest run that shows it: two keys, one deletion, and the lookup of the other reads past a vector |
| TrieStore.RunRepresents | layer3-obolos/evm/mpt.cpp:19-38 | after any run of admissible puts and deletes on keys of one width the trie holds exactly what a finite map would |
| TrieStore.InStepExactly | layer3-obolos/evm/mpt.cpp:19-38 | the code's runs on keys of one width that are well formed and answer as the map at every step are exactly the admissible ones |
| TrieStore.StepAnswersExactly | layer3-obolos/evm/mpt.cpp:19-38 | one operation on a trie in step with a map keeps the answers right, shape apart, if and only if it stores, or collapses no branch onto a leaf or branch, or collapses one onto a node that holds no value |
| TrieStore.FirstBreakAnswersExactly | layer3-obolos/evm/mpt.cpp:19-38 | a run up to and including its first inadmissible operation answers as the map throughout if and only if the node that operation collapses a branch onto holds no value |
| TrieStore.ValuelessSurvivorFaults | layer3-obolos/evm/mpt.cpp:86-204 | what such a run is in for: after three insertions and two deletions every answer is right, and storing a deleted key again follows a missing child |
| TrieStore.DocumentedRunIsAdmissible | layer3-obolos/evm/mpt.cpp:284 | with the collapse the comment asks for, every run on keys of one width is admissible |
| TrieStore.MerklePatriciaTrie.Put | layer3-obolos/evm/mpt.cpp:19-28 | the in-place trie becomes the inserted trie; an empty value deletes |
| TrieStore.MerklePatriciaTrie.Delete | layer3-obolos/evm/mpt.cpp:35-38 | the in-place trie becomes the trie after the code's removal |
| TrieStore.MerklePatriciaTrie.Get | layer3-obolos/evm/mpt.cpp:30-33 | returns the lookup of the key's digits |
| TrieHeap.Insert | layer3-obolos/evm/mpt.cpp:86-204 | the recursive in-place insertion yields a tree of nodes modelled by the value-level insertion |
| TrieHeap.Remove | layer3-obolos/evm/mpt.cpp:253-322 | the recursive in-place removal, collapse included, yields a tree modelled by the value-level removal |
| TrieHeap.CommonPrefixLength | layer3-obolos/evm/mpt.cpp:76-84 | the loop finds the longest common prefix |
| TrieHeap.EncodeNode | layer3-obolos/evm/mpt.cpp:324-371 | the bytes appended are the encoding whose digest is the node's hash |
| TrieBinding.RootBindsContents | layer3-obolos/evm/mpt.cpp:324-388 | two tries with equal root hashes and paths under 256 digits answer every lookup alike, whatever the lengths of their values, or two of the strings hashed collide, or one hashes to the all-zero digest |
| TrieBinding.EncodingParts | layer3-obolos/evm/mpt.cpp:324-371 | a node encoding determines kind, path, value and child digests: although the value length is cut to two bytes, what follows the value has a length fixed by the kind |
| TrieBinding.LongPathsUnbound | layer3-obolos/evm/mpt.cpp:324-371 | at 256 digits the length byte is zero: two leaves for different keys have one root under every hash |
| WorldStateModel.ReachableRootIsFresh | layer3-obolos/evm/state.cpp:134-215 | in every state reached by setters, deletions, root queries, snapshots and restores, the reported state root is that of a rebuild of all storage tries and the account trie |
| StateRoot.StateRootBinds | layer3-obolos/evm/state.cpp:134-215 | of any two states reached with addresses of 160 bits and words of 256: the same accounts with the same storage give one state root, and one state root is of the same accounts with the same storage, or two different strings hashed for them collide, or one hashes to the all-zero digest |
| WorldStateModel.StepCoherent | layer3-obolos/evm/state.cpp:15-132 | every operation keeps every cache in line with a rebuild unless it is marked stale, in the state and in all snapshots |
| StateHistory.ReadsAreHistory | layer3-obolos/evm/state.cpp:15-132 | in every run, told from its operations alone, where restoring a snapshot takes back what came after it: the word read under a key is the last one set there since the account was last deleted, or zero; an account is there if anything of it was set since, with the balance, nonce, code and code hash last set, or those of a new account; nothing done to other accounts and keys counts |
| StateHistory.DeletedExactly | layer3-obolos/evm/state.cpp:120-128 | deleting an account after any run takes its words, its fields and its cached root away and changes no other account, word or root |
| StateHistory.NoWordsNoRoot | layer3-obolos/evm/state.cpp:134-153 | in every run an account all of whose words were deleted or never set has the storage root of an empty trie, one set up again after its deletion included |
| WorldStateClass.WorldState.CalculateStateRoot | layer3-obolos/evm/state.cpp:155-195 | the method with its caches returns the modelled root and leaves the modelled caches |
| WorldStateClass.WorldState.CalculateStorageRoot | layer3-obolos/evm/state.cpp:134-153 | serves a clean cached root or rebuilds the storage trie, and caches it |
| WorldStateClass.WorldState.SetStorage | layer3-obolos/evm/state.cpp:46-64 | zero erases, anything else stores, and the account is marked stale |
| OrderQueue.ClearingVolume | layer2-drachma/dex/dex.cpp:71-132 | matching unit by unit until the first pair that does not meet trades the maximum over prices of the lesser of demand and supply |
| OrderQueue.FillFill | layer2-drachma/dex/dex.cpp:111-129 | filling a queue twice is filling it once with the sum, units keeping their order |
| OrderBooks.EnqueueAsks | layer2-drachma/dex/dex.cpp:24-53 | a new ask goes behind every ask at or below its price and ahead of all others |
| OrderBooks.EnqueueBids | layer2-drachma/dex/dex.cpp:24-53 | a new bid goes behind every bid at or above its price and ahead of all others |
| OrderBooks.NextTrade | layer2-drachma/dex/dex.cpp:82-129 | one more trade between the best orders keeps priority: the next units of one bid for as many of one ask, at the ask's price |
| OrderBooks.UncrossedClears | layer2-drachma/dex/dex.cpp:74-80 | once the best orders do not meet, the traded volume is the clearing volume |
| OrderBooks.OrderBook.MatchOrders | layer2-drachma/dex/dex.cpp:71-132 | the loop terminates, leaves the book uncrossed, fills both sides front first by one volume, and that volume clears the book |
| OrderBooks.OrderBook.PlaceOrder | layer2-drachma/dex/dex.cpp:24-53 | an order with an amount, a price and the two assets of the book joins its side unfilled at its priority; any other changes nothing |
| Amm.OutputOnCurve | layer2-drachma/dex/dex.cpp:415-462 | the output never exceeds the constant-product curve and, without overflow, is the largest amount that does not |
| Amm.OutputBelowReserve | layer2-drachma/dex/dex.cpp:415-462 | a positive output is below its reserve, and the input reserve cannot wrap |
| Amm.SwapKeepsProduct | layer2-drachma/dex/dex.cpp:370-405 | a swap lowers the product of the reserves if and only if it goes through, the input reserve wraps and the output reserve is not empty |
| Amm.SplittingNeverPays | layer2-drachma/dex/dex.cpp:370-405 | any number of consecutive swaps never pays more than one swap of the same total |
| Amm.SplittingPaysExactly | layer2-drachma/dex/dex.cpp:370-462 | where the input reserve does not wrap, some split of an input pays more than one swap of it if and only if the one swap overflows and some smaller input pays anything |
| Amm.NoProfitFromSwaps | layer2-drachma/dex/dex.cpp:370-405 | over any run of smooth swaps, who leaves one reserve no larger has not lowered the other |
| AmmAmounts.MintedIsLargest | layer2-drachma/dex/dex.cpp:249-316 | a deposit beside issued shares mints the largest 64-bit number of them that is no more than proportional to either amount; while the products fit, the largest s with s times the reserve at most the amount times the issued shares, for both assets |
| AmmAmounts.WithdrawnIsLargest | layer2-drachma/dex/dex.cpp:319-368 | while its product fits, a withdrawal takes the largest amount that is no more than the redeemed fraction of the reserve |
| AmmAmounts.WithdrawnPerShare | layer2-drachma/dex/dex.cpp:319-368 | beyond that it takes the largest whole part of the reserve per share, times the shares, or the whole reserve where that does not fit |
| AmmAmounts.Redeemed | layer2-drachma/dex/dex.cpp:319-368 | a redemption of no more than the provider holds takes its amounts from the reserves and its shares from what is held and issued, and leaves all other holders alone |
| AmmShares.ShareValueNeverFalls | layer2-drachma/dex/dex.cpp:249-405 | over any run of swaps, deposits and withdrawals, the exactly characterized wrapping swaps, diluting or pool-starting deposits and over-redemptions apart, the reserves behind a share never fall |
| AmmShares.CreditsAddUp | layer2-drachma/dex/dex.cpp:303-313 | over every run from every pool: what all providers hold, plus what crediting wrapped or saturated away, exceeds the issued shares by everything minted, up to one wrap per over-redemption |
| AmmShares.CreditedTwice | layer2-drachma/dex/dex.cpp:303-313 | over unsaturated runs from an empty pool the providers hold the issued shares plus every share minted |
| AmmShares.RedemptionWrapsExactly | layer2-drachma/dex/dex.cpp:319-368 | a redemption wraps nothing if and only if no more shares are redeemed than were issued; each reserve alone survives exactly while rounding hides the excess |
| AmmShares.RoundTripPaysMoreExactly | layer2-drachma/dex/dex.cpp:249-368 | for every accepted deposit, whatever saturates: redeeming what it was credited pays more of an asset than was deposited if and only if that many shares take more than it, twice the minted shares while they fit |
| AmmShares.RoundTripOverpaidExactly | layer2-drachma/dex/dex.cpp:249-368 | while neither credit nor product saturates: a deposit of x beside a reserve a behind t shares that mints s is paid back with more than x if and only if (x + 1) t is at most s (2 a + x - 1) |
| AmmShares.ProportionalDepositPaidTwice | layer2-drachma/dex/dex.cpp:249-368 | a deposit in the exact proportion of the reserves is paid back twice |
| AmmShares.DepositDilutesExactly | layer2-drachma/dex/dex.cpp:270-300 | over all pools and amounts: a deposit lowers the value behind a share if and only if it is accepted and the saturated amount mints more than it covers by more than rounding gives back, or it mints shares over reserves that had none |
| Amm.WithdrawalBound | layer2-drachma/dex/dex.cpp:319-368 | every withdrawal takes at most the redeemed fraction of a reserve, whichever way it is computed, and no more than the reserve unless more shares are redeemed than were issued |
| Amm.AutomatedMarketMaker.SwapIn | layer2-drachma/dex/dex.cpp:370-405 | the method's pools are those of the modelled swap |
| Amm.AutomatedMarketMaker.AddTo | layer2-drachma/dex/dex.cpp:249-316 | the method's guards by division, its sums and its two credits give the modelled deposit |
| Amm.AutomatedMarketMaker.RemoveFrom | layer2-drachma/dex/dex.cpp:319-368 | the method's lookups, guarded amounts and wrapping subtractions give the modelled withdrawal |
| Merkle.HonestProofReachesRoot | layer2-drachma/rollups/zk_rollup.cpp:77-137 | for every leaf list and index, folding the built proof gives the root, and the proof is as long as the tree is high |
| Merkle.ProofStartsAtLeaf | layer2-drachma/rollups/zk_rollup.cpp:253-274 | a proof of full height that reaches the root starts from a listed leaf, or two different strings hashed on the way collide |
| Merkle.ComputeMerkleRoot | layer2-drachma/rollups/zk_rollup.cpp:77-98 | the padding loop computes the recursive root |
| Merkle.BuildMerkleProof | layer2-drachma/rollups/zk_rollup.cpp:100-137 | the loop computes the recursive proof, and nothing for an index out of range |
| Merkle.BuildMerkleRoot | layer2-drachma/plasma/plasma_chain.cpp:67-97 | Plasma's differently written builder computes the same root |
| Merkle.PlasmaAcceptsHonestProof | layer2-drachma/plasma/plasma_chain.cpp:212-245 | Plasma accepts the wire form of an honest proof if and only if the block holds more than one transaction |
| Merkle.VerifyPlasmaProof | layer2-drachma/plasma/plasma_chain.cpp:212-245 | the byte loop accepts exactly non-empty multiples of 33 bytes whose decoded proof folds to the root |
| ZkState.OnlyFirstSpendCounts | layer2-drachma/rollups/zk_rollup.cpp:204-224 | over any run, what is held under a nullifier is the commitment of the first transaction that spends it |
| ZkState.HeldAccountsVerify | layer2-drachma/rollups/zk_rollup.cpp:226-251 | in every reachable state the proof of any held account verifies against the state root |
| ZkState.OnlyHeldAccountsVerify | layer2-drachma/rollups/zk_rollup.cpp:253-274 | a proof of any length that verifies for a byte string of any length is for the key of a held account, or for an inner string of the tree, or two different strings with one digest are exhibited, or, with no account held, a string that hashes to zero |
| ZkState.InnerStringsVerify | layer2-drachma/rollups/zk_rollup.cpp:253-274 | every string hashed inside the tree is nobody's key, and has a proof that verifies |
| ZkState.TwoLeavesVerify | layer2-drachma/rollups/zk_rollup.cpp:253-274 | in every reachable state with two accounts or more, the first two leaves side by side are such a string, with the proof of their parent |
| ZkState.ZKRollupState.ApplyTransaction | layer2-drachma/rollups/zk_rollup.cpp:204-224 | refuses a used nullifier, else records it, its balance and the new root |
| ZkBatchCodec.InverseExactly | layer2-drachma/rollups/zk_rollup.cpp:376-483 | data decompresses to a batch if and only if the batch compresses to that data and every length fits its four-byte field |
| ZkBatchCodec.CompressBatch | layer2-drachma/rollups/zk_rollup.cpp:376-406 | the appending loop writes the modelled byte form |
| ZkBatchCodec.DecompressBatch | layer2-drachma/rollups/zk_rollup.cpp:408-483 | the offset-advancing reader accepts and returns exactly what the parser does |
| Word256.Add | layer3-obolos/evm/vm.cpp:105-118 | byte addition with carry is addition modulo 2^256 |
| Word256.Sub | layer3-obolos/evm/vm.cpp:120-138 | byte subtraction with borrow is subtraction modulo 2^256 |
| Word256.Lt | layer3-obolos/evm/vm.cpp:276-284 | byte comparison is numeric order |
| WordDivision.Div | layer3-obolos/evm/vm.cpp:166-205 | bitwise long division gives the exact quotient, zero for a zero divisor |
| WordDivision.Mod | layer3-obolos/evm/vm.cpp:207-240 | and the exact remainder |
| WordDivision.DoubleWithCarry | layer3-obolos/evm/vm.cpp:176-182 | the byte loop doubles with the carry it leaves behind, and that carry is zero whenever the double fits, as it always does in the division |
| WordDivision.RemainderFits | layer3-obolos/evm/vm.cpp:174-200 | the doubled remainder with its next bit fits a word at every step |
| WordShift.Shl | layer3-obolos/evm/vm.cpp:334-360 | the two-stage left shift is a shift by the low 64 bits of the amount, modulo 2^256 |
| WordShift.ShlAgrees | layer3-obolos/evm/vm.cpp:335 | it is multiplication by two to the whole amount if and only if the amount fits 64 bits, or its low 64 bits are at least 256 or push every bit of the value out |
| WordShift.Shr | layer3-obolos/evm/vm.cpp:362-388 | the two-stage right shift is a shift by the low 64 bits of the amount |
| WordShift.ShrAgrees | layer3-obolos/evm/vm.cpp:363 | it is division by two to the whole amount if and only if the amount fits 64 bits, or its low 64 bits are at least 256 or exceed the bits of the value |
| WordShift.ShiftBy64BitsWrong | layer3-obolos/evm/vm.cpp:335-363 | one shifted by 2^64, either way, stays one instead of becoming zero |
| WordShift.MulCorrectExactly | layer3-obolos/evm/vm.cpp:140-164 | multiplication by b is right for every first factor if and only if b is a single byte |
| WordShift.Mul | layer3-obolos/evm/vm.cpp:140-164 | for all words: each digit of the second factor adds its multiple of what is left of the first factor, one byte less each time, to the low bytes of the sum and drops the carry |
| WordShift.ToUint64 | layer3-obolos/evm/state.h:40-46 | the eight low bytes are the value modulo 2^64 |
| VmWords.ToUint256 | layer3-obolos/evm/state.h:29-35 | the byte loop gives the word that spells the number |
| VmWords.Not | layer3-obolos/evm/vm.cpp:326-332 | complementing bytes complements the value to 2^256 - 1 |
| WordPower.Exp | layer3-obolos/evm/vm.cpp:242-274 | the loop returns the product of the squares the exponent's bits choose, or the product so far where an early exit bites |
| WordPower.ExitsMatterExactly | layer3-obolos/evm/vm.cpp:265-270 | for all words: the early exits change the answer if and only if some square is the first to be zero, a later bit is set, and the product so far is not zero; the exit at one never does |
| WordPower.EarlyExitWrong | layer3-obolos/evm/vm.cpp:266 | 2^252 squared comes out as 1 where the loop without exits gives 0, which is right |
| WordPower.ExpIsPower | layer3-obolos/evm/vm.cpp:242-274 | the result is the power modulo 2^256 while the square for the exponent's highest bit fits a byte |
| WordPower.ExpRightExactly | layer3-obolos/evm/vm.cpp:242-274 | a base is raised rightly to every exponent if and only if it is zero or one |
| WordPower.SmallPowersWrong | layer3-obolos/evm/vm.cpp:242-274 | 2 to the 8 comes out as 0, and 256 squared as 1 |
| Squaring.EarlyExitMattersExactly | layer3-obolos/evm/vm.cpp:254-271 | the same of the squaring loop over any product with a zero and a one |
| VmWords.Spelled | layer3-obolos/evm/state.h:29-35 | a word is the only one with its value |
| VmLaws.ArithmeticLaw | layer3-obolos/evm/vm.cpp:438-471 | with a below b the stack is left with a + b or a - b modulo 2^256, a / b or a % b, zero for a zero divisor; what lay below is as it was, the opcode is paid and nothing else changes |
| VmLaws.ComparisonLaw | layer3-obolos/evm/vm.cpp:480-499 | with a below b: one if a is less than, greater than or equal to b, as the opcode asks, and else zero |
| VmLaws.BitwiseLaw | layer3-obolos/evm/vm.cpp:507-526 | the word with the conjunction, disjunction or exclusive disjunction of the bits of the two |
| VmLaws.ShiftLaw | layer3-obolos/evm/vm.cpp:534-546 | with the amount below the value: the value times or divided by two to the amount modulo 2^64, zero from 256 on |
| VmLaws.ProductLaw | layer3-obolos/evm/vm.cpp:445-478 | MUL and EXP leave the product and the power of the machine's own kind, with the lower word as first factor and as base |
| VmLaws.UnaryLaw | layer3-obolos/evm/vm.cpp:501-532 | ISZERO and NOT leave whether the word is zero, and 2^256 - 1 less the word |
| VmLaws.PushLaw | layer3-obolos/evm/vm.cpp:592-633 | PUSHn leaves the number its n following bytes spell, zeros standing for those behind the end of the code, and the run goes on behind them |
| VmLaws.DupLaw | layer3-obolos/evm/vm.cpp:635-653 | DUPn pushes the word n deep and moves no other |
| VmLaws.SwapLaw | layer3-obolos/evm/vm.cpp:655-673 | SWAPn exchanges the top with the word n below it and moves no other |
| VmLaws.ContextLaw | layer3-obolos/evm/vm.cpp:675-724 | each context opcode pushes its field as a number; GAS the gas left once it is paid itself |
| VmLaws.GoesOnExactly | layer3-obolos/evm/vm.cpp:404-753 | memory apart, the run goes on behind an opcode if and only if it is implemented, finds its words and room for one more, and does not write in a static call; otherwise it ends with the violation or as with an unknown opcode, and only the stack and the charge have changed |
| VmMemoryLaws.StorageStoreLaw | layer3-obolos/evm/vm.cpp:577-586 | with the key above the value, SSTORE puts the value under that key of this account and changes no other key, account or field |
| VmMemoryLaws.LoadAfterStorageStore | layer3-obolos/evm/vm.cpp:570-586 | after an SSTORE an SLOAD of its key pushes the word stored, and one of any other key what it would have pushed before |
| VmMemoryLaws.StoreLaw | layer3-obolos/evm/vm.cpp:555-568 | with the offset above the word, MSTORE writes its 32 bytes there and MSTORE8 its last one; the memory reaches to their end, three units of gas are paid for each further word of it, and every other byte is as it was or zero |
| VmMemoryLaws.LoadLaw | layer3-obolos/evm/vm.cpp:549-553 | MLOAD pushes the 32 bytes from the offset, zeros behind the end of the memory, at the same price |
| VmMemoryLaws.ReturnLaw | layer3-obolos/evm/vm.cpp:727-741 | with the offset above the length, RETURN and REVERT end the run with their result and give back exactly those bytes |
| VmMemoryLaws.NoRoomLaw | layer3-obolos/evm/vm.cpp:57-87 | an access whose growth cannot be paid for or exceeds any vector ends the run with nothing written or given back |
| VmAccounting.EveryRunAccounted | layer3-obolos/evm/vm.cpp:57-99 | after any number of opcodes of any program, under any gas limit if it has fewer than 2^48 bytes: gas used is the cost of the opcodes charged plus three per word of memory, unless the run ended on an allocation larger than any vector that was charged for; it is within the limit, the stack is within 1024, at most as many opcodes ran as the program has bytes, and a static run left the world unchanged |
| VmAccounting.RunEnds | layer3-obolos/evm/vm.cpp:390-431 | every run ends within one turn per byte of code and a last one |
| VmAccounting.StepKeeps | layer3-obolos/evm/vm.cpp:433-753 | no opcode changes gas by other than its memory growth, an allocation larger than any vector apart, and none changes a static world |
| VmAccounting.WrappedExpansionRefunds | layer3-obolos/evm/vm.cpp:57-70 | under any gas limit an expansion lowers the gas used if and only if rounding its size up to words passes 2^64 and there is memory to refund, or the gas itself passes 2^64 |
| VmRefund.RefundReached | layer3-obolos/evm/vm.cpp:57-70 | a program of seven bytes that has spent 15 before its last opcode and 12 after |
| VmOutside.LoadOutsideExactly | layer3-obolos/evm/vm.cpp:82-87 | a load reads outside the memory if and only if the end of its 32 bytes passes 2^64 and the expansion for what is left of that end goes through |
| VmOutside.StoreOutsideExactly | layer3-obolos/evm/vm.cpp:72-80 | the same of storing a word or a byte |
| VmOutside.ReturnOutsideExactly | layer3-obolos/evm/vm.cpp:727-741 | the same of the bytes given back |
| VmOutside.RunLeavesMemoryExactly | layer3-obolos/evm/vm.cpp:57-87 | every run of every program ends on an access outside its memory if and only if it came to an opcode it could pay for whose operands meet that condition |
| VmOutside.OutsideReached | layer3-obolos/evm/vm.cpp:72-75 | a program of six bytes that expands the memory to 31 bytes and writes 32 at 2^64 - 1 |
| VmOutside.StopGoesOn | layer3-obolos/evm/vm.cpp:404-436 | from every configuration at a STOP the loop goes on behind it |
| VmClass.VM.Execute | layer3-obolos/evm/vm.cpp:390-431 | the loop terminates in exactly the configuration the turns of the model reach |
| VmClass.VM.ExecuteOpcode | layer3-obolos/evm/vm.cpp:433-753 | one opcode changes stack, memory, gas, storage and return data as the modelled step, exceptions included; what the step leaves in values is `VmLaws` and `VmMemoryLaws` |
| VmClass.VM.ExpandMemory | layer3-obolos/evm/vm.cpp:57-70 | charges and grows, or throws after what it has charged |
| VmClass.VM.CopyPushed | layer3-obolos/evm/vm.cpp:623-632 | the copying loop right-aligns the bytes the code still has |
| RollupModel.RunSound | layer2-drachma/rollups/optimistic_rollup.cpp:20-43 | in every run the live batches chain, the current root is the last one's, batches beyond are all challenged, and none is both final and challenged |
| RollupModel.FinalForever | layer2-drachma/rollups/optimistic_rollup.cpp:85-111 | a batch once final is never overwritten, challenged or rolled back, whatever follows |
| RollupWindow.FinalExactly | layer2-drachma/rollups/optimistic_rollup.cpp:85-191 | in every run a batch is final if and only if some operation finalized it at a height at least that of its submission plus the period then set, in 64 bits, and no proof in between convicted it |
| RollupWindow.WindowOpen | layer2-drachma/rollups/optimistic_rollup.cpp:85-111 | until then every proof that names one of its transactions and a root other than re-execution gives is accepted, and takes the batch off or marks it |
| RollupChain.RunIsStack | layer2-drachma/rollups/optimistic_rollup.cpp:20-191 | in every run the table, the counters and the root are those of a stack: a batch with the next number that starts from the root below goes on top, a convicted one comes off with its root or is marked further down, and one past its window becomes final |
| RollupModel.GeneratedProof | layer2-drachma/rollups/optimistic_rollup.cpp:339-383 | a proof is generated for a stored batch if and only if it does not verify, and is accepted if and only if re-execution ends elsewhere than the batch says |
| RollupModel.ProofAgainstFinalRoot | layer2-drachma/rollups/optimistic_rollup.cpp:113-169 | an accepted proof about the last transaction quoting the batch's own final root exists if and only if the batch misstates that root |
| RollupModel.ChallengeableExactly | layer2-drachma/rollups/optimistic_rollup.cpp:85-169 | a stored batch has a fraud proof that is accepted if and only if it has transactions and is not final, whether it is correct or not |
| RollupModel.FinalRootQuotedEarly | layer2-drachma/rollups/optimistic_rollup.cpp:113-169 | quoting a correct batch's own final root for an earlier transaction is accepted if and only if the root after that transaction differs from it |
| RollupModel.MisquotedProofAccepted | layer2-drachma/rollups/optimistic_rollup.cpp:165-168 | about the last transaction any other root than the right one is accepted as the batch's claim |
| RollupClass.OptimisticRollup.SubmitFraudProof | layer2-drachma/rollups/optimistic_rollup.cpp:85-111 | marks the batch, and rolls back if it is the current one |
| RollupClass.OptimisticRollup.SubmitBatch | layer2-drachma/rollups/optimistic_rollup.cpp:20-43 | stores the next batch of the chain, refuses any other |
| RollupClass.OptimisticRollup.FinalizeBatch | layer2-drachma/rollups/optimistic_rollup.cpp:171-191 | finalizes as the model does, an unchallenged batch once its period is over; over runs that is `RollupWindow.FinalExactly` |
| RollupClass.ReExecute | layer2-drachma/rollups/optimistic_rollup.cpp:324-332 | the replay loop computes the fold of the transactions |
| RollupClass.RollupVerifier.GenerateFraudProof | layer2-drachma/rollups/optimistic_rollup.cpp:339-383 | the loop's proof is the modelled one |
| Commitments.HonestSignerInBoth | common/serialization/commitments.cpp:63-90 | two commitments passing the two-thirds test over one set with true stakes and less than a third faulty share an honest signer |
| Commitments.QuorumsIntersect | common/serialization/commitments.cpp:63-90 | any two commitments passing one threshold share signers holding the stake that threshold forces |
| Commitments.WeightIsStake | common/serialization/commitments.cpp:52-61 | with true stakes fitting 64 bits, the weight is the stake of the distinct signers |
| Commitments.SaturationHarmlessExactly | common/serialization/commitments.cpp:78-85 | saturation spoils no verdict for a stake and threshold if and only if the required product fits, or the largest product short of it stays below saturation |
| Commitments.SignedStakeWeight | common/serialization/commitments.cpp:52-61 | the loop with its seen-set counts each validator once, at its first stake |
| Commitments.ValidateFinalityQuorum | common/serialization/commitments.cpp:63-90 | the verdict is yes if and only if the threshold is a fraction, some stake is active, and the weight times the denominator reaches the active stake times the numerator or the end of 64 bits |
| Commitments.ValidatePayloadEncoding | common/serialization/commitments.cpp:18-50 | accepts exactly the valid payloads |
| Commitments.PayloadExactly | common/serialization/commitments.cpp:18-50 | a payload is valid if and only if it has a height, three texts that each write 32 bytes down in hexadecimal, an upstream one where it comes from DRACHMA and no other text in its place, and signatures, each with a validator and a signature |
| CommitmentRoundTrip.RoundTripExactly | common/serialization/serialization.cpp:9-102 | over all commitments: decoding the encoding returns the commitment if and only if it passes the payload checks and no free text holds a delimiter |
| CommitmentRoundTrip.DecodedIsClean | common/serialization/serialization.cpp:27-102 | whatever is decoded is valid and free of delimiters |
| CommitmentRoundTrip.TrailingColonAccepted | common/serialization/serialization.cpp:30-48 | one more colon at the end is accepted and ignored |
| CommitmentCodec.EncodeCommitment | common/serialization/serialization.cpp:9-24 | the stream is the modelled text |
| CommitmentCodec.DecodeCommitment | common/serialization/serialization.cpp:27-102 | the offset and cursor loops accept and return exactly what the parser does |
| Decimals.StoullDecimal | common/serialization/serialization.cpp:58-63 | a printed 64-bit number is parsed back |
| Utf8Memo.ValidateMemo | layer1-talanton/settlement/destination_tag.cpp:78-135 | a memo passes if and only if it has at most 256 bytes and is a concatenation of UTF-8 encodings of scalar values, as section 4 of RFC 3629 defines them |
| Utf8Memo.StepSound | layer1-talanton/settlement/destination_tag.cpp:85-129 | an accepted character is the encoding of a scalar value |
| Utf8Memo.StepComplete | layer1-talanton/settlement/destination_tag.cpp:85-129 | the encoding of every scalar value is accepted, whatever follows |
| Utf8Memo.CheckCharacter | layer1-talanton/settlement/destination_tag.cpp:85-132 | the loop over continuation bytes decides one character |
| Utf8Memo.ReadBackExactly | layer1-talanton/settlement/destination_tag.cpp:17-63 | a serialized tag embedded anywhere is read back, with the position behind it, if and only if its memo's length fits two bytes |
| BridgeModel.RunAddsUp | bridge/l1_l2/l1_l2_bridge.cpp:97-224 | after every covered run locked equals minted plus undelivered locks plus undelivered burns, so minted never exceeds locked |
| BridgeModel.RunAddsUpExactly | bridge/l1_l2/l1_l2_bridge.cpp:97-224 | a run in which each chain's messages have nonces of their own keeps that equation throughout if and only if all its events are covered |
| BridgeModel.StepAddsUpExactly | bridge/l1_l2/l1_l2_bridge.cpp:97-224 | every single event keeps the equation if and only if it is covered: a burn within the minted supply, a mint or unlock of what is undelivered under its nonce, nothing where nothing is, and locks from any sender |
| BridgeModel.BurnAddsUpExactly | bridge/l1_l2/l1_l2_bridge.cpp:202-224 | an accepted burn keeps the equation if and only if the minted supply covers it |
| BridgeModel.MintAddsUpExactly | bridge/l1_l2/l1_l2_bridge.cpp:160-200 | an accepted mint keeps it if and only if the payload names the amount undelivered under its nonce, or zero where none is |
| BridgeModel.UnlockAddsUpExactly | bridge/l1_l2/l1_l2_bridge.cpp:122-158 | an accepted unlock keeps it if and only if it unlocks the amount undelivered under its nonce; one of more than is locked unlocks nothing |
| BridgeModel.RunBalanced | bridge/l1_l2/l1_l2_bridge.cpp:97-224 | after every fair run the equation holds and every undelivered transfer can still be delivered: its message's key is unused |
| BridgeModel.RunBalancedExactly | bridge/l1_l2/l1_l2_bridge.cpp:97-224 | the equation holds and every undelivered transfer stays deliverable, keys in line with deliveries, throughout a run if and only if all its events are fair |
| BridgeModel.StepBalancedExactly | bridge/l1_l2/l1_l2_bridge.cpp:97-224 | every single event keeps both if and only if it is fair: refused, or from no chain number, for a recorded transfer with its recorded amount, and within the minted supply |
| BridgeModel.LockBalancedExactly | bridge/l1_l2/l1_l2_bridge.cpp:97-120 | an accepted lock keeps both if and only if its sender is no chain number |
| BridgeModel.BurnCoveredExactly | bridge/l1_l2/l1_l2_bridge.cpp:202-224 | an accepted burn keeps both if and only if the minted supply covers it and its sender is no chain number |
| BridgeModel.MintBalancedExactly | bridge/l1_l2/l1_l2_bridge.cpp:160-200 | an accepted mint keeps both if and only if its message stands for an undelivered lock and its payload names the amount locked |
| BridgeModel.UnlockBalancedExactly | bridge/l1_l2/l1_l2_bridge.cpp:122-158 | the same of an accepted unlock, where every undelivered burn moves something |
| BridgeModel.ChainSenderBlocks | bridge/l1_l2/l1_l2_bridge.cpp:97-120 | a lock sent under the number of its chain makes the chain's message with that nonce refused from then on, however the run goes on |
| BridgeModel.PayloadUnbound | bridge/l1_l2/l1_l2_bridge.cpp:48-93 | whatever payload a message is delivered with, the checks come out the same |
| BridgeModel.WholeSupplyMinted | bridge/l1_l2/l1_l2_bridge.cpp:160-200 | a message that passes the checks, delivered with a payload naming all that is locked and not minted, mints all of it |
| BridgeModel.NoSecondEffect | bridge/l1_l2/l1_l2_bridge.cpp:137-141 | a message that took effect never takes effect again, however the run goes on |
| BridgeChecks.MintAcceptedExactly | bridge/l1_l2/l1_l2_bridge.cpp:160-200 | a mint is accepted if and only if its message goes from TALANTON to DRACHMA at a height at least six above the lock, under an unused nonce, with at least the minimum of listings, in the 32-bit count, by trusted keys whose signature of the commitment checks, with a path of hashes from the payload hash over the siblings in order to the state root, and the supply allows its amount; it then uses up the nonce and mints the amount, and otherwise changes nothing |
| BridgeChecks.UnlockAcceptedExactly | bridge/l1_l2/l1_l2_bridge.cpp:122-158 | an unlock is accepted if and only if its message meets the same checks from DRACHMA to TALANTON, and then unlocks its amount if that much is locked |
| BridgeChecks.AmountSpelled | bridge/l1_l2/l1_l2_bridge.cpp:122-200 | the amount of a message is the number the first eight bytes of its payload spell, the low byte first, and nothing for a shorter one |
| BridgeChecks.ListingsAreChecked | bridge/l1_l2/l1_l2_bridge.cpp:71-93 | the listings counted are those by a trusted key, behind its prefix byte, whose signature of the commitment checks |
| BridgeChecks.SignedBytesDetermine | bridge/l1_l2/l1_l2_bridge.cpp:48-69 | the signed bytes determine the chains, the nonce, the payload hash and the state root of a message |
| BridgeChecks.NoSecondIntent | bridge/l1_l2/l1_l2_bridge.cpp:97-224 | a sender's nonce records one lock or burn at most, however the run goes on |
| BridgeModel.CountsKeysExactly | bridge/l1_l2/l1_l2_bridge.cpp:71-93 | the listings counted are at least the distinct trusted keys behind them, and as many if and only if no counting key is listed twice |
| BridgeModel.CounterWraps | bridge/l1_l2/l1_l2_bridge.cpp:76-89 | the 32-bit counter holds the number of listings modulo 2^32 |
| BridgeModel.QuorumIsDistinctKeys | bridge/l1_l2/l1_l2_bridge.cpp:71-93 | with no counting key listed twice and fewer than 2^32 listings, the quorum is met if and only if enough distinct trusted keys signed |
| BridgeModel.CountingKeyHasSignature | bridge/l1_l2/l1_l2_bridge.cpp:78-90 | the counting keys are exactly the trusted keys with a listing whose signature of the commitment checks |
| BridgeModel.OneSignatureMeetsQuorum | bridge/l1_l2/l1_l2_bridge.cpp:78-92 | one valid signature listed as often as the quorum asks meets it with a single key |
| BridgeModel.NonceKeyInjective | bridge/l1_l2/l1_l2_bridge.cpp:16-21 | nonce keys are injective in sender and nonce |
| BridgeModel.MintSucceeds | bridge/l1_l2/l1_l2_bridge.cpp:160-200 | an undelivered lock whose message passes the checks is never refused for lack of supply and mints exactly its amount |
| BridgeModel.UnlockSucceeds | bridge/l1_l2/l1_l2_bridge.cpp:122-158 | an undelivered burn whose message passes the checks unlocks exactly its amount |
| BridgeClass.BridgeState.VerifyValidatorQuorum | bridge/l1_l2/l1_l2_bridge.cpp:71-93 | the loop counts the valid listings by trusted keys |
| BridgeClass.BridgeState.VerifyMerkleProof | bridge/l1_l2/l1_l2_bridge.cpp:30-43 | the loop folds the siblings in order |
| BridgeClass.BridgeState.ProcessMint | bridge/l1_l2/l1_l2_bridge.cpp:160-200 | the checks of the model in order, then mints and uses up the key, or changes nothing; what passes is `BridgeChecks.MintAcceptedExactly` |
| TreasuryRuns.RunAddsUp | layer1-talanton/governance/treasury.cpp:50-321 | in every run deposits equal track balances plus what grants still hold plus what was paid out, each grant's released amount is its released milestones and its payouts in the log, and the emergency track has paid exactly the executed spends |
| TreasuryRuns.ApplyConserves | layer1-talanton/governance/treasury.cpp:50-311 | every single operation keeps that balance |
| TreasuryHistory.EveryTrackAddsUp | layer1-talanton/governance/treasury.cpp:50-311 | in every run, for each track: what was deposited into it is in it, held for grants where it is the grants track, or was paid out of it |
| TreasuryHistory.ExecutedExactly | layer1-talanton/governance/treasury.cpp:19-168 | in every run, told from its operations: a spend is executed if and only if some operation executed it when as many distinct guardians as were then required had proposed or signed it, each a guardian at the time, and the emergency track held its amount |
| TreasuryGrants.GrantsFromHistory | layer1-talanton/governance/treasury.cpp:224-311 | in every run the grants are those awarded, numbered in order, each with its recipient and amounts; a milestone is released if and only if a proposal released it before the grant was revoked, and a grant is revoked if and only if a proposal revoked it |
| TreasuryGrants.PeriodsFromHistory | layer1-talanton/governance/treasury.cpp:176-190 | in every run the budget periods are those proposals set up to end after they start, in order, with their bounds and limits |
| TreasuryRuns.GrantCoversMilestones | layer1-talanton/governance/treasury.cpp:233-236 | a grant sets aside what its milestones will pay if and only if their sum fits 64 bits |
| TreasuryBudgets.RunKeepsBudgets | layer1-talanton/governance/treasury.cpp:79-209 | in every run each period's count is the log's spends in it since it was created, and never exceeds a limit set |
| TreasuryReserve.SpendLeavesReserve | layer1-talanton/governance/treasury.cpp:62-104 | an accepted spend leaves the emergency track its share of what remains while both products fit 64 bits |
| TreasuryReserve.ReserveRuleExactly | layer1-talanton/governance/treasury.cpp:62-104 | for all treasuries and spends: the spend goes through if and only if it is under a proposal, of some money, from another track than the emergency one, which holds it; the first budget period that covers its height leaves room for it; and no reserve is asked for, or something remains and the emergency product exceeds the one asked for by at least 2^64 for each time it wraps more often |
| TreasurySigners.ExecutedByGuardiansExactly | layer1-talanton/governance/treasury.cpp:19-168 | in every run: the signers of an executed spend who are guardians still are those whose last change in the run is not a removal, so that they are as many as required if and only if the signers exceed the requirement by at least the number of the others |
| TreasuryClass.Treasury.Spend | layer1-talanton/governance/treasury.cpp:79-104 | all checks, then debit, charge the first active period and log |
| TreasuryClass.Treasury.ExecuteMultiSigSpend | layer1-talanton/governance/treasury.cpp:151-168 | executes as the model does, once, with enough signers and balance; over runs that is `TreasuryHistory.ExecutedExactly` |
| TreasuryClass.Treasury.CreateGrant | layer1-talanton/governance/treasury.cpp:224-265 | adds up the milestones and reserves the sum |
| TreasuryClass.Treasury.RevokeGrant | layer1-talanton/governance/treasury.cpp:290-311 | refunds the unreleased milestones, once |
| TreasuryClass.Treasury.ReleaseMilestone | layer1-talanton/governance/treasury.cpp:267-288 | releases one milestone, once |
| VotingRuns.TurnoutWithinSnapshot | layer1-talanton/governance/voting.cpp:102-219 | in every run, for a proposal with a snapshot: nobody voted twice, the recorded powers are at most what the entries hold, through the anti-whale transform, and while those sum to 64 bits the four tallies are the sums of the recorded powers and together at most the snapshot's total |
| VotingRuns.TurnoutBoundExactly | layer1-talanton/governance/snapshot.cpp:15-24 | in every run, also where a snapshot's total has wrapped: the tallies are together at most the total if and only if the power not used is at least 2^64 for every time the total has wrapped and the tallies have not |
| VotingRuns.RunRight | layer1-talanton/governance/voting.cpp:102-219 | in every run every tally is the 64-bit sum of the recorded powers for its choice, and no voter appears twice |
| VotingHistory.VotesAreBallots | layer1-talanton/governance/voting.cpp:102-219 | in every run the votes on a proposal are, in order, the fit ballots: signed by the voter over the 49 bytes of proposal, key, choice and claimed power, cast between its first and last block, approved by the council where that is asked for, of a voter with power in the snapshot if there is one; and each weighs that power or the claim, its floor square root where voting is quadratic, and no more than the cap |
| VotingHistory.FirstFitExactly | layer1-talanton/governance/voting.cpp:102-219 | an operation is among them if and only if it is a fit ballot and no earlier fit one is by the same voter |
| VotingStatus.StatusFromHistory | layer1-talanton/governance/voting.cpp:221-422 | in every run a proposal is pending until a vote is recorded and active until a tally after its last block; from then on it is rejected or passed as its tallies say, and executed if and only if an execution its handler agreed to came at least a thousand blocks after the last tally, with no tally since |
| VotingStatus.TermsFromHistory | layer1-talanton/governance/voting.cpp:47-92 | in every run a proposal is judged by the quorum and veto share in force and by the threshold of its kind |
| VotingRuns.PowerWithinSnapshot | layer1-talanton/governance/snapshot.cpp:30-40 | distinct voters within their first entries together weigh at most all entries |
| VotingRuns.VerdictSettled | layer1-talanton/governance/voting.cpp:221-304 | in every run with non-decreasing height, once a tally has succeeded every later tally succeeds and gives the same status: passing and rejecting never switch |
| VotingRuns.VerdictStays | layer1-talanton/governance/voting.cpp:114-136 | from a decided proposal on, no operation changes its ballot, and its status stays the verdict, carried out or not |
| VotingRuns.RetallyReopensExecuted | layer1-talanton/governance/voting.cpp:221-304 | a repeated tally changes the status if and only if the proposal was executed, and then makes it passed again |
| VotingVerdict.PassesExactly | layer1-talanton/governance/voting.cpp:233-301 | for all tallies: the verdict with its wrapping sums, its veto comparison that always passes once saturated, and its percentage of whole hundredths |
| VotingVerdict.PassesMeans | layer1-talanton/governance/voting.cpp:233-301 | while the turnout is at most a ten-thousandth of the largest number, a proposal passes if and only if quorum, veto share and approval percentage meet their thresholds |
| VotingVerdict.ErrsTowardsPassing | layer1-talanton/governance/voting.cpp:254-296 | while the turnout fits 64 bits whatever should pass does, and a proposal that passes should have passed unless the veto comparison saturated over the limit or the percentage was rounded over the threshold |
| VotingVerdict.RetallyPostpones | layer1-talanton/governance/voting.cpp:296-298 | tallied again after some blocks, a passed proposal becomes executable that many blocks later |
| VotingVerdict.PostponedForever | layer1-talanton/governance/voting.cpp:221-304 | over any number of rounds of waiting and tallying again, a passed proposal is never executable within the delay that follows |
| VotingClass.VotingSystem.CastVote | layer1-talanton/governance/voting.cpp:102-219 | the checks of the model in order, then snapshot power, transform, record and tally; over runs that is `VotingHistory.VotesAreBallots` |
| VotingClass.VotingSystem.TallyVotes | layer1-talanton/governance/voting.cpp:221-304 | the verdict and the new status |
| VotingClass.VotingSystem.CreateSnapshot | layer1-talanton/governance/snapshot.cpp:6-28 | the loop keeps the entries with power and their 64-bit total |
| VotingClass.VotingSystem.GetSnapshotPower | layer1-talanton/governance/snapshot.cpp:30-40 | the scan finds the first entry's power, zero if there is none |
| AntiWhale.Isqrt | layer1-talanton/governance/antiwhale.cpp:10-19 | the Newton loop is the floor square root for every 64-bit number but the largest, where its second step divides by zero |
| AntiWhale.EffectiveTamesPower | layer1-talanton/governance/antiwhale.cpp:21-36 | the transform never adds power and keeps the order of voters |

## Left out

- TrieMap.RemoveThenLookup: the code's own collapse is covered where it meets an extension; `TrieDelete.DeleteExactly` settles all other cases.
- TrieStore.RunRepresents: keys have one width, as in the world state; `TrieStore.MixedLengthsLoseKey` shows why. After a deletion that breaks the shape but not the answers (`TrieStore.FirstBreakAnswersExactly`) the run is not followed further: what may come of it is `TrieStore.ValuelessSurvivorFaults`.
- TrieBinding.RootBindsContents: paths under 256 digits, which the length byte needs (`TrieBinding.LongPathsUnbound`).
- WorldStateModel.ReachableRootIsFresh: addresses and words are the numbers their bytes spell; restoring takes any snapshot made earlier in the run.
- StateRoot.StateRootBinds: code counts by its hash, which is what the root holds; storage under an address without an account is in no root.
- TreasuryReserve.SpendLeavesReserve: products past 64 bits, which `TreasuryReserve.ReserveRuleExactly` settles.
- AmmShares.RoundTripOverpaidExactly: credits and products past 64 bits, for which `AmmShares.RoundTripPaysMoreExactly` speaks.
- OrderBooks.OrderBook.MatchOrders: trade ids, time stamps and the mirror map of orders by id are not modelled; cancellation only touches that mirror, and market orders are copies, so neither is.
- AmmShares.ShareValueNeverFalls: fair runs; `Amm.SwapKeepsProduct`, `AmmShares.DepositDilutesExactly` and `AmmShares.RedemptionWrapsExactly` say what the actions left out do. Floating-point prices are not modelled.
- Amm.SplittingNeverPays: inputs that do not overflow; `Amm.SplittingPaysExactly` settles the others while the input reserve does not wrap.
- Amm.NoProfitFromSwaps: swaps that take no reserve past 64 bits; `Amm.SwapKeepsProduct` covers all single swaps.
- VmAccounting.EveryRunAccounted: gas limits below 0xE000000000000000, or programs of fewer than 2^48 bytes, so that one more charge fits 64 bits. An access outside the memory is undefined in C++ and ends the modelled run; `VmOutside.RunLeavesMemoryExactly` says when.
- WordPower.ExpIsPower: where the square for the exponent's highest bit does not fit a byte the product is misplaced, as `WordShift.Mul` says in general; single powers beyond that may come out right by chance.
- VmClass.VM.Execute: logs, calls, jumps and creation are not implemented by the interpreter; the unused table of jump destinations is not built; allocation fails above the vector size limit only.
- VmMemoryLaws.StoreLaw: accesses that end within the longest vector and whose growth can be paid for, as for loads and returns; `VmMemoryLaws.NoRoomLaw` and `VmOutside.RunLeavesMemoryExactly` say what the others do.
- RollupModel.RunSound: runs of fewer than 2^64 - 1 steps, as in `RollupWindow.FinalExactly` and `RollupChain.RunIsStack`, so that batch ids do not wrap; block height moves forward by steps of the run, since the code never sets it.
- RollupModel.GeneratedProof: batches of up to 2^32 transactions, the range of the proof's index; without transactions the code reads past the list, which the model marks as undefined.
- Commitments.QuorumsIntersect: the threshold product fits 64 bits; `Commitments.SaturationHarmlessExactly` says when saturation matters.
- CommitmentCodec.DecodeCommitment: the reason texts, and the fields already overwritten when decoding fails.
- Utf8Memo.ValidateMemo: the bit masks are written as the byte ranges they test.
- BridgeModel.RunBalanced: every chain gives each message a nonce of its own, which is outside this code, as in `BridgeModel.RunAddsUp`; what else each of the two assumes is exactly what it needs (`BridgeModel.RunBalancedExactly`, `BridgeModel.RunAddsUpExactly`).
- TreasuryRuns.RunAddsUp: total deposits and each grant's milestones fit 64 bits; optional vesting schedules of grants are not modelled.
- VotingRuns.TurnoutWithinSnapshot: snapshots are taken at creation of the proposal.
- VotingHistory.VotesAreBallots: a recorded vote keeps its voter, choice and power; that the code also keeps its signature and its height is not modelled.
- VotingClass.VotingSystem.CastVote: snapshot powers are 64-bit numbers; the council's answer is a parameter.
- Plasma exits, challenges and exit finalization; zero-knowledge exits and batch finalization.
- Proposal deposits, delegation and what an executed proposal does to parameters and treasury.
- Vesting, fee routing, base-fee arithmetic, proposer selection, sortition, unit conversion and multi-signature policies.
- The L2-L3 bridge and the OBOLOS proposer, which repeat the L1-L2 bridge and the DRACHMA proposer line for line.
- RPC, HTTP, command line, relayers, metrics, persistence and log texts.
