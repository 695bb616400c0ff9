# A verified model of the cothority ledger

This project models the parts of cothority that decide what the state of a ByzCoin ledger is
and what a client may conclude about it, and proves that the different ways in which the code
computes or stores the same thing agree. It is written for Dafny 4.11; `dafny verify
dfyconfig.toml` verifies all of it.

**The state trie** (`Merkle`, `InclusionProof`, `TrieStore`, `Batch`, `Staging`). The global
state is a Merkle prefix tree in a key/value bucket. The tree operations keep their exact shape, because
the root depends on it: deleting a key never shrinks the tree, so two tries with the same
pairs can have different roots. The bucket always holds exactly the nodes of the tree, a
staging trie stands for the tree that its pending writes would make, and no proof shows under
a root a pair that the trie does not hold, or hides one that it does.

**The execution engine** (`Ledger`, `Effects`, `Hashing`, `Execution`, `Chain`, `Service`,
`Counters`, `Lives`, `Versions`). A contract is an arbitrary deterministic function of the state,
the block information, the instruction, the coins and the transaction hash. `Ledger` says what a
transaction and a block mean, and the loops of the service are proved against it; `Effects` says
the same without the loops: what is refused, what is left behind, in which order instructions
run and who gets which coins; `Hashing` what the hash of an instruction commits to. The nested
staging copies, the flat change list, the check of a follower, the replay from genesis and the
repair of a trie that fell behind all come to the same state, on every schedule of block
notifications, and whatever the cache of results holds a node never leaves the chain. Signer
counters count accepted instructions modulo 2^64. The version numbers of a block's changes are
unique exactly if the lives of its instances fit (`Versions.Fits`), and a node can store the
history of the block exactly then.

**Darcs** (`DarcEval`, `Expression`, `DarcChain`). Evaluating a rule with delegation through
other darcs computes the least solution of the delegation equations, on every finite graph
and, with thresholds, as long as no threshold meets its own path; full verification of an
evolution is the existence of an authorised path to version 0; restricted evolution can only
remove actions.

**Indexes and stores** (`EventLog`, `Storage`, `StateChanges`, `History`, `BEvm`). The event
log's bucket chain, the state change storage with its byte-ordered keys and its eviction, and
the EVM's write buffer are each proved against the simple thing they stand for: a filter over
all events, the entries of a chain from some block on, a map.

**Protocol pieces** (`Pipeline`, `SkipchainProof`, `Roster`, `Deferred`, `Naming`). The
leader's pipeline loses, repeats and reorders nothing; a proof along forward links can be made
and is accepted, and whatever is accepted is the state of a block of the chain; consecutive
quorums overlap in more nodes than may be faulty; a deferred transaction executes at most
once; the list of names is complete.

Hashes are symbolic constructors (`Merkle.Digest`), byte strings that are hashed
(`Ledger.TxHash`), or functions that are assumed not to collide on what is in use: 32-byte
keys (`Collisionless`), the counter keys of the signers (`CountersApart`), the keys of the EVM's
store (`Injective`), the block a proof shows (`NoCollision`). `Instances` shows that these
assumptions, and the one that transactions come to an end (`Terminating`), can be met.
Signatures are arbitrary predicates. Clocks, randomness and everything that comes from the
network are parameters.
Where Go code panics inside the execution of an instruction, the service recovers and reports
an error, and so does the model.

## Where the code does not do what one expects

- Equal contents do not mean equal roots: `Merkle.SameContentsDifferentRoot` gives two
  histories, `Merkle.RootIsCanonicalExactly` says exactly when the root is that of a trie that
  never deleted anything.
- The digest under which the state change cache files a result covers no signatures, and
  contract ID and command of an invocation without a separator (before version 1 no command at
  all): `Ledger.InvokeAlike` says exactly which invocations it takes for the same,
  `Ledger.NoSeparator` gives two. `Service.HitIsRecomputation` says exactly when a cached result
  is what a recomputation gives; `Service.HitWithOtherSignatures` is a hit that it is not. The
  root check of `updateTrieCallback` keeps the node's state right whatever the cache holds.
- A threshold that meets a darc on its own path gives up instead of counting that darc as
  invalid (darc/darc.go:1260-1262). `DarcEval.ThresholdCycleRejected` is a signature set that
  satisfies the rule and is refused.
- The grammar in darc/README.md:64-69 binds `|` tighter than `&`; the parser
  has no precedence and folds from left to right. The model follows the code.
  `Expression.AgreeExactly` says for which expressions this makes no difference.
- A block that removes an instance and creates it again can give two changes of the instance
  the same version number. `append` refuses such a block, on which the node stops
  (byzcoin/service.go:1715-1720). `Versions.BlockKeysExactly` says exactly when it happens: the
  numbers start again at zero after a removal, so at most one new life may begin, and with no
  more changes than the number of the instance's first change in the block.
  `Versions.CreatedTwice` is a block where it happens; by `Versions.RecreatedExactly`, removing
  and creating an instance that was stored before repeats no number short of a wrap-around.
- A node that fell behind walks back to the newest block with the root of its trie. If a block
  after the one of its index has that root too, it starts at the wrong one and gives up;
  `Service.Service.FixInconsistencyIfAny` says exactly when.
- The scans of `cleanBySize` stand still on an entry with version 2^64 - 1, and on no other
  (`Storage.HopMovesOn`).
- `NewProof` makes no progress if the lowest forward link leads beyond the trie
  (`SkipchainProof.StuckExactly`); on a skipchain whose lowest links go to the next block that
  does not happen.
- The list of names would end early at a name that hashes to the zero ID, and does for no other
  reason (`Naming.ListsEveryName`).

## Model

| member | source | states |
|---|---|---|
| `Merkle.GetCorrect` | byzcoin/trie/trie.go:432-463 | looking a key up by the bits of its hash finds the stored value, and nothing exactly if the key is not stored |
| `Merkle.ExtendCorrect` | byzcoin/trie/trie.go:321-377 | splitting a leaf gives a well-placed subtree that holds exactly the two keys |
| `Merkle.SetCorrect` | byzcoin/trie/trie.go:208-300 | storing a pair keeps every node in its place and changes the contents at that key only |
| `Merkle.DelCorrect` | byzcoin/trie/trie.go:489-571 | deleting succeeds exactly for stored keys, removes that key only, and leaves an interior node interior |
| `Merkle.HashInjective` | byzcoin/trie/node.go:19-110 | equal roots mean equal trees |
| `Merkle.SameContentsDifferentRoot` | byzcoin/trie/trie.go:489-571 | after a deletion the same contents can have another root |
| `Merkle.MinimalUnique` | byzcoin/trie/trie.go:208-377 | at one position there is one tree without needless interior nodes per contents |
| `Merkle.SetKeepsMinimal` | byzcoin/trie/trie.go:208-377 | storing pairs never adds a needless interior node |
| `Merkle.RootIsCanonicalExactly` | byzcoin/trie/trie.go:489-571 | a trie has the root of the minimal trie with its contents exactly if it is minimal itself |
| `Merkle.InsertOrderIrrelevant` | byzcoin/trie/trie.go:179-206 | without deletions, equal roots and equal contents are the same, in whatever order the pairs came |
| `InclusionProof.Exists` | byzcoin/trie/proof.go:24-62 | the loop over the interior nodes decides presence, absence or a malformed proof as specified |
| `InclusionProof.FollowsTree` | byzcoin/trie/proof.go:24-62 | a hash chain that starts at a tree's digest ends at the digest of the subtree that decides the key |
| `InclusionProof.Sound` | byzcoin/trie/proof.go:24-62 | no proof under a trie's root shows a pair the trie does not hold, and none denies a key it holds |
| `InclusionProof.Complete` | byzcoin/trie/proof.go:105-152 | the proof made for a key has the root and gives the right answer for every key |
| `TrieStore.Trie.constructor` | byzcoin/trie/trie.go:104-139 | a new trie's bucket holds exactly the nodes of the empty tree |
| `TrieStore.Trie.SetNode` | byzcoin/trie/trie.go:208-300 | in place, the bucket goes from exactly the nodes of a tree to exactly those of the tree with the pair stored; nothing stale stays and nothing else is touched |
| `TrieStore.Trie.ExtendLeaf` | byzcoin/trie/trie.go:321-377 | the nodes written are those below the new interior node, and the digests returned are its children's |
| `TrieStore.Trie.DelNode` | byzcoin/trie/trie.go:489-571 | the same for a deletion; an absent key leaves the bucket as it is |
| `TrieStore.Trie.GetNode` | byzcoin/trie/trie.go:432-463 | following digests through the bucket finds what the tree holds |
| `TrieStore.Trie.Set` | byzcoin/trie/trie.go:157-206 | the trie becomes the tree with the pair stored |
| `TrieStore.Trie.Delete` | byzcoin/trie/trie.go:380-402 | the trie becomes the tree without the key |
| `TrieStore.Trie.Get` | byzcoin/trie/trie.go:405-430 | reads what the tree holds |
| `TrieStore.Trie.Replay` | byzcoin/trie/staging.go:153-210 | a list of writes on the bucket is that list on the tree, in order |
| `Staging.StagingTrie.Clone` | byzcoin/trie/staging.go:47-69 | a clone stands for the same tree and shares nothing that changes |
| `Staging.StagingTrie.Get` | byzcoin/trie/staging.go:77-90 | overlay, deletions and source together read like the tree the writes would make |
| `Staging.StagingTrie.Set` | byzcoin/trie/staging.go:92-109 | the staged tree gains the pair |
| `Staging.StagingTrie.Delete` | byzcoin/trie/staging.go:111-128 | the staged tree loses the key |
| `Staging.StagingTrie.Batch` | byzcoin/trie/staging.go:130-151 | operations apply in order up to the first unknown one, which is an error |
| `Staging.StagingTrie.GetRoot` | byzcoin/trie/staging.go:183-209 | the dry run yields the root that a commit would give and changes nothing |
| `Staging.StagingTrie.Commit` | byzcoin/trie/staging.go:153-180 | the source becomes the staged tree |
| `Staging.StateTrie.VerifiedStoreAll` | byzcoin/statetrie.go:316-346 | succeeds exactly if all operations are known and the root is the expected one; otherwise tree, index and version are as before |
| `Ledger.StoreAllIsBatch` | byzcoin/statetrie.go:97-110 | storing changes one by one is the batch that staging and state tries run |
| `Ledger.ProcessIsRun` | byzcoin/service.go:2303-2447 | the effect of a transaction does not depend on how many steps it is given, once they suffice |
| `Ledger.RunStores` | byzcoin/service.go:2303-2447 | the flat change list of an accepted transaction, stored on its base, gives the state that its instructions built on staging copies |
| `Ledger.BlockStores` | byzcoin/service.go:2201-2282 | so does the flat change list of a block |
| `Ledger.FlagsIgnored` | byzcoin/service.go:2201-2282 | the accepted flags of the input do not influence the result |
| `Ledger.OutKeepsTxs` | byzcoin/service.go:2201-2282 | the output lists the input's transactions, in order |
| `Ledger.Rerun` | byzcoin/service.go:2201-2282 | computing a block again on its own output gives the same flags, changes and state |
| `Ledger.RejectedLeaveNoTrace` | byzcoin/service.go:2201-2282 | without the rejected transactions a block has the same changes and state and accepts everything |
| `Ledger.OutFlag` | byzcoin/service.go:2201-2282 | a transaction's flag says whether it is accepted in the state that the ones before it leave |
| `Ledger.InvokeAlike` | byzcoin/transaction.go:147-165 | invocations that agree in everything else hash alike exactly if contract ID and command, written one after the other, are the same; before version 1 if the contract IDs are |
| `Ledger.NoSeparator` | byzcoin/transaction.go:147-165 | two invocations of different contracts that hash alike |
| `Hashing.SpawnAlike` | byzcoin/transaction.go:147-178 | spawns that agree in everything else hash alike exactly if their arguments are the same, names and values |
| `Hashing.SpawnContract` | byzcoin/transaction.go:147-178 | or, with the same arguments, exactly if their contract IDs are |
| `Hashing.InvokeArguments` | byzcoin/transaction.go:147-178 | the arguments of an invocation are hashed in the same way |
| `Hashing.InvokeCalled` | byzcoin/transaction.go:147-178 | invocations that agree in everything else hash alike exactly if contract ID followed by command are the same, before version 1 the contract IDs |
| `Hashing.DeleteAlike` | byzcoin/transaction.go:147-178 | deletes exactly if their contract IDs are the same, whatever their arguments |
| `Hashing.KindsApart` | byzcoin/transaction.go:147-178 | spawns, invocations and deletes never hash alike, nor do instructions on different instances |
| `Hashing.CountersAlike` | byzcoin/transaction.go:180-193 | instructions that differ in the counters only hash alike exactly if these are the same |
| `Hashing.PublicsAlike` | byzcoin/transaction.go:180-193 | so for the public keys of the signers |
| `Effects.StepFailsExactly` | byzcoin/service.go:2318-2421 | an instruction fails exactly if its contract does, a change names an unknown contract, a signer's counter is unreadable, or a change, in the state that the ones before it lead to, creates what is there, updates or removes what is not, generates what does not decode, or is of no known kind |
| `Effects.StepYields` | byzcoin/service.go:2318-2441 | else it leaves the contract's changes in their order followed by one raised counter for each signer, stores exactly these, and hands on the contract's output coins |
| `Effects.StepGenerates` | byzcoin/service.go:2383-2412 | the generated instructions are the decoded requests in their order, marked, and each spawn has the seed for the number of spawns before it |
| `Effects.ProcessTrace` | byzcoin/service.go:2303-2447 | an accepted transaction is its instructions in order, each followed by the tree of those it generated, each in the state and with the coins that the one before left; changes and state are theirs |
| `Effects.RejectedExactly` | byzcoin/service.go:2303-2447 | a transaction is rejected exactly if that order comes to an instruction that fails |
| `Execution.IncrementSignerCounters` | byzcoin/replayguard.go:27-56 | all counters are read before any is stored; an unreadable one is an error |
| `Execution.ExecuteInstruction` | byzcoin/service.go:2479-2584 | the version loop numbers a contract's changes and hands on its coins as specified in `Ledger`, which `Effects.StepYields` spells out; unknown contract IDs are errors |
| `Execution.CheckChange` | byzcoin/service.go:2350-2421 | one turn of the checking loop as specified in `Ledger`; `Effects.StepFailsExactly` says what that refuses |
| `Execution.CheckChanges` | byzcoin/service.go:2350-2421 | the loop over the changes stores each one before it looks at the next and collects generated instructions in order |
| `Execution.StepInstruction` | byzcoin/service.go:2318-2441 | one turn of the instruction loop: contract changes, then counters, or a failure |
| `Execution.RunInstructions` | byzcoin/service.go:2318-2441 | the loop with generated instructions inserted behind the current one is the run of the specification |
| `Execution.ProcessOneTx` | byzcoin/service.go:2303-2447 | a transaction is rejected as a whole or yields its changes and state |
| `Execution.CreateStateChanges` | byzcoin/service.go:2201-2282 | the block loop yields the block's flags, changes, state and the root of that state |
| `Chain.VerifiesExactly` | byzcoin/service.go:2087-2123 | a follower on the same base accepts exactly the header and body that an honest leader makes there |
| `Chain.LeaderBlockVerifies` | byzcoin/service.go:2087-2123 | whatever transactions a block is computed from, header and body made of the result verify on the same base |
| `Chain.VerifiedRootsMatch` | byzcoin/service.go:2087-2123 | in a chain of verified blocks each header root is the root of the fold of the blocks up to it |
| `Chain.RootAdmitsOnlyChain` | byzcoin/service.go:1680-1711 | changes that lead to a block's root lead to the state after that block |
| `Chain.ChainAdmitsBlock` | byzcoin/service.go:1680-1711 | the block's own changes do lead there |
| `Chain.ReplaysIsVerifies` | byzcoin/statereplay.go:130-209 | what a replay checks of a block is what verification checks |
| `Service.HitExactly` | byzcoin/statechange_cache.go:35-53 | the cache hits exactly for the same flags and as many instructions with the same hashed bytes, which the lemmas of `Hashing` read field by field |
| `Service.HitIsRecomputation` | byzcoin/statechange_cache.go:35-65 | a result computed on the same base and block information is what recomputing gives if and only if the transactions are the same, signatures included |
| `Service.HitWithOtherSignatures` | byzcoin/transaction.go:569-585 | a concrete hit that serves the result of a signed transaction for the unsigned one |
| `Service.CheckHeader` | byzcoin/service.go:2087-2123 | the comparisons accept exactly the computed flags, transaction hash, root and changes hash |
| `Service.Service.CreateStateChanges` | byzcoin/service.go:2201-2282 | a hit returns the cached result and leaves the cache; a miss computes, and caches unless there are no changes; every entry is what a computation from some base, block information and transactions gives |
| `Service.Service.FitsServes` | byzcoin/service.go:2201-2282 | an entry computed from the same base, block information and transactions serves what a recomputation gives |
| `Service.Service.CreateNewBlock` | byzcoin/service.go:1070-1200 | the leader makes the block of what it was served; if a cache hit fits its base, that is the block of a computation, and it verifies |
| `Service.Service.VerifySkipBlock` | byzcoin/service.go:1997-2123 | accepts exactly the next block that matches what was served, hence exactly the verifying ones if a cache hit comes from the same base, block information and transactions; the entry it leaves does |
| `Service.Service.VerifiedStoreAll` | byzcoin/statetrie.go:316-346 | stores exactly if the expected root is reached, and otherwise changes nothing |
| `Service.Service.UpdateTrieCallback` | byzcoin/service.go:1617-1711 | after any notification the trie is the fold of the blocks up to the index, which moves by at most one; it moves to the next block unless a cache hit comes from another base, block information or transactions |
| `Service.Service.Adopt` | byzcoin/service.go:1617-1711 | a follower that verified the next block of the chain moves to it when it is stored |
| `Service.Service.Notify` | byzcoin/service.go:1617-1711 | the same over every schedule with duplicates, gaps and any order; the index never goes back; told of all further blocks of a verified chain in their order, with different digests and no cached result of a block to come, the node comes to the end |
| `Service.Service.StartsAhead` | byzcoin/service.go:1617-1711 | a new node meets that condition on the cache |
| `Service.Service.ReplayBlock` | byzcoin/statereplay.go:145-190 | the transaction loop passes exactly if the block reproduces its flags, and then yields its changes and state |
| `Service.Service.ReplayState` | byzcoin/statereplay.go:100-209 | for any database: an error exactly for a missing block or one that does not replay, else the trie of the blocks with a payload |
| `Service.ReplayedIsFold` | byzcoin/statereplay.go:100-209 | on the blocks of a chain that is an error exactly if some block does not replay, and else the fold of them |
| `Service.VerifiedChainReplays` | byzcoin/statereplay.go:100-209 | a chain of verified blocks replays without an error |
| `Service.Service.RepairStateTrie` | byzcoin/service.go:2966-3014 | terminates; success means a walk along stored level-0 links from a block with the old root to one without a further link, whose root and index the trie now has, one block executed per link; it succeeds from the block of the trie's index if all blocks of a verified chain are stored and no cached result is of a block to come |
| `Service.Service.FixInconsistencyIfAny` | byzcoin/service.go:2924-2964 | the walk back terminates; success means that the latest block has the root, or that the walk back led to one with the root and the repair from there arrived; on such a chain it succeeds if and only if the latest block has the trie's root or no block after the trie's index has it |
| `Service.RepairedIsChain` | byzcoin/service.go:2924-3014 | on the blocks of a chain with matching roots, the walks of a successful repair end at the latest block, and the trie is the fold of the whole chain |
| `Counters.VerifySignerCounters` | byzcoin/replayguard.go:60-81 | accepts exactly if there are as many counters as identities, all identities are primary and each counter is one above the stored one |
| `Counters.CountersRaised` | byzcoin/replayguard.go:27-56 | storing the counter changes raises each signer's counter by one modulo 2^64, once for a repeated signer, and no other, for signers whose counter keys are apart |
| `Counters.StepRaises` | byzcoin/service.go:2318-2441 | so does every accepted instruction |
| `Counters.ChainReaches` | byzcoin/service.go:2201-2282 | the state of a chain is reached by a history of accepted instructions which, without the generated ones, are those of the blocks' accepted transactions, in order |
| `Counters.CounterCounts` | byzcoin/replayguard.go:27-56 | over every history of the engine a counter moves by the number of accepted instructions of the signer, modulo 2^64 |
| `Counters.ExpectedAgainExactly` | byzcoin/replayguard.go:60-81 | the same counter is expected again exactly after a multiple of 2^64 accepted instructions of the signer |
| `Counters.NoReplayBeforeWrap` | byzcoin/transaction.go:409-425 | no instruction that presents a counter which was checked and used is accepted before that signer's 2^64 further accepted instructions |
| `Lives.RuledUnique` | byzcoin/service.go:2555-2581 | numbers that run on within a life and start over after a removal are all different exactly if at most one life begins after a removal, with no more changes than the first number |
| `Versions.NumberRunsOn` | byzcoin/service.go:2555-2581 | the version loop numbers an instance's changes on from the stored version, or from zero |
| `Versions.CounterMarks` | byzcoin/replayguard.go:27-56 | distinct signers get one counter change each, numbered with the new counter |
| `Versions.StepObeys` | byzcoin/service.go:2318-2441 | every instruction numbers each instance on from what is stored and stores its last number, or nothing after a removal |
| `Versions.BlockKeysExactly` | byzcoin/service.go:2555-2581 | with distinct signers, no generated instruction and no wrap-around, no two changes of a block have the same instance and version if and only if the lives of every instance fit |
| `Versions.CreatedTwice` | byzcoin/service.go:2201-2282 | a block that is executed as one accepted transaction and repeats a key: it creates, removes and creates an instance |
| `Versions.RecreatedExactly` | byzcoin/service.go:2201-2282 | removing a stored instance and creating it again repeats a key exactly if the number of the removal wraps around |
| `DarcEval.EvalExprDarc` | darc/darc.go:655-747 | the recursive evaluation terminates on every graph, by the darcs not yet on the path, and decides the path-cut relation |
| `DarcEval.EvalThreshold` | darc/darc.go:1194-1305 | the loop with its two maps decides the threshold |
| `DarcEval.IdentityExactly` | darc/darc.go:655-747 | a signer holds exactly if it is among the identities, a darc if it is and darcs are accepted or its _sign rule holds |
| `DarcEval.ThresholdExactly` | darc/darc.go:1194-1305 | n/d is met exactly if d times the distinct entries that hold is at least n times the distinct entries, or n if there are none, and no entry to look up is on the path |
| `DarcEval.SignerThreshold` | darc/darc.go:1194-1305 | between signers that counts the entries among the identities |
| `DarcEval.TrivialThresholds` | darc/darc.go:1197-1200 | 0/d always passes, n/0 never does unless n is 0 |
| `DarcEval.AllNeeded` | darc/darc.go:1194-1305 | n/n needs every entry, and at least one |
| `DarcEval.OneNeeded` | darc/darc.go:1194-1305 | one out of the number of distinct entries needs one of them |
| `DarcEval.LeastSolution` | darc/darc.go:655-747 | the stages reach a set of darcs that solves the delegation equations and lies in every closed set |
| `DarcEval.AcceptsSound` | darc/darc.go:655-747 | whatever is accepted, thresholds included, holds in the least solution |
| `DarcEval.PlainIsSolution` | darc/darc.go:655-747 | for AND/OR expressions over any delegation graph, accepted is exactly true in the least solution |
| `DarcEval.UncutIsSolution` | darc/darc.go:1194-1305 | the same with thresholds, unless one of them meets its own path |
| `DarcEval.StratifiedIsSolution` | darc/darc.go:1194-1305 | hence the same if no delegation cycle passes through a threshold |
| `DarcEval.LenientIsSolution` | darc/darc.go:1260-1262 | counting the entry on the path as invalid would give the least solution for all expressions |
| `DarcEval.ThresholdCycleRejected` | darc/darc.go:1260-1262 | a rule that holds in the least solution and is refused |
| `DarcEval.AcceptsMonotone` | darc/darc.go:655-747 | more identities never turn an acceptance into a refusal |
| `Expression.SumNode` | darc/expression/expression.go:177-195 | a flat expression is folded from left to right |
| `Expression.TreeIsFold` | darc/expression/expression.go:177-195 | evaluating the left-leaning tree is folding the values of the operands |
| `Expression.AgreeExactly` | darc/README.md:64-69 | code and documented grammar agree for all operands if and only if no AND stands before an OR |
| `DarcChain.VerifyOneEvolution` | darc/darc.go:572-606 | accepts exactly a sane successor that the previous darc's _evolve rule authorises |
| `DarcChain.AuthorisedExactly` | darc/darc.go:572-606 | authorised means that the first _evolve rule of the previous darc holds for the signers, and that each signature is on the new darc's ID and base ID |
| `DarcChain.VerifyFull` | darc/darc.go:418-440 | full verification terminates with the version and decides `Evolved` |
| `DarcChain.EvolvedHasPath` | darc/darc.go:609-615 | an accepted darc has a path of exactly its version's length down to the base darc, each step signed, stored, the next version of the one before and authorised by its _evolve rule |
| `DarcChain.PathIsEvolved` | darc/darc.go:609-615 | and every darc with such a path is accepted |
| `DarcChain.LatestDarc` | darc/darc.go:515-545 | of the darcs of a base ID the first one with the highest version is found, and none exactly if there is none |
| `DarcChain.ExecuteKeeps` | byzcoin/contract_darc.go:114-177 | every accepted command leaves each darc instance under its own base ID and control |
| `DarcChain.SpawnExactly` | byzcoin/contract_darc.go:57-82 | a darc is spawned exactly if it is of version 0, has no rule to spawn insecure darcs and is new |
| `DarcChain.EvolveExactly` | byzcoin/contract_darc.go:116-151 | an evolution is accepted exactly if the darc is the next version of the one in control (base ID, version, previous ID), keeps the evolve_unrestricted rule and has no new action, the last except for the genesis darc |
| `DarcChain.EvolveUnrestrictedExactly` | byzcoin/contract_darc.go:152-174 | an unrestricted one exactly if it is the next version |
| `DarcChain.ExecuteStores` | byzcoin/contract_darc.go:57-174 | an accepted command stores exactly its darc and changes nothing else |
| `DarcChain.RunStores` | byzcoin/contract_darc.go:114-174 | after any run an instance holds the darc of the last command about it |
| `DarcChain.RunKeeps` | byzcoin/contract_darc.go:114-189 | over every run the version counts the evolutions; without unrestricted ones no action is gained and the evolve_unrestricted rule stays |
| `EventLog.EventLog.Log` | eventlog/service.go:172-291 | an event is accepted exactly if it lies within the time window and its own identifier, that of a head bucket if a new one is due, and that of the catch-all bucket before the first one are free; it is then added to the index; the chain keeps strictly decreasing starts, every event in exactly one bucket, the one of its period |
| `EventLog.EventLog.FindBucket` | eventlog/service.go:202-245 | finds the newest bucket that starts by then |
| `EventLog.EventLog.PickBuckets` | eventlog/service.go:76-104 | the backward walk loses no matching event |
| `EventLog.EventLog.CollectEvents` | eventlog/service.go:106-144 | the filter loop yields the matches in bucket order, or exactly the allowed number of them, marked as truncated |
| `EventLog.EventLog.Search` | eventlog/service.go:54-144 | for a range that does not start in the future: every match exactly once, or a prefix of them when truncated |
| `Storage.KeyOrder` | byzcoin/struct.go:313-334 | the byte order of keys is the order by instance, version and block, and equal keys are equal in all three |
| `Storage.KeyOfLastOrder` | byzcoin/struct.go:337-341 | the last key of an instance separates it from the next one, for versions below 2^64 - 1 |
| `Storage.HopMovesOn` | byzcoin/struct.go:337-341 | and exactly for those |
| `Storage.HopIsSeek` | byzcoin/struct.go:205-232 | seeking that key from an entry passes exactly the rest of its instance |
| `Storage.OldestIndex` | byzcoin/struct.go:190-210 | the first scan, seeking from entry to entry, finds the oldest block among the first entries of the instances |
| `Storage.OldestOfAll` | byzcoin/struct.go:190-210 | which is the oldest of all if versions order blocks |
| `Storage.RemoveOldest` | byzcoin/struct.go:212-233 | the deleting scan, deleting or seeking on, leaves what cleaning specifies and frees the bytes of what it deletes |
| `Storage.CleanIsFrom` | byzcoin/struct.go:212-233 | and deletes exactly the oldest block if versions order blocks |
| `Storage.CleanShrinks` | byzcoin/struct.go:212-233 | it always deletes something |
| `Storage.GetAll` | byzcoin/struct.go:406-436 | the entries of an instance, in the order of the bucket |
| `Storage.InstanceByVersion` | byzcoin/struct.go:406-436 | which are all of them and no other, sorted by version |
| `Storage.GetLast` | byzcoin/struct.go:518-550 | an entry of the highest version, and none exactly if the instance has none |
| `StateChanges.PassLookup` | byzcoin/struct.go:183-246 | a pass cleans each chain on its own and deletes empty buckets |
| `StateChanges.Passes` | byzcoin/struct.go:182-250 | the passes terminate; the result is that of the least number of passes over the storage that reaches the threshold, and leaves each chain its entries from some block on |
| `StateChanges.Sum` | byzcoin/struct.go:130-158 | the size is the sum of the value lengths |
| `StateChanges.StateChangeStorage.constructor` | byzcoin/struct.go:94-158 | a node that starts on stored buckets knows their size |
| `StateChanges.StateChangeStorage.CleanBySize` | byzcoin/struct.go:164-258 | nothing below the limit; else the least number of passes that brings the size to four fifths of it, and every chain a suffix of its blocks |
| `StateChanges.EvictedExactly` | byzcoin/struct.go:164-258 | an eviction leaves at most four fifths of the maximal size, and with fewer passes it would have been more |
| `StateChanges.StoreChanges` | byzcoin/struct.go:355-395 | succeeds exactly if all IDs have 32 bytes and all keys are new, and then the bucket holds the old entries and the new ones |
| `StateChanges.StateChangeStorage.Append` | byzcoin/struct.go:345-400 | all changes of a block or none are stored after the eviction, and other chains are untouched |
| `StateChanges.StateChangeStorage.History` | byzcoin/struct.go:406-436 | the history of an instance of a chain, or an error for an ID of another length |
| `History.StoreHistory` | byzcoin/service.go:1715-1720 | appending the changes of a newly executed block succeeds if and only if the lives of every instance fit, and then all of them are in the storage |
| `BEvm.PassAt` | bevm/database_byz.go:239-285 | the existence checks see only an instance's own changes, in their order |
| `BEvm.SameForEach` | bevm/database_byz.go:239-285 | lists with the same changes per instance do the same and pass the same checks |
| `BEvm.SortCorrect` | bevm/database_byz.go:257-261 | sorting orders by key and keeps the order of changes to one key |
| `BEvm.SortedUnique` | bevm/database_byz.go:257-261 | which determines the result |
| `BEvm.DumpDeterministic` | bevm/database_byz.go:239-264 | the dump is the same for any reordering of changes to different keys |
| `BEvm.KeyListToMap` | bevm/database_byz.go:202-209 | the keys of the list, no more and no fewer |
| `BEvm.KeyMapToList` | bevm/database_byz.go:211-222 | the keys of the map, strictly increasing |
| `BEvm.KeyListUnique` | bevm/database_byz.go:211-222 | whatever order the map yields them in |
| `BEvm.CheckUnique` | bevm/database_byz.go:246-255 | passes exactly if no two changes of a key have different values |
| `BEvm.WriteAgrees` | bevm/database_byz.go:298-362 | one buffered write does to the value instances what it does to the map, and passes the existence checks unless it deletes a key that is not there |
| `BEvm.ServerByzDatabase.constructor` | bevm/database_byz.go:225-234 | an empty buffer over a trie whose value instances are the pairs of a map |
| `BEvm.ServerByzDatabase.Put` | bevm/database_byz.go:298-314 | the buffered changes still turn the trie into the map, with the pair, and pass the existence checks exactly if every deleted key was there |
| `BEvm.ServerByzDatabase.Delete` | bevm/database_byz.go:351-362 | the same without the key |
| `BEvm.ServerByzDatabase.Dump` | bevm/database_byz.go:239-285 | fails exactly on differing changes of a key; else the sorted changes turn the trie into exactly the map of all writes and touch nothing else, they pass the existence checks exactly if every deleted key was there, and the key list is the map's sorted key set |
| `BEvm.MemBatch.WriteTo` | bevm/database.go:73-93 | the database ends up as if the writes had been direct, in order |
| `Pipeline.KeptFarApart` | byzcoin/tx_pipeline.go:92-107 | equal hashes are never kept within the window |
| `Pipeline.DropsExactly` | byzcoin/tx_pipeline.go:92-107 | a transaction is dropped exactly if one of the last remembered ones that were kept has its hash |
| `Pipeline.Remember` | byzcoin/tx_pipeline.go:92-107 | the remembered hashes are the window over what was kept, and a transaction is known exactly if its hash is in it |
| `Pipeline.AddTransactions` | byzcoin/tx_pipeline.go:322-347 | adds transactions from the front of the queue while the block fits, gives each its flag, and returns the others |
| `Pipeline.FillExtends` | byzcoin/tx_pipeline.go:322-347 | filling executes a prefix of the queue with the given processor and keeps the rest, the block fits, and flags, changes and state continue the sequential run |
| `Pipeline.FillsUp` | byzcoin/tx_pipeline.go:322-347 | filling ends with an empty queue or a transaction that does not fit |
| `Pipeline.SequentialIsBlock` | byzcoin/tx_pipeline.go:322-347 | with one block information throughout, that run is the block which a follower computes |
| `Pipeline.OversizeBlocksQueue` | byzcoin/tx_pipeline.go:322-347 | a transaction that fits in no block stays at the front, with everything behind it |
| `Pipeline.TxPipeline.ReceiveTx` | byzcoin/tx_pipeline.go:92-141 | a known transaction changes nothing; any other is queued and the waiting block filled with the processor of this turn, which keeps the invariant below |
| `Pipeline.TxPipeline.Propose` | byzcoin/tx_pipeline.go:110-141 | the waiting block is taken back, filled from the queue with the given processor, and sent; the slot is free when it is sent |
| `Pipeline.TxPipeline.TakeBlock` | byzcoin/tx_pipeline.go:149-177 | taking a block moves it to the proposed ones and loses nothing |
| `Pipeline.TxPipeline.Run` | byzcoin/tx_pipeline.go:69-141 | after every interleaving: proposed blocks, waiting block and queue are the kept input in order, every block fits, and each transaction was executed with the processor of the turn that took it; if that one stays the same, flags, changes and state are those of the block of these transactions |
| `SkipchainProof.ChooseLink` | byzcoin/proof.go:40-63 | the inner loop decides as specified, from the highest link down |
| `SkipchainProof.HighestTaken` | byzcoin/proof.go:40-63 | every higher link than the one taken is missing or leads beyond the trie |
| `SkipchainProof.StuckExactly` | byzcoin/proof.go:40-63 | exactly when a turn makes no progress |
| `SkipchainProof.LevelZeroNeverStuck` | byzcoin/proof.go:40-63 | never, if lowest links go to the next block |
| `SkipchainProof.NewProof` | byzcoin/proof.go:21-70 | terminates and assembles the proof along the chosen links, or reports why not |
| `SkipchainProof.NewProofVerifies` | byzcoin/proof.go:21-70 | a proof made on a well-formed skipchain ends at the block of the trie, and is accepted exactly if that block has the trie's root, both with the roster that the proof brings along and with that of the trusted block |
| `SkipchainProof.WalkArrives` | byzcoin/proof.go:34-66 | with the blocks in between stored, the trie's block is reached whatever higher targets are missing |
| `SkipchainProof.Verify` | byzcoin/proof.go:122-158 | each outcome exactly as specified |
| `SkipchainProof.VerifyFromBlock` | byzcoin/proof.go:101-113 | the same with the trusted block's roster in place of the first link's |
| `SkipchainProof.VerifySound` | byzcoin/proof.go:101-173 | if rosters sign only the hashes of links to blocks of the chain that continue them, every accepted proof whose block does not collide with one of the chain ends at such a block, at least as many blocks later as it has links, and shows its root |
| `SkipchainProof.StateSound` | byzcoin/proof.go:101-173 | so the client reads what the state of that block holds, or is rightly told that it holds nothing |
| `SkipchainProof.StateComplete` | byzcoin/proof.go:21-70 | and for every key such a proof is made, accepted and answers right |
| `Roster.CheckNewRoster` | byzcoin/struct.go:718-738 | accepts exactly if the leader was in the roster and at most one node joined or left, counted with multiplicity |
| `Roster.AcceptedExactly` | byzcoin/struct.go:718-738 | accepted means that the leader was there before and that the nodes are the same but for one that joined or one that left |
| `Roster.RotationAccepted` | byzcoin/viewchange.go:506-512 | every rotation keeps the cyclic order from the requested node on and is accepted |
| `Roster.OneContainsTheOther` | byzcoin/struct.go:718-738 | of two consecutive rosters one contains the other |
| `Roster.QuorumsOverlap` | authprox/service.go:369-375 | a quorum of a roster and one of the next share more nodes than may be faulty in either |
| `Deferred.SpawnData` | byzcoin/contract_deferred.go:97-152 | a new instance may execute once, has the hash of each instruction, and expires at the given block or 50 blocks on |
| `Deferred.Contract.CheckInvoke` | byzcoin/contract_deferred.go:326-385 | passes exactly if an execution is left, the block is not behind the expiry, and a proof is new and verifies |
| `Deferred.RunProposed` | byzcoin/contract_deferred.go:224-291 | the instruction loop yields the changes of all instructions or an error, as specified; `ExecutionExactly` says which |
| `Deferred.Contract.Invoke` | byzcoin/contract_deferred.go:155-308 | answers as specified; an error leaves the data as it was |
| `Deferred.ExecutionExactly` | byzcoin/contract_deferred.go:224-305 | an execution succeeds exactly if one is left, it is not too late, the instance is stored and every instruction goes through on top of those before it; it emits all their changes, in order, and the update of the instance |
| `Deferred.ExecutionFailsExactly` | byzcoin/contract_deferred.go:224-305 | it fails exactly if one of these does not hold: some instruction fails or yields an unknown action on top of those before it |
| `Deferred.EmittedIsReplica` | byzcoin/contract_deferred.go:224-305 | the emitted changes, stored in order, are the state with all instructions executed and the deferred instance updated |
| `Deferred.AddProofExactly` | byzcoin/contract_deferred.go:180-223 | a proof is added exactly if the instance is open and stored, the arguments are there, the instruction exists, the identity is new and its signature on the stored hash valid; nothing else changes |
| `Deferred.ExecutedOnce` | byzcoin/contract_deferred.go:326-344 | over every run, after a successful execution no call succeeds |
| `Deferred.NothingAfterExpiry` | byzcoin/contract_deferred.go:338-344 | nor does any call behind the expiry |
| `Deferred.ProofsVerify` | byzcoin/contract_deferred.go:180-223 | over every run, added signers are distinct, also from those proposed, parallel to their signatures, and verify on the stored hash; nothing else of an instruction changes |
| `Deferred.SpawnedRun` | byzcoin/contract_deferred.go:97-308 | from spawning on, whatever is called, the collected signatures are on the instructions as they were proposed, the expiry stays, and at most one execution is left |
| `Naming.KeysApart` | byzcoin/contract_name.go:199-208 | under darc IDs of one length, and if the digest does not collide on the two, keys are equal exactly for equal names |
| `Naming.ResolveExactly` | byzcoin/service.go:886-916 | after every run a name resolves exactly if it was added and not removed later, to the instance of the first add |
| `Naming.AddThenRemove` | byzcoin/contract_name.go:189-299 | after any run, adding a new name makes it resolve to its instance, and removing it makes it not resolve |
| `Naming.RemovedForever` | byzcoin/contract_name.go:209-222 | a removed name never resolves again |
| `Naming.ListsEveryName` | byzcoin/contract_name.go:189-299 | after every run the list from the latest entry visits every added name once, latest first, and ends at the zero ID, if and only if no added name hashes to that ID |
| `Naming.AddedExactly` | byzcoin/contract_name.go:189-299 | and a key is among them exactly if some command added it |
| `Instances.ReplayRefused` | byzcoin/transaction.go:409-425 | a first instruction that is expected, accepted, and not expected again |
| `Instances.CreatedTwiceIsPlain` | byzcoin/service.go:2201-2282 | from the empty state, a block that meets the conditions of `Versions.BlockKeysExactly` and repeats a key |

## Left out

- Networking, catching up over the network, timers, goroutines and locks: pipeline, notifications and storage are steps that happen one at a time.
- SHA-256, BLS, Schnorr and the other primitives, and protobuf encoding: hashes are symbolic or do not collide on what is in use, signatures are predicates, encodings are functions.
- The timeout of `createStateChanges`; its callers in the modelled parts give none.
- The version upgrade branch of the pipeline, and what it does after it was stopped.
- The checks of `verifySkipBlock` that do not concern the state: roster, timestamp, view change and block size.
- The config and darc caches of the state trie, and the extraction of the trie nonce from the genesis block.
- `getByVersion`, `getByBlock` and `cleanByBlock` of the state change storage; the last one does nothing unless a maximal number of blocks is set.
- The rounding of 0.8 times the maximal size in floating point: the threshold is four fifths of it, rounded down.
- The cursor of the database: after a deletion it stands on the next entry.
- Overflow of Go integers in the products of a threshold and in sizes.
- The text parser of darc expressions; evaluation starts from the operands and operators it finds.
- Instance IDs that are not 32 bytes long, except where the code checks the length.
- Rosters in forward links are identified by their ID, which is what the hash of a link covers.
- The EVM; `MemDatabase` is the map that the write buffer is compared with.
- Who may spawn, invoke and delete: access rules are part of the contract functions, except for darcs.
- `Coin` arithmetic, `sanityCheck` of a configuration, and the view change controller.
- Client APIs, command line tools, and the services built on top of the ledger other than the ones above.
- Service.Service.RepairStateTrie: promises success for blocks with different digests and a cache without a result of a block to come; a cached result for the same hashed transactions can make it fail like the code.
- DarcEval.UncutIsSolution: an exact answer as long as no threshold meets its own path; where one does, acceptance still implies the least solution, and the converse can fail.
- Versions.BlockKeysExactly: for blocks whose instructions have distinct signers, generate no instruction and number nothing past 2^64 - 1; other blocks are outside of it.
- Service.Service.Adopt: for a cache that holds no result of another base for the same transactions; with one, a follower can refuse a correct block, and still does not leave the chain.
