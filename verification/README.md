# Verified model of the node's core

A Dafny model of the parts of this full node that must never go wrong, and proofs of what they promise for all inputs,
all runs and all reachable states. The node keeps a set of unspent coins that follows the chain of most work, checks
scripts in parallel, hands out Merkle proofs, stores its state in compact encodings, remembers peers in an address
table and talks to them over byte streams. `dafny verify dfyconfig.toml` checks everything.

**The ledger and chain selection** (`Transactions`, `Coins`, `Ledger`, `BlockRules`, `BlockMeaning`, `CleanUndo`,
`BlockTree`, `CoinsView`, `Connecting`, `ChainState`, `Subsidy`, `Supply`, `NodeFacts`; shared definitions in
`Basics`). The functional side says what connecting a block does to a map of coins and when it is allowed;
`BlockMeaning` says the same of every transaction on the coins before it, without the running state and in plain
numbers. Connecting and disconnecting undo each other in both directions. The imperative side is the node's own code
over a stack of write-back caches, proved against it. A fully spent entry and an absent one count as the same, because
disconnecting leaves the former behind. The invariant of `ChainState` says that the coins seen through the cache stack
are those of genesis..tip connected in order, that each stored undo record is a function of its block's ancestors,
that every `pnext` leads to a child on a valid branch, and that `setBlockIndexValid` holds exactly the blocks not
marked failed. Every operation keeps it, in any order and whatever the disk does. A second predicate, `InStep`, says
that best pointer and `pnext` mark exactly the active chain; it is kept by every call but one kind of failure, with
the exact condition under which it returns. Path independence, the supply bound and exact fork choice follow.

**The script check queue** (`CheckQueue`, `CheckQueueProtocol`, `ScriptQueue`). Each critical section is a method over
the shared counters; the protocol is a labelled transition system in which any number of workers and one joining
master interleave freely, with spurious wake-ups. Safety holds on every run, no reachable state is stuck, and `Wait`
returns.

**Authenticated trees and encodings** (`Merkle`, `MerkleTrees`, `Streams`, `Amounts`, `CoinsCodec`, `UndoCodec`,
`Base58`, `Compact`, `Difficulty`). Builders and parsers are inverse to each other; the partial Merkle tree is also
sound against arbitrary input; compact targets and the retargeting average keep their error bounds.

**Mempool and block template** (`Mempool`, `BlockTemplate`, `SigOps`, `TemplateMeaning`, `TemplateFacts`). The index of
spends is exactly the inverse of the pooled inputs, removal takes exactly the descendants, a template holds exactly what
a best-first order of the whole pool leaves in it, by the fee rates and priorities of the transactions themselves, and
its selection is replayed by the same rules that connect blocks.

**Peers** (`AddrMan`, `Framing`, `Transport`). The five indexes of the address table agree after every operation, with
any random choices. The byte stream delivers a prefix of the queued messages under any partial reads and writes.

Where the code does not do what one would expect of it, the model follows the code:

- `SetBestChain` flushes its scratch view into the shared cache before it checks disk space and writes the database
  (src/main.cpp:2331-2349). If either fails, the call reports failure with the coins already switched, the best
  pointer and `pnext` not. `SetBestChain` states exactly when this happens; `DiskFullWitness` reaches it over a
  connected genesis.
- The node goes on after that, since a shutdown is only requested (src/init.cpp:78-83, src/init.cpp:134-142). A retry
  finds the coins at the new block, has nothing to connect, and succeeds without writing the missing link
  (`RetryWitness`), so `IsInMainChain` denies the best block its parent, and walks along `pnext` as in
  `FindBlockByHeight` meet the gap. The coins stay right throughout (`Calls`).
- `ConnectBlock` always allows 4000 signature operations (src/main.cpp:2159), while `CreateNewBlock` allows 20000 from
  height 490000 on (src/main.cpp:4817, src/main.h:71-78). `TemplateConnects` gives the exact condition under which a
  template passes its own final test. `HeavyTemplate` makes one that does not, over any coins with an old coinbase
  output to spend, from a well-formed transaction of 562 bytes that the selection takes; `HeavyIsRefused` refuses
  every block made from it. The transaction's output script is nonstandard, so a pool takes it with -testnet only
  (src/main.cpp:689-693).
- The comment on the partial Merkle tree promises at most 2N-1 flag bits for N hashes (src/main.h:1290). `BitBound`
  gives the exact condition, that no selected leaf lies below a node with a single child, and `BitWitness` a tree of
  three transactions that breaks the promise.
- A record with a negative transaction version does not survive the undo file: its low seven bits are written
  (src/main.h:828-834, src/serialize.h:272-287). `InRoundTrip` gives the exact condition.
- A full bucket of tried addresses should lose the entry that connected longest ago among four random ones. The source
  notes the position before it swaps the entry away (src/addrman.cpp:134-147), so another one may go: `ChosenIsOldest`
  gives the exact condition, `NewerEvicted` a bucket and draws.
- The table beside the variable-length integers gives wrong bytes for 16511 and 65535 (src/serialize.h:255-256,
  `VarIntTable`), and the examples beside `CCoins` compress scripts, which the code writes whole (src/main.h:798).
- A failed block never has an active successor, so the recursive call in `InvalidBlockFound` (src/main.cpp:1743-1746)
  is not reached.
- Both hardfork heights are zero (src/main.cpp:87-95), so the older block spacing and the reset of the target after
  the second hardfork never apply.

## Model

| member | source | states |
|---|---|---|
| Transactions.CheckTransaction | src/main.cpp:566-612 | accepts exactly the transactions that meet the declarative rules: nonempty sides, bounded size, every output value and every running total in money range, pairwise distinct inputs, coinbase script length or no null prevout |
| Transactions.CheckBlock | src/main.cpp:2574-2636 | accepts exactly the blocks with one leading coinbase, well-formed transactions and pairwise distinct hashes, given the checks folded into one flag |
| Transactions.DistinctHashes | src/main.cpp:2610-2618 | the set of hashes has the size of the block exactly when no two transactions share a hash |
| CoinsRules.CoinsEntry.Cleanup | src/main.h:1002-1008 | the spent tail goes and nothing else |
| CoinsRules.CoinsEntry.Spend | src/main.h:1139-1154 | refuses exactly the outputs that are missing or spent and then changes nothing; otherwise the entry and the undo record are the specified ones, with metadata exactly when the last output goes |
| CoinsRules.RestoreAfterSpend | src/main.cpp:2019-2049 | applying the undo record of a spend to the spent entry, or to a fully spent stand-in for it, gives back the entry and looks clean |
| CoinsRules.SpentStays | src/main.h:1139-1154 | spending keeps an entry in stored form: last output live, spent outputs null, height at least one |
| CoinsRules.SpentShape | src/main.h:1139-1154 | every other output stays available and the spent one is not |
| Ledger.NoSpendRefused | src/main.cpp:1844-1858 | when all distinct inputs are available beforehand, each is still available when its turn comes, earlier ones of the same transaction already spent |
| Ledger.UpdateCoinsSame | src/main.cpp:1844-1858 | applying a transaction to equivalent coins (fully spent = absent) gives equivalent coins and the same undo data |
| Ledger.UpdateCoinsGood | src/main.cpp:1844-1858 | applying a transaction keeps every stored entry in stored form with height at least one |
| Ledger.RestoreInputsUndoes | src/main.cpp:2019-2049 | undoing the inputs of one transaction in reverse restores the coins and looks clean, several inputs from one entry included |
| Ledger.DisconnectTxUndoes | src/main.cpp:1996-2050 | one transaction taken back from any coins equivalent to the result of applying it gives coins equivalent to the start, cleanly |
| BlockRules.ConnectSame | src/main.cpp:2095-2201 | whether a block connects, its undo data and the resulting unspent coins depend on nothing but the unspent coins before it |
| BlockRules.RunKeeps | src/main.cpp:2152-2192 | running transactions keeps stored form, yields one undo record per transaction after the first, and touches no empty entry that is not one of theirs |
| BlockRules.NoAssertionFires | src/main.cpp:1844-1858 | in every block that connects, for every transaction, each spend that UpdateCoins asserts finds its output |
| BlockRules.DisconnectUndoesConnect | src/main.cpp:1976-2061 | a block that connects is disconnected by the undo data it produced from any equivalent coins, cleanly, back to coins equivalent to the start; in-block spends included |
| BlockMeaning.AffordableIs | src/main.cpp:1893-1932 | the money part of CheckInputs is that every input is unspent, old enough after a coinbase, and every value, running sum and the fee lie in the money range, in numbers |
| BlockMeaning.UpdateCoinsIs | src/main.cpp:1844-1858 | applying a transaction takes exactly its inputs out and puts exactly its outputs in, at this height and with its version; every other output keeps value, script and origin |
| BlockMeaning.ConnectIs | src/main.cpp:2095-2201 | a block connects exactly when it is well-formed, overwrites nothing, every later transaction is affordable on the coins before it, from a fixed height on its scripts pass, the signature operations of all stay within 4000 and the coinbase within subsidy and fees; the coins are then those of all its transactions applied in order |
| BlockMeaning.ScriptsPassInChain | src/main.cpp:2112-2177 | in a block that connects at a checked height, every input's script agrees with the output it spends, strictly from the switch time on |
| CleanUndo.RestoreInputsRedone | src/main.cpp:2018-2046 | when restoring a transaction's inputs looks clean, each output was gone before and is available after, and spending them again gives the coins back |
| CleanUndo.CleanTxRedone | src/main.cpp:1996-2048 | when the outputs stood untouched as well, applying the transaction again gives back the coins it was taken from |
| CleanUndo.CleanBlockRedone | src/main.cpp:1976-2061 | a block's disconnection that looks clean is taken back by connecting its transactions again in order |
| CoinsViews.CoinsDb.BatchWrite | src/txdb.cpp:56-65 | a batch is written whole or not at all, and a reader sees the new entries over the old with fully spent ones gone |
| CoinsViews.ViewCache.GetCoins | src/main.cpp:211-221 | returns what the merged layers hold and changes the contents of no layer |
| CoinsViews.ViewCache.FetchCoins | src/main.cpp:223-233 | finds exactly the entries of the merged contents, caches the right one and leaves the contents of every layer alone |
| CoinsViews.ViewCache.HaveCoins | src/main.cpp:246-248 | true exactly when the merged contents have the entry, without changing them |
| CoinsViews.ViewCache.SetCoins | src/main.cpp:241-244 | overwrites one entry of the merged contents and leaves the layers below alone |
| CoinsViews.ViewCache.GetBestBlock | src/main.cpp:250-254 | the lazily fetched best block of the nearest layer that knows one; later reads agree |
| CoinsViews.ViewCache.BatchWrite | src/main.cpp:261-266 | the merged contents become the old ones overwritten by the flushed cache, and the best block is the given one |
| CoinsViews.ViewCache.Flush | src/main.cpp:268-273 | a reader of the view sees the same unspent coins before and after; below, the base shows exactly what the view showed; a refused database write changes nothing |
| Connecting.HaveAllInputs | src/main.cpp:1860-1879 | true exactly when every input is an unspent output of the view, which stays unchanged |
| Connecting.GetOutputFor | src/main.cpp:1810-1815 | reads the spent output; its assertion holds whenever the inputs are available |
| Connecting.GetValueIn | src/main.cpp:1817-1827 | the sum of the spent outputs |
| Connecting.GetP2SHSigOpCount | src/main.cpp:1829-1842 | the sum of the script counts over the spent outputs |
| Connecting.GetValueOut | src/main.h:679-689 | the sum of the outputs, with no running total out of range for a well-formed transaction |
| Connecting.CheckInputs | src/main.cpp:1893-1970 | together with the deferred script checks it passes exactly when maturity, value ranges, running sums, the fee and all scripts are in order; the view is unchanged |
| Connecting.UpdateCoinsIn | src/main.cpp:1844-1858 | in-place spending and adding over the view equals the specified map update and undo record; neither assertion can fail |
| Connecting.ConnectTx | src/main.cpp:2153-2192 | one round of the loop over transactions accepts exactly what the rules accept and leaves the coins, undo list, fees and signature count they prescribe |
| Connecting.ConnectTxs | src/main.cpp:2152-2192 | the whole loop, with or without script threads: all deferred checks pass and nothing failed exactly when the run of the rules succeeds, with its result |
| Connecting.BIP30Check | src/main.cpp:2127-2133 | passes when no transaction of the block would overwrite unspent outputs, and only then |
| Connecting.ConnectCoins | src/main.cpp:2114-2201 | connects exactly when the rules do, and then the view and the undo data are the ones they give |
| Connecting.ConnectBlock | src/main.cpp:2095-2247 | genesis adds no coins; any other block connects, is refused or meets an I/O error as the rules and the disk say; undo data is written the first time only and equals that of the rules |
| Connecting.DisconnectCoins | src/main.cpp:1992-2061 | the backwards loop over transactions and inputs computes the specified disconnection, or refuses undo data that does not fit |
| Connecting.DisconnectIndexed | src/main.cpp:1976-2061 | with readable stored undo data of the right shape the view ends at the parent with the specified coins; the layers below are untouched |
| BlockTree.AncestorTransitive | src/main.cpp:2255-2279 | an ancestor's ancestor at a height is the block's ancestor at that height |
| BlockTree.WorkGrows | src/main.h:1934-1941 | chain work strictly increases along a branch |
| BlockTree.ReplayGood | src/main.cpp:2249-2350 | the coins of a valid branch, replayed from genesis, are in stored form |
| BlockTree.AncestorsValid | src/main.cpp:1719-1746 | a valid branch has only valid ancestors |
| ChainStates.AfterBlock | src/main.cpp:2210-2222 | undo data that is a function of the ancestor chain takes any view standing at the block back to one standing at its parent, so records written once serve every later reorganisation |
| ChainStates.FindFork | src/main.cpp:2255-2268 | the walk ends at the deepest common ancestor of both branches, its assertions holding |
| ChainStates.Collect | src/main.cpp:2270-2279 | the blocks of a branch above the fork, top first |
| ChainStates.ChainState.DisconnectAll | src/main.cpp:2286-2304 | disconnecting the old branch leaves the scratch view standing at the fork, or an I/O error, which healthy reads of exactly these blocks exclude |
| ChainStates.ChainState.ConnectAll | src/main.cpp:2306-2326 | connecting the new branch leaves the scratch view standing at its top; a refused block is one that breaks the rules; stored undo data is never replaced |
| ChainStates.ChainState.InvalidBlockFound | src/main.cpp:1738-1747 | the block is marked and leaves setBlockIndexValid, which still holds exactly the unmarked blocks; in every reachable state its active successor is absent, so the recursive call is not reached |
| ChainStates.ChainState.Prepare | src/main.cpp:2249-2326 | in any state, after failed calls too: up to the flush nothing outside the scratch view changes except undo records, and the plan runs from the block the coins stand at to the new one over their deepest common ancestor |
| ChainStates.ChainState.Commit | src/main.cpp:2328-2363 | the flush moves the coins; then either links, best pointer and cached answer follow as specified, or a full disk or refused write leaves all three behind |
| ChainStates.ChainState.RelinkedRight | src/main.cpp:2352-2363 | a switch leaves the right pnext exactly at the blocks it rewrites and at those where it was right before |
| ChainStates.ChainState.UnlinkAll | src/main.cpp:2355-2358 | clears exactly the links along the old branch down to the fork |
| ChainStates.ChainState.LinkAll | src/main.cpp:2360-2363 | sets exactly the links along the new branch from the fork up |
| ChainStates.ChainState.SetBestChain | src/main.cpp:2249-2427 | in every state, after any earlier calls: the coins stay those of genesis..tip connected in order; with readable blocks and writable records on the two branches it switches exactly when the new branch is valid and the final flush succeeds, refuses an invalid branch with the coins unchanged and its first failing block struck off, and otherwise halts with the coins moved and the pointers not; pnext, best pointer and coins agree afterwards unless it halts, and agree again after a switch exactly when the links it leaves alone were right |
| ChainStates.ChainState.TopOf | src/main.h:2005-2016 | the greatest candidate under the comparator |
| ChainStates.ChainState.MarkDescendants | src/main.cpp:1767-1777 | marking the blocks between a candidate and its failed ancestor strictly shrinks setBlockIndexValid and never marks a valid branch |
| ChainStates.ChainState.CheckAncestry | src/main.cpp:1764-1797 | stops at the first block that is failed, has an active successor or is genesis; then no ancestor is failed, and the attach list is exactly the ancestors with more work, all of them while the links are those of the best block |
| ChainStates.ChainState.ConnectBestBlock | src/main.cpp:1749-1799 | terminates; true means no member of setBlockIndexValid has more work than the best block, and a new best block is the greatest by work, then by smaller hash; without disk trouble false means exactly that a block is found invalid in this call, so retrying ends; nothing changes while the best block is heaviest; best work never falls, and the pointers stay in step unless a flush fails |
| ChainStates.ChainState.HeaviestOfAll | src/main.cpp:1749-1799 | then no block of a valid branch has more work than the best block |
| ChainStates.ChainState.TryCandidate | src/main.cpp:1750-1798 | one pass either strikes off a failed branch or ends with no candidate heavier than the best block |
| ChainStates.ChainState.Attach | src/main.cpp:1784-1794 | the switches climb in work and end at the candidate or with a smaller candidate set |
| ChainStates.ChainState.Insert | src/main.cpp:2437-2453 | a new block joins the index and the candidates and the invariant holds, in step or not |
| ChainStates.ChainState.AddToBlockIndex | src/main.cpp:2429-2477 | a known hash changes nothing and fails; a new block joins index and candidates; after success no candidate is heavier than the best block; with disk and index writable a new block fails only when some block is found invalid, never while every unmarked block has a valid branch |
| ChainStates.ChainState.IsInMainChain | src/main.h:1943-1946 | exact while the links are those of the best block: true for its ancestors and no other; in any state true only for blocks of a valid branch |
| ChainStates.ChainState.FindBlockByHeight | src/main.cpp:1297-1313 | while linked, the tip's ancestor at that height from whichever of the three starting points, none above the tip, and the cached pointer stays on the chain; in any state an answer has that height and a valid branch, and the walk may fall off a missing link |
| Subsidy.SubsidyNeverRises | src/main.cpp:1334-1352 | the reward without fees is never negative and never rises with height |
| Subsidy.RewardSchedule | src/main.cpp:1334-1352 | the reward starts at 66.66666666 coins, every two million blocks it is half of what it was, rounded down, in between it falls in a line by a quarter in a whole period, and fees are added |
| Subsidy.SupplyWithinMaxMoney | src/main.cpp:1354-1365 | for any height the sum of the rewards below it is at most MAX_MONEY |
| Supply.TotalSame | src/main.cpp:1976-2061 | equivalent coins are worth the same |
| Supply.SpendInputsTotal | src/main.cpp:1817-1858 | spending distinct available outputs takes exactly their value out of the total |
| Supply.RunTotal | src/main.cpp:2152-2192 | over the transactions of a block, fees leave the total and the coinbase enters it |
| Supply.BlockTotal | src/main.cpp:2197-2201 | a block that connects adds at most the subsidy of its parent's height |
| Supply.BranchSupply | src/main.cpp:2197-2201 | the coins of a valid branch are worth at most the subsidies below its tip |
| Supply.NoFeeOverflow | src/main.cpp:2127-2198 | while a block is connected to a valid branch every running fee sum, the one handed to GetBlockValue included, and every input sum stays within 64 bits, also while deferred script checks may still fail |
| NodeFacts.PathIndependence | src/main.cpp:2249-2350 | two states with the same tip show the same coins whatever they connected, disconnected and refused before |
| NodeFacts.SupplyOfNode | src/main.cpp:1334-1352 | in every reachable state the unspent value is at most the subsidies below the tip, and these at most MAX_MONEY |
| NodeFacts.Calls | src/main.cpp:2249-2427 | after any sequence of successful, refused, failed and halted calls the coins are those of the branch they were last moved to, and the pointers agree with them unless some call halted |
| NodeFacts.RewardConnects | src/main.cpp:2095-2201 | the two blocks of the next witness are valid and leave exactly one entry of coins |
| NodeFacts.DiskFullWitness | src/main.cpp:2331-2349 | over a connected genesis, a call that reports failure after the coins have moved: its coins differ from those before while the best pointer is still genesis |
| NodeFacts.RetryWitness | src/main.cpp:2255-2363 | the same call repeated with space on the disk succeeds, and the link from genesis to the new best block is never written; IsInMainChain then denies the best block its parent |
| CheckQueue.Monitor.Add | src/checkqueue.h:136-147 | appends the checks in order and raises nTodo by their number |
| CheckQueue.Monitor.CleanUp | src/checkqueue.h:71-80 | the first part of the critical section: a finished batch is reported, or the thread is counted in |
| CheckQueue.Monitor.WokenUp | src/checkqueue.h:93-95 | after its wait a thread no longer counts as idle, and nothing else changes |
| CheckQueue.Monitor.LoopHead | src/checkqueue.h:82-110 | returns, sleeps or takes a batch off the back exactly as the specification of the loop head says, the fQuit exit of a worker included |
| CheckQueue.BatchFits | src/checkqueue.h:101-108 | a batch has at least one check and never more than the queue holds |
| CheckQueue.BatchShares | src/checkqueue.h:96-101 | a batch of more than one check leaves as many for every other thread, and is the largest within nBatchSize that does |
| CheckQueue.ReversedPasses | src/checkqueue.h:103-116 | taking checks off the back does not change their conjunction |
| CheckQueueProtocol.HeadKeeps | src/checkqueue.h:82-110 | the loop head keeps the invariant, and a returning master's verdict is the conjunction of the checks added since the last Wait |
| CheckQueueProtocol.StepKeeps | src/checkqueue.h:61-147 | every enabled step of any thread keeps the invariant; a step on which Wait returns leaves the state the control constructor asserts |
| CheckQueueProtocol.AddNotifies | src/checkqueue.h:136-147 | handing over one check wakes the chosen waiting worker, more wake all, none or the master never |
| CheckQueueProtocol.RunsKeepInv | src/checkqueue.h:61-147 | every run of any number of workers keeps the invariant |
| CheckQueueProtocol.ReachableCounters | src/checkqueue.h:30-54 | in every reachable state nTodo is the checks queued or held unreported, and nTotal - nIdle the threads holding a batch |
| CheckQueueProtocol.AddedSoFar | src/checkqueue.h:126-147 | until Wait returns the queue answers for exactly what was added, in order |
| CheckQueueProtocol.RoundVerdict | src/checkqueue.h:126-147 | the step on which Wait returns gives the conjunction of exactly the checks added since the last Wait |
| CheckQueueProtocol.StepDecreases | src/checkqueue.h:61-118 | while the master waits, each productive step of any thread uses up work |
| CheckQueueProtocol.NeverStuck | src/checkqueue.h:71-95 | with the master inside Wait some thread can always take a productive step, with zero workers and early notifications included; a sleeping unnotified master means another thread holds a batch |
| CheckQueueProtocol.WaitReturns | src/checkqueue.h:131-133 | a run of more productive steps than the measure cannot keep the master inside Wait |
| CheckQueueProtocol.WaitCanReturn | src/checkqueue.h:131-133 | from anywhere inside Wait some run brings the master out |
| CheckQueueProtocol.RoundHappens | src/checkqueue.h:163-190 | every round can be gone through: from an idle queue the master can hand over any checks and wait, and some run ends with Wait returning their conjunction and the queue idle again |
| ScriptQueue.WaitDecides | src/main.cpp:2199-2201 | for any portions and any number of workers, Wait returns the verdict that ConnectBlock goes by: all queued script checks pass |
| Merkle.WidthStep | src/main.h:1309-1311 | the width one level up is half, rounded up, starting from the number of leaves |
| Merkle.ExtractBuilt | src/main.cpp:2857-2903 | wherever a built subtree is stored, reading it consumes exactly its bits and hashes and yields its hash and its masked leaves without marking the tree bad |
| Merkle.HashCount | src/main.h:1279-1283 | at most one hash more than matched leaves times height is stored |
| Merkle.BitCount | src/main.h:1279-1292 | the flag bits are twice the hashes less one, plus one for every single child the walk descends through |
| Merkle.SinglesWhere | src/main.cpp:2838-2855 | the walk meets a single child exactly where a selected leaf lies below the last node of an odd level |
| Merkle.BitBound | src/main.h:1285-1290 | the promised bound of 2N-1 flag bits holds exactly when no selected leaf lies below a node with a single child |
| Merkle.BitWitness | src/main.h:1285-1290 | three transactions with only the last selected: two hashes and four bits, over the bound |
| Merkle.Uncombine | src/main.cpp:2875-2903 | under an injective pair hash the true hash of an inner node pins the hashes of both children |
| Merkle.ExtractSound | src/main.cpp:2875-2903 | if arbitrary bits and hashes lead to the true hash of a node without marking the tree bad, the matches are leaves under it, in order |
| MerkleTrees.TreeHeight | src/main.cpp:2909-2912 | the first height at which the width is one |
| MerkleTrees.PartialMerkleTree.TraverseAndBuild | src/main.cpp:2857-2873 | appends exactly the bits and hashes of the subtree's depth-first walk |
| MerkleTrees.PartialMerkleTree.TraverseAndExtract | src/main.cpp:2875-2903 | counters, matches, result and bad flag follow the specified walk over arbitrary bits and hashes |
| MerkleTrees.PartialMerkleTree.constructor | src/main.cpp:2905-2917 | the tree over a nonempty list holds the bits and hashes of the walk from the root |
| MerkleTrees.PartialTreeRoundTrip | src/main.cpp:2857-2917 | reading a built tree consumes everything up to padding, returns exactly the masked txids and the root of the flat tree, and stays within the hash bound |
| MerkleTrees.PartialTreeSound | src/main.cpp:2875-2903 | arbitrary bits and hashes that give the block's root without the bad flag prove a subsequence of the block's txids, in block order |
| MerkleTrees.BuildMerkleTree | src/main.h:1550-1567 | the array is the levels one after the other, and the result is the recursive root hash |
| MerkleTrees.GetMerkleBranch | src/main.h:1575-1589 | the branch holds the sibling on every level below the root |
| MerkleTrees.CheckMerkleBranch | src/main.h:1591-1604 | folds the branch by the bits of the index, and gives zero for index -1 |
| MerkleTrees.BranchReachesRoot | src/main.h:1575-1604 | checking the branch of any index against its txid gives the root |
| Mempool.TxMemPool.AddUnchecked | src/main.cpp:1063-1075 | a transaction without rivals joins and mapNextTx stays exactly the inverse of the inputs |
| Mempool.TxMemPool.Accept | src/main.cpp:692-711 | refuses a known transaction and one that spends an output some pooled transaction spends, and only these |
| Mempool.TxMemPool.Erase | src/main.cpp:1087-1094 | one transaction and exactly its index entries go |
| Mempool.TxMemPool.Remove | src/main.cpp:1077-1099 | recursive removal takes out the transaction and exactly its pooled descendants, and ends; plain removal takes out the transaction alone |
| Mempool.TxMemPool.RemoveConflicts | src/main.cpp:1101-1114 | takes out exactly the rivals for an input and what depends on them |
| Mempool.TxMemPool.DeleteConnected | src/main.cpp:2374-2377 | the connected transactions go one after the other, each with its rivals and what depends on them; in the end none of them is pooled and nothing pooled spends an input of theirs |
| Mempool.OnlyConnectedLeave | src/main.cpp:2374-2377 | while nothing pooled competes with the connected transactions, exactly they leave the pool, and what spends their outputs stays |
| Mempool.MinusOneMore | src/main.cpp:1077-1099 | removing what depends on one more output is removing its one spender with all that depends on it |
| BlockTemplates.PopBest | src/main.cpp:4801-4807 | an entry that no other one beats under the current order leaves the queue, once |
| BlockTemplates.Scan | src/main.cpp:4724-4767 | an input found neither in the view nor in the pool drops the transaction; otherwise it waits for exactly the hashes the view lacks, mapDependers stays the inverse, and value and value times age of the inputs are summed |
| BlockTemplates.Collect | src/main.cpp:4710-4785 | every candidate, that is every final pooled transaction with no input missing, is in the queue when it depends on nothing and among the waiting ones otherwise, with its own score, once; nothing else is in either |
| BlockTemplates.AcceptTx | src/main.cpp:4836-4851 | takes a transaction exactly when it passes the checks of a connected block under the template's limit, and applies it to the view |
| BlockTemplates.Release | src/main.cpp:4870-4885 | after a transaction is taken its dependers depend on the rest, and exactly those that waited for it alone join the queue, once |
| BlockTemplates.Offer | src/main.cpp:4804-4862 | one dequeued entry is judged by the size, signature, fee and coin checks, switches the queue to fee order when due, and is added with its fee and operations exactly when all pass |
| BlockTemplates.TakeKeeps | src/main.cpp:4853-4862 | adding an accepted transaction keeps all that is promised of the selection |
| BlockTemplates.Select | src/main.cpp:4787-4886 | dequeues in an order in which each entry is open and unbeaten under the current comparator, until no open candidate is left, and the block is what offering that order gives; it is distinct, parents first, within the size and signature limits, and connecting it gives the view and the fee sum |
| BlockTemplates.TakenWhenOffered | src/main.cpp:4797-4862 | a transaction is in the block exactly when it was offered and passed every check at that time |
| BlockTemplates.LeftOut | src/main.cpp:4797-4886 | a candidate is not in the block exactly when it waits for a parent that is not in it or failed a named check when it was dequeued |
| BlockTemplates.FairIsBestFirst | src/main.cpp:4641-4650 | an order the comparator allows is one in which nothing that could have been offered instead has the higher fee rate, or the higher priority before the switch, ties broken by the other, and all that could be offered are |
| BlockTemplates.ParentBefore | src/main.cpp:4870-4885 | a selected transaction comes after each selected one it spends from |
| BlockTemplates.CreateNewBlock | src/main.cpp:4653-4911 | over the whole pool: the transactions are those that a best-first order of all candidates leaves in the block, once each and after their parents, by fee rate or by priority as the state of the block asks; the fee entries sum to zero and the coinbase pays subsidy plus fees |
| TemplateMeaning.LimitsAre | src/main.cpp:4684-4707 | the largest block is the argument kept between 1000 bytes and 1000 less than the height's limit, and the other two sizes are at most that |
| TemplateMeaning.TakenIs | src/main.cpp:4809-4851 | a dequeued transaction is taken exactly when it fits, pays at least 100000 for a thousand bytes or is within the free part or the queue is not yet sorted by fee, is affordable, its scripts agree and the signature operations stay below the height's limit |
| TemplateMeaning.SortedSince | src/main.cpp:4787-4833 | the queue is sorted by fee from the start when nothing is kept for priority, else from the first entry on that reached its checks beyond that part or with a priority below 230400000 |
| TemplateMeaning.FeeRateIs | src/main.cpp:4769-4777 | the fee rate of a candidate that spends no pooled output is its fee for each thousand bytes |
| TemplateMeaning.PriorityIs | src/main.cpp:4758-4771 | its priority is the value of its inputs, each times the blocks since it was made, for each byte |
| TemplateMeaning.RicherFirst | src/main.cpp:4641-4807 | with nothing kept for priority, of two candidates without pooled parents the one with the higher fee rate is offered first, and is in the block unless it was refused then |
| TemplateMeaning.UrgentFirst | src/main.cpp:4641-4807 | while the queue is not sorted by fee, the same holds of the higher priority |
| TemplateFacts.RunBehindCoinbase | src/main.cpp:4913-4920 | the selection replayed behind its coinbase goes through exactly when the signature operations of both fit the limit |
| TemplateFacts.TemplateConnects | src/main.cpp:4913-4920 | the block made from a template passes ConnectBlock exactly when its signature operations fit the fixed limit there |
| TemplateFacts.TemplateConnectsBelowFork | src/main.cpp:4913-4920 | below height 490000 it always passes, with a coinbase inside the reserved operations |
| TemplateFacts.HeavyIsGenuine | src/main.cpp:498-510 | the witness is well-formed and its size and 10000 signature operations are those of its scripts |
| TemplateFacts.HeavyIsTaken | src/main.cpp:4787-4886 | over any coins that hold one old, freely spendable coinbase output, and whatever its score, every fair order over a pool that holds just the witness ends with it in the block |
| TemplateFacts.HeavyTemplate | src/main.cpp:4653-4911 | CreateNewBlock at height 490000 over any such coins and that pool returns a template with the witness, far over the fixed limit |
| TemplateFacts.HeavyBlockExists | src/main.cpp:4890-4920 | blocks made from that template exist over any coins to which both transactions are new |
| TemplateFacts.HeavyIsRefused | src/main.cpp:2158-2160 | every block made from that template is refused, over any such coins, so the final test throws |
| SigOps.GetSigOpCount | src/script.cpp:1685-1707 | the loop over opcodes, pushes skipped, counts what the specification counts, up to the first instruction cut short |
| SigOps.CountIsSum | src/script.cpp:1685-1707 | the count of a script is the sum over its instructions: one for a signature check, 20 or the number just pushed for a multisignature check, nothing after the first place that starts no instruction |
| SigOps.ScriptSplits | src/script.h:424-473 | every script is such a list of instructions and a rest that starts with none |
| SigOps.SigOpsBounded | src/script.cpp:1685-1707 | the accurate count never exceeds the legacy one, nor that 20 for each byte |
| SigOps.MultisigOnly | src/script.cpp:1685-1707 | the bound is reached by a script of multisignature checks |
| SigOps.GetLegacySigOpCount | src/main.cpp:498-510 | the sum over all input and output scripts |
| CompactNumbers.CompactRounds | src/bignum.h:289-330 | unpacking a packed target gives at most the target and loses less than one part in 2^15 |
| CompactNumbers.CompactInverse | src/bignum.h:289-330 | packing an unpacked normalized word gives the word back |
| CompactNumbers.SizeKept | src/bignum.h:308-330 | the size byte is the number of bytes unless the mantissa reaches the sign bit |
| CompactNumbers.NegativeRounds | src/bignum.h:289-330 | a negative number packs and unpacks like its absolute value, with the sign kept |
| CompactNumbers.UnpackedExamples | src/test/bignum_tests.cpp:126-168 | the packed words of the repository's own tests, a negative one among them, unpack to the numbers given there |
| Difficulty.Invert | src/main.cpp:1367-1379 | the shifting loop, with its 8-bit size, computes the specified inverse |
| Difficulty.InverseClose | src/main.cpp:1367-1379 | target times inverse is at most 2^256 and short of it by at most one part in 2^15 |
| Difficulty.SumBounds | src/main.cpp:1398-1405 | the sum of inverses is bounded on both sides by the smallest and largest target of the window |
| Difficulty.AverageBetween | src/main.cpp:1398-1406 | the average lies between the window's smallest target and its largest, the latter up to one part in 2^15 |
| Difficulty.RetargetIs | src/main.cpp:1381-1412 | below two hours and above eighteen a window counts as two and eighteen hours, in between as long as it took |
| Difficulty.LongerIsEasier | src/main.cpp:1408-1412 | a window that took longer never gives a smaller target |
| Difficulty.SixHours | src/main.cpp:1408-1412 | a window faster than six hours never gives a target above its average, a slower one never one below, and the change is at most threefold |
| Difficulty.CapIs | src/main.cpp:1414-1415 | targets are capped at 2^236 - 1 |
| Difficulty.RetargetBounds | src/main.cpp:1406-1412 | the new target before the cap lies between a third of the window's smallest and three times its largest, the latter up to one part in 2^15, however long the window took |
| Difficulty.GetNextWorkRequired | src/main.cpp:1386-1418 | the limit for the first blocks; then the average of the 360 targets before the last block, times 7200, the seconds they took, or 64800, over 21600, capped and packed; never above the limit |
| Difficulty.CappedCompact | src/main.cpp:1414-1417 | packing the capped target stays below it within one part in 2^15, and gives again a word the next blocks can average unless the target is below 2^16 |
| Streams.CompactSizeRoundTrip | src/serialize.h:172-236 | any size up to MAX_SIZE is read back and the rest of the stream left |
| Streams.ScriptRoundTrip | src/serialize.h:567-583 | a script is read back from its size and bytes, whatever follows |
| Streams.VarIntRoundTrip | src/serialize.h:272-302 | any integer is read back, whatever follows |
| Streams.VarIntUnique | src/serialize.h:238-248 | no integer has two encodings: bytes that read as a number are the ones written for it |
| Streams.VarIntSize | src/serialize.h:259-270 | the size function is the length of the encoding |
| Streams.VarIntTable | src/serialize.h:252-257 | the encodings in the source's table, except that 16511 and 65535 are written differently from what it says |
| Streams.WriteVarInt | src/serialize.h:272-287 | the buffer filled last digit first and written from its end is the encoding |
| Streams.ReadVarIntBytes | src/serialize.h:289-302 | the reading loop is the specified read, failing on a stream that ends early |
| Amounts.DecompressCompress | src/main.cpp:5273-5316 | every amount survives compression |
| Amounts.CompressDecompress | src/main.cpp:5273-5316 | every number is the code of exactly one amount |
| Amounts.CodeFits | src/main.cpp:5273-5290 | a code is at most nine times its amount, so valid money never overflows 64 bits |
| Amounts.CompressedExamples | src/test/compress_tests.cpp:38-46 | the pairs of the repository's tests |
| Amounts.CompressAmount | src/main.cpp:5273-5290 | the 64-bit loop computes the code, wrapped only where it overflows |
| Amounts.DecompressAmount | src/main.cpp:5292-5316 | the 64-bit loop computes the amount of a code, wrapped only where it overflows |
| CoinsCodec.OutRoundTrip | src/main.h:777-802 | a valid output is read back from its compact form, whatever follows |
| CoinsCodec.MaskRead | src/main.h:1114-1123 | reading nonzero bytes down from their count consumes exactly the mask and tells of every output whether it is live |
| CoinsCodec.SomeLive | src/main.h:1055-1059 | the assertion of Serialize holds for every entry that is not fully spent |
| CoinsCodec.CoinsRoundTrip | src/main.h:1076-1137 | for cleaned-up coins that are not fully spent, with canonical null outputs, valid live ones and non-negative version and height, Unserialize inverts Serialize and leaves what follows |
| CoinsCodec.DocumentedExample | src/main.h:946-958 | the documented example's version, code, amount and height, around a script written whole |
| CoinsCodec.CalcMaskSize | src/main.h:1031-1047 | the mask ends with its last nonzero byte, and the nonzero bytes are counted |
| CoinsCodec.Serialize | src/main.h:1076-1103 | the writing loops produce the specified bytes, their assertion holding |
| CoinsCodec.GetSerializeSize | src/main.h:1053-1074 | the length of what Serialize writes |
| CoinsCodec.Unserialize | src/main.h:1105-1137 | the reading loops compute the specified read, failures included |
| UndoCodec.InRoundTrip | src/main.h:821-843 | an undo record of a valid output is read back, whatever follows, exactly when its version is kept: zero without a height, not negative with one |
| UndoCodec.BlockUndoRoundTrip | src/main.h:846-866 | the undo data of a block, vectors and all, is read back unchanged when its records are |
| UndoCodec.RunEncodable | src/main.cpp:1844-1858 | records produced by connecting are of that kind, and the coins stay encodable, while no version is negative and every output fits its encoding |
| UndoCodec.UndoSurvivesDisk | src/main.cpp:2205-2222 | so what a later disconnection reads from disk is the undo data the block produced |
| UndoCodec.BranchEncodable | src/main.cpp:2249-2350 | along a valid branch of transactions that fit their encodings the replayed coins stay encodable |
| UndoCodec.BranchUndoSurvivesDisk | src/main.cpp:1976-1994 | for every block of such a branch, what is read back from disk is the undo record that the chain state keeps for it |
| UndoCodec.BranchCoinsSurviveDisk | src/main.h:1076-1137 | along a valid branch of transactions that fit their encodings, every entry with an unspent output is read back from what is written for it, whatever follows |
| Base58.ConvertedBack | src/base58.h:29-121 | rewriting digits in the other base, leading zeros kept, and back changes nothing, in either direction |
| Base58.DecodeEncode | src/base58.h:29-121 | every byte string survives encoding, leading zeros included |
| Base58.EncodeDecode | src/base58.h:29-121 | every string of letters is the encoding of its decoding |
| Base58.DecodesExactly | src/base58.h:77-121 | a string decodes to given bytes exactly when it is their encoding with blanks before and after |
| Base58.EncodedExamples | src/test/data/base58_encode_decode.json:3-14 | strings of the repository's test data, any number of zero bytes among them |
| Base58.CheckRoundTrip | src/base58.h:134-162 | for any hash, a string decodes with checksum to b exactly when it decodes to b followed by its hash bytes, among them b's own encoding |
| Base58.VchRoundTrip | src/bignum.h:240-265 | setvch inverts getvch, the extra sign byte included |
| Base58.VchSign | src/bignum.h:240-253 | the top bit of the last byte is the sign |
| Base58.TrimmedSign | src/base58.h:106-110 | the trim removes the extra byte exactly when getvch added one |
| Base58.EncodeBase58 | src/base58.h:29-67 | the division loop, the zeros and the reversal spell the encoding |
| Base58.DecodeBase58 | src/base58.h:77-121 | accepts exactly a word of letters between spaces and yields its bytes |
| AddressManager.AddrMan.constructor | src/addrman.h:382-390 | an empty table in which all indexes agree |
| AddressManager.AddrMan.AllCounted | src/addrman.cpp:440 | vRandom has one place for every tried and every new entry |
| AddressManager.AddrMan.TableSizes | src/addrman.h:122-141 | 64 tried and 256 new buckets of at most 64 entries; a new entry is in one to four new buckets, as many as it counts, a tried one in none and in one tried bucket |
| AddressManager.AddrMan.Find | src/addrman.cpp:81-92 | finds the one entry with that address, or there is none |
| AddressManager.AddrMan.Create | src/addrman.cpp:94-104 | a fresh id at the last place; addresses and places stay inverse to each other |
| AddressManager.AddrMan.SwapRandom | src/addrman.cpp:106-124 | two entries exchange places, nothing else changes, and the assertions hold |
| AddressManager.AddrMan.SelectTried | src/addrman.cpp:126-148 | shuffles the bucket as its random draws say and returns the position from which the entry that connected longest ago was drawn |
| AddressManager.ChosenIsOldest | src/addrman.cpp:126-148 | the entry found at that position, which is the one evicted, is the oldest inspected one exactly when that was drawn from the place where it stays |
| AddressManager.NewerEvicted | src/addrman.cpp:126-148 | two entries and two draws for which the newer one is evicted |
| AddressManager.AddrMan.DropReference | src/addrman.cpp:162-173 | one reference leaves one bucket, the entry with its last, and all indexes agree |
| AddressManager.AddrMan.ShrinkNew | src/addrman.cpp:150-202 | takes out a terrible entry exactly when the bucket has one, else the oldest of at most four sampled; all conditions hold while one entry's count runs a reference ahead of its buckets |
| AddressManager.TerribleIs | src/addrman.cpp:38-56 | nothing tried in the last minute is evicted as terrible; of the rest exactly what comes from the future, is unseen for thirty days, failed three times without success or ten times since one more than a week ago |
| AddressManager.AddrMan.SampleOldest | src/addrman.cpp:177-192 | the oldest of a nonempty sample of at most four members |
| AddressManager.AddrMan.LeaveNew | src/addrman.cpp:204-216 | the entry leaves every new bucket and its count reaches the zero the source asserts |
| AddressManager.AddrMan.MakeTried | src/addrman.cpp:204-260 | the entry becomes tried; from a full bucket exactly the entry that the draws choose returns, to its own new bucket or when that is full to the one the other came from, with one reference; every condition and size cap holds |
| AddressManager.AddrMan.FindBucket | src/addrman.cpp:289-304 | a new entry is always found in some bucket |
| AddressManager.AddrMan.Good_ | src/addrman.cpp:262-311 | a known service ends tried with fresh times and every condition holds; anything else changes nothing |
| AddressManager.AddrMan.Add_ | src/addrman.cpp:313-369 | reports exactly the unknown routable addresses as new; the entry, the bucket and the possible victim are the specified ones and every condition holds |
| AddressManager.AddrMan.Refer | src/addrman.cpp:356-367 | one reference more, from a bucket that has room or makes it |
| AddressManager.AddrMan.Refresh | src/addrman.cpp:322-347 | a repeated announcement updates time and services, and asks for another bucket exactly when it is news about a new entry below the reference cap and the random number is divisible by 2^r, for r references |
| AddressManager.RefreshedIs | src/addrman.cpp:322-330 | an announcement moves an entry's time forward when it is newer by more than penalty and margin, and never back |
| AddressManager.AddrMan.Attempt_ | src/addrman.cpp:371-388 | only last try and attempts of the exact service change, and every condition holds |
| AddressManager.AddrMan.Connected_ | src/addrman.cpp:510-528 | only the time of the exact service changes, at most every twenty minutes, and every condition holds |
| AddressManager.AddrMan.GetAddr_ | src/addrman.cpp:494-508 | distinct known addresses, at most 23 percent and 2500, with only places shuffled and every condition holding |
| Framing.DecodeFlat | src/net.cpp:632-701 | a stream of frames and an unfinished rest decodes to exactly these |
| Framing.DecodeSpells | src/net.cpp:632-701 | what was decoded spells the stream |
| Framing.DecodeInChunks | src/net.cpp:632-660 | decoding a chunk and then its rest with the next one is decoding both at once |
| Framing.ProcessedBetween | src/main.cpp:4308-4405 | taking processed messages off the queue between two reads changes nothing about the later ones |
| Framing.ArrivedIsPrefix | src/net.cpp:632-701 | whatever part of a well-formed stream has arrived decodes without failure to a prefix of its frames |
| Transport.NetMessage.ReadHeader | src/net.cpp:662-690 | takes what the header lacks; rejects exactly an announced size above MAX_SIZE |
| Transport.NetMessage.ReadData | src/net.cpp:692-701 | takes what the payload lacks, in place and in order |
| Transport.Node.constructor | src/net.h:246-276 | a fresh connection is in order on both sides |
| Transport.Node.ReceiveMsgBytes | src/net.cpp:632-660 | no byte is lost or reordered, the queue is the decoding of all its bytes, and it fails exactly when the stream announces a message above MAX_SIZE |
| Transport.Node.StreamDecodes | src/net.cpp:632-660 | the complete messages and the arriving one are the decoding of the bytes held |
| Transport.Node.EndMessage | src/net.h:425-461 | queues the message with its size and the low 32 bits of its payload's hash in the header, all other bytes as they were, nothing when empty; nSendSize stays the queued bytes |
| Transport.Node.SocketSendData | src/net.cpp:712-752 | for any partial writes the bytes on the wire and those left are the queued messages in order; it stops only when the queue is empty or the socket takes less than offered, exactly an unexpected error disconnects, and the assertions on nSendOffset and nSendSize hold |
| Transport.SealedIsFrame | src/main.cpp:4346-4355 | a queued message is a frame the receiver takes exactly when its payload is at most 32 MB |
| Transport.DeliveredInOrder | src/net.cpp:632-752 | the messages completed from any part of the sender's wire, in any chunks, are the first of those queued, in order, and each passes the receiver's checksum test |

## Left out

- ChainStates.ChainState.Attach: an interruption of the thread between two switches, which leaves the state of the last finished one, is not a separate outcome.
- ChainStates.ChainState.InvalidBlockFound: does not model the recursive ConnectBestBlock call; its guard is proved false in every reachable state.
- Transactions.CheckBlock: size, proof of work, time stamp, the block-wide signature count and the Merkle root are one input flag, since none of them reads the coins.
- BlockTemplates.Scan: requires that a pooled transaction which waits for a parent has no later input that is nowhere to be found; the source calls such an input an error that never happens and leaves dangling pointers behind it.
- BlockTemplates.Collect: requires the same of the pool as Scan, and that the inputs it prices name outputs that exist, since the source indexes them unchecked; priorities and fee rates are exact rationals in place of floating-point numbers; the lock-time test is an input.
- BlockTemplates.CreateNewBlock: requires the same of the pool as Collect; reads the best block from the coins view, the source from pindexBest; the two differ only after a Halted call.
- Difficulty.GetNextWorkRequired: requires normalized targets of at most 30 bytes, which the packed targets of real blocks are; a target below 2^16 is not followed further.
- AddressManager.AddrMan.Good_: requires a positive time, since a success at time zero would read as no success; times and penalties are unbounded integers.
- Mempool.TxMemPool.Remove: requires that spending in the pool is free of cycles, which follows from hashes committing to inputs; equal hashes mean equal transactions.
- Streams.ReadVarIntBytes: does not model the 32- or 64-bit wrap-around of reading an over-long integer from a damaged stream.
- Transport.Node.ReceiveMsgBytes: the removal of processed messages between reads is a statement about the decoded frames (ProcessedBetween), not a method on the queue.
- Base58.DecodeBase58: takes the characters before the terminating zero, as the C string it is given ends there.
- CheckQueueProtocol.StepKeeps: no step sets fQuit, since nothing in the source does; the invariant says that it stays unset.
- Hashes are identities: a transaction carries its hash, size and signature count as fields, script evaluation and the counting of redeem scripts are parameters, and Merkle hashing is a function whose injectivity is assumed only where soundness needs it.
- Disk, database, clock and randomness: outcomes of I/O and the current time are parameters, random numbers arbitrary or parameters, the order of set iteration arbitrary; block and undo files are fields of a block index entry.
- Pointers into mapTx, mapInfo and vOrphan are ids or positions; the objects they point to are values in maps and sequences.
- Unsigned 32-bit wrap-around of signature counts, Merkle tree widths and vector sizes.
- Undo records in the chain state are those ConnectBlock produced; BranchUndoSurvivesDisk says that the disk gives them back unchanged along branches whose transactions fit their encodings, which a negative version does not.
- Wallet notification, resurrection of disconnected transactions into the pool, orphan blocks and transactions, and relay: they add no state of their own to the invariants above.
- Admission policy of the pool (standardness, fees, dust, rate limits) and AcceptBlock's header rules: easy predicates beside the ones proved.
- Select_ and GetChance of the address table: floating-point odds and loops that end with probability one.
- Serialization of the address table, of blocks and of transactions; bloom filters, keys, checkpoints, the miner loop, RPC and the user interface.
