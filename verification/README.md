# A verified model of the node's core

This project models the parts of the node whose correctness rests on facts that no single function
shows, and proves those facts for all inputs, all runs or all reachable states. Verify it with
`dafny verify dfyconfig.toml` (Dafny 4.11).

The modules follow the program.

- **Chain state.** `BlockTree`, `SkipList`, `SkipSteps`, `ActiveChain` and `Locator` hold the block index as a
  tree of entries, the skip list and the length of its walks, the vector of the active chain and block
  locators. `ChainSelection` and `Linkage` say what the candidate set and the linkage fields must satisfy,
  and `ChainState` is the object that updates them, and the coins with them: from header and block arrivals
  to the activation of the best chain.
- **Coins.** `Coins` holds unspent outputs, `CoinsLayer` one write-back layer as a value, `CoinsView`
  the stack of caches over the database with their DIRTY and FRESH flags. `Undo` says on plain maps what
  connecting and disconnecting a block does and that one inverts the other, `Redo` what a clean
  disconnection means, and `Effects` output by output what a block changes; `BlockConnection` does it on
  the caches. `Ledger` is what a chain of blocks leads to, and `CoinsTip` keeps the caches there.
- **Address manager.** `AddrTables` says when the redundant indexes agree, `AddrMan` is the object that
  keeps them so, `AddrCheck` is what its consistency check finds out, `AddrPersistence` saves and loads it,
  and `AddrLeftovers` is about loading over entries from before.
- **Check queue.** `CheckQueue` is the protocol between the master and the workers, one method for every
  critical section.
- **Merkle trees.** `MerkleTree` is the tree of a block with its branches and the test for repeated
  transactions. For partial trees `PartialMerkle` has the traversals as functions, `PartialMerkleTree` the
  object that packs, sends and extracts, `MerkleSize` its size.
- **Numbers.** `NatMath` has facts about natural numbers. `Limbs` and `Arith256` are 256-bit arithmetic
  on 32-bit limbs, `Compact` the compact format of targets, `ProofOfWork` work, median time past and
  retargeting, `Subsidy` the issuance.
- **Codecs.** `VarInt`, `Amounts`, `OutputCodec`, `CoinsCodec` and `Base58`.

Conventions. Integers are unbounded unless a width matters, in which case the model says so (limbs,
64-bit sums, compact words). Hashes, scripts and proofs are arbitrary functions, injective where a
statement says so. Random choices are arbitrary choices and the clock is a parameter, so every statement
holds for every outcome. Objects that the program updates in place are classes; a method that the program
does not split may be split here, and carries the name of the whole in its comment.

Places where code and comments disagree, or where a property one would expect fails. The model follows the
code and says exactly when the property holds, with an input at which it fails.

- src/merkleblock.h promises at most 2N - 1 flag bits for N hashes. A node with a single child costs one
  more bit. `PartialMerkleTree.BitsBound` says exactly when the promise is kept, and
  `PartialMerkleTree.BitsBoundExceeded` gives a block of three transactions for which it is not.
- The same comment guarantees a size of 10 + ceil(32.25 N) bytes. `MerkleSize.SizeBound` says exactly when
  that holds, and `MerkleSize.SizeBoundExceeded` gives a block of 1025 transactions that takes one byte more.
- Flushing a cache that has neither read nor set its best block hands a null hash to a parent cache,
  which takes it over. `CoinsView.CoinsViewCache.Flush` says exactly when the best block and the best
  anchor survive; `CoinsView.FlushLosesBestBlock` is a stack where they do not.
- The database answers for the empty anchor root whatever is stored, so removing that root from a cache
  cannot be flushed (`CoinsLayer.EmptyRootCannotBeRemoved`). No run removes it.
- `Add_` answers that an address is new also when it was dropped at once because its slot was taken;
  `AddrMan.Manager.Add` says exactly when it is kept, and `AddrMan.AddedButDropped` is a case where it is not.
- `CAddrMan::Clear` leaves mapInfo and mapAddr as they are. `AddrMan.Manager.Clear` and
  `AddrPersistence.Unserialize` say exactly when the manager is consistent afterwards;
  `AddrMan.ClearedIsInconsistent` and `AddrPersistence.LoadedOverItself` are managers that fail their own check.
- The test in `BuildMerkleTree` for blocks that share their root with a shorter one also fails for a list whose
  two hashes below the root are equal, although no shorter list has that root. `MerkleTree.MutatedExactly` and
  `MerkleTree.SharedRootExactly` say exactly when which is the case.
- CheckBlock may let a block pass that repeats a transaction. `Undo.RepeatIsRefused` shows that ConnectBlock
  does not.
- `operator*=` of a number with itself gives zero. `Arith256.Uint.SquareInPlace` says when that is right, and
  `Arith256.SquareOfOneIsLost` is a number for which it is not.
- The assertion in `GetBlockSubsidy` fails at height 0 without a ramp (`Subsidy.GetBlockSubsidy`,
  `Subsidy.RegtestGenesis`).
- A variable-length integer that exceeds its word is read modulo its width, so an encoding is unique only for
  numbers that fit (`VarInt.ReadWord`, `VarInt.TwoZeros`).

## Model

| member | source | states |
|---|---|---|
| BlockTree.AncestorAtHeight | src/chain.h:471-499 | an entry is an ancestor exactly when the path of the descendant holds it at its own height: the fact behind the constant-time test of membership |
| BlockTree.AncestorWork | src/main.cpp:3213 | along every path the total work grows strictly |
| SkipList.InvertLowestOneClearsLowest | src/chain.cpp:61-62 | the bit trick removes exactly the lowest one: an odd number loses its unit, an even one loses the lowest one of its half |
| SkipList.SkipHeight | src/chain.cpp:64-73 | every jump goes strictly back |
| SkipList.SkipKeepsParity | src/chain.cpp:64-73 | above height one a jump keeps the parity of the height and goes back by at least two |
| SkipList.PointersStayOnPath | src/chain.cpp:104-108 | in an index built by BuildSkip both the parent and the skip pointer of a block on a path are on that path, at the height the walk expects |
| SkipList.GetAncestor | src/chain.cpp:75-97 | terminates and returns what the plain walk along parents returns at that height, null outside of it; the number of turns is the length of the walk over heights |
| SkipSteps.WalkBound | src/chain.cpp:69-72 | from every height below 2^(j + 1) to every target the walk takes at most (j^2 + 15 j + 8) / 4 turns |
| SkipSteps.OddBound | src/chain.cpp:82-95 | from an odd height jumps clear two ones at a time until they would overshoot, and at most three more steps shorten the range of the target |
| SkipList.BuildSkip | src/chain.cpp:104-108 | the pointer set on a new entry is its ancestor at the skip height |
| SkipList.LeafKeepsSkips | src/main.cpp:3206-3212 | adding an entry with a pointer so built keeps the whole index so built |
| ActiveChain.Chain.ContainsIsAncestry | src/chain.h:483-486 | the constant-time test holds exactly for the ancestors of the tip |
| ActiveChain.Chain.NextIsChild | src/chain.h:488-494 | the successor is the one child of a block of the chain that is on it too |
| ActiveChain.Chain.SetTip | src/chain.cpp:13-23 | the early stop still leaves the vector equal to the whole path of the new tip |
| ActiveChain.Chain.FindFork | src/chain.cpp:53-59 | returns a common block of the chain and the path, and no common block is higher |
| ActiveChain.StopIsSafe | src/chain.cpp:19-22 | an entry that is already right has nothing but right entries below it |
| Locator.LocatorFrom | src/chain.cpp:32-48 | the list holds exactly the ancestors at single steps for twelve entries and doubling steps after that, ending with the genesis block, whichever of the two ways of stepping back is used |
| Locator.GetLocator | src/chain.cpp:25-51 | the same from a given block or, by default, from the tip; empty for an empty chain |
| Locator.LocatorShape | src/chain.cpp:25-51 | heights strictly decrease from the block to genesis and the length is at most twelve more than the logarithm of the height |
| Locator.FindForkInGlobalIndex | src/main.cpp:543-556 | returns the first listed block on the chain, or genesis if none is |
| Locator.LocatorFindsNearFork | src/main.cpp:543-556 | against any chain that forks off at height f the block found, at height h, satisfies p - h <= 2 (p - f) for a locator from height p |
| Locator.LocatorAlwaysHits | src/main.cpp:543-556 | against a chain with the same genesis some listed block is on the chain |
| Locator.LocateFork | src/main.cpp:543-556 | making a locator on one side and looking it up on the other gives a common ancestor within that distance |
| ChainSelection.AtLeastTransitive | src/main.cpp:109-128 | the comparator of the candidate set is transitive, also with no block at all as the worst |
| ChainSelection.BetterMeans | src/main.cpp:109-128 | what better means, without the comparator: of two different blocks the better one has more total work or, with the same work, was numbered earlier |
| ChainSelection.AtLeastTotal | src/main.cpp:109-128 | any two blocks can be compared and no two are equally good: it is a total order |
| ChainSelection.BestExists | src/main.cpp:109-128 | every nonempty set of blocks has a best one |
| ChainSelection.BestCandidateSettles | src/main.cpp:3081-3082 | when the tip is the best candidate, every linked block without an invalid ancestor is at most as good as the tip |
| ChainSelection.DisconnectKeeps | src/main.cpp:3002-3006 | going back one block keeps the best tip reached and everything as good among the candidates |
| ChainSelection.ConnectKeeps | src/main.cpp:3040-3047 | connecting a block and dropping candidates worse than it never drops one that is as good as the best tip reached |
| ChainSelection.FailKeeps | src/main.cpp:1876-1893 | marking a block that does not connect loses no viable candidate |
| ChainSelection.LinkKeeps | src/main.cpp:3244-3251 | a newly linked block becomes a candidate exactly when it is not worse than the tip |
| ChainState.State.FindMostWorkChain | src/main.cpp:2925-2977 | returns the best candidate, and none of its ancestors is marked; null only when there is no candidate left |
| ChainState.State.MarkFailedChain | src/main.cpp:2955-2970 | exactly the blocks between a candidate and its failed ancestor are marked, and exactly those and the ancestor leave the candidate set |
| ChainState.State.PruneBlockIndexCandidates | src/main.cpp:2980-2989 | exactly the candidates that are not worse than the tip remain |
| ChainState.State.ConnectTip | src/main.cpp:2857-2919 | the block becomes the tip exactly when the chain it ends is valid, and then the coins are those after it; otherwise only it is marked and tip and coins stay; the assertion that a candidate is left holds |
| ChainState.State.DisconnectTip | src/main.cpp:2795-2845 | the parent becomes the tip, the coins are those of the parent, and nothing as good as the best tip is forgotten |
| ChainState.State.BlocksToConnect | src/main.cpp:3013-3024 | the list is the path towards the candidate between the two heights, highest first |
| ChainState.State.ConnectBatch | src/main.cpp:3026-3049 | ends with a new failure mark, with more work than the old tip, or at the target of the batch |
| ChainState.State.DisconnectToFork | src/main.cpp:2999-3011 | leaves the tip on the path of the candidate and the coins at that tip; the genesis block is never disconnected |
| ChainState.State.ActivateBestChainStep | src/main.cpp:2995-3062 | marks a further block, or reaches the candidate, or improves on the old tip; candidates are only dropped |
| ChainState.State.ActivateBestChain | src/main.cpp:3069-3112 | terminates; its tip connects; every other linked block all of whose ancestors connect has less work than it, or the same work and a later number, and so has the tip before the call if the tip has changed, also when a reorganisation fails midway; the coins are always those of the tip |
| ChainState.State.AddToBlockIndex | src/main.cpp:3189-3221 | a known header changes nothing; a new one becomes a leaf under its parent with the sum of work and without data |
| ChainState.State.LinkFront | src/main.cpp:3242-3258 | one turn of the linking loop keeps the linkage invariant, changes no linked entry and links one more |
| ChainState.State.ReceivedBlockTransactions | src/main.cpp:3224-3267 | exactly this block gains data, everything that waited for it is linked, with numbers not given before; linked entries keep every field and no candidate is lost |
| ChainState.State.AcceptBlockHeader | src/main.cpp:3553-3595 | accepted exactly when known and unmarked, or valid with a known and unmarked parent; only that header is added, without data |
| ChainState.State.AcceptBlock | src/main.cpp:3597-3661 | exactly when the block gains data, when it is marked and what is answered, including the rules for blocks nobody asked for; no other block gains or loses data |
| ChainState.State.IsWanted | src/main.cpp:3609-3628 | processed when asked for, or with more work than the tip and not too far ahead of it |
| ChainState.State.ProcessNewBlock | src/main.cpp:3676-3699 | a block that CheckBlock refuses changes nothing; one that is refused later activates nothing; otherwise the tip is the best there is; the tip never gets worse |
| ChainState.State.Handle | src/main.cpp:3553-3699 | one arrival does exactly what it should to index, data and marks, and leaves the best tip there is with its coins |
| ChainState.State.Run | src/main.cpp:3069-3112 | over any sequence of header and block arrivals and flushes, in any order: the trace holds one state for every prefix, each follows from the one before by that arrival, in each the tip is the best valid chain, no later tip is worse than an earlier one; the tip moves only to strictly more work; of two chains of equal work the one linked in an earlier state, or of two siblings the one whose data came in an earlier state, is preferred in every later state; and the coins are what the blocks of the active chain lead to |
| ChainState.FirstIsPreferred | src/main.cpp:109-128 | between any two states with the best tip: the tip changes only to strictly more work, and never to a block linked later when one of equal work had been linked before |
| ChainState.SiblingIsPreferred | src/main.cpp:3253-3259 | a sibling that had its data before never loses to one of the same work that got it later, although both may be linked in the same call |
| ChainState.NewDataNeedsReason | src/main.cpp:3609-3628 | in any step only the block that arrives gains data, only if both checks pass, and only if it was asked for or has more work than the tip and is at most 288 blocks ahead |
| ChainState.ReasonGivesData | src/main.cpp:3597-3661 | an acceptable block with one of these reasons always gains data |
| ChainState.BestTipUnique | src/main.cpp:109-128 | the index alone determines the best tip, whatever the order of arrival |
| ChainState.State.FlushStateToDisk | src/main.cpp:2647-2740 | at any time: the coins stay those of the tip and the database then holds the same |
| Linkage.ChainTxCountsPath | src/main.cpp:3235-3259 | nChainTx is nonzero exactly when the block and all its ancestors have data, and is then the number of transactions on the whole path |
| Linkage.WaitingIsFiled | src/main.cpp:3260-3264 | a block with data and no failed ancestor that is not linked is in mapBlocksUnlinked under its parent |
| Linkage.LinkStepKeeps | src/main.cpp:3241-3259 | linking the front of the queue and moving its waiting children into it keeps all of that |
| Linkage.LinkKeepsSince | src/main.cpp:3241-3259 | and keeps the order of arrival: a child that waited earlier than a sibling is linked, and numbered, before it |
| Linkage.DataKeepsArriving | src/main.cpp:3226-3264 | so does the arrival of data |
| Linkage.HeaderKeepsArriving | src/main.cpp:3198-3212 | so does a new header |
| Linkage.MarkKeepsArriving | src/main.cpp:1876-1893 | so does a failure mark on a linked block or one without data |
| Coins.TrimmedUnique | src/coins.h:113-118 | the prefix that ends in an unspent output and is followed only by spent ones is unique, and is what Cleanup leaves |
| Coins.Cleanup | src/coins.h:113-118 | leaves that prefix |
| Coins.FromTxIsStable | src/coins.h:120-127 | clearing unspendable outputs a second time changes nothing |
| CoinsLayer.MergeCoinsKeeps | src/coins.cpp:275-308 | merging one child entry changes no answer seen through the child, and the assertion on the FRESH flag holds |
| CoinsLayer.MergeAnchorKeeps | src/coins.cpp:310-333 | the same for an anchor, although its tree is not copied into an existing entry |
| CoinsLayer.MergeNullifierKeeps | src/coins.cpp:335-353 | the same for a nullifier |
| CoinsLayer.StoreCoinsKeeps | src/txdb.cpp:121-129 | the same for a write into the database |
| CoinsLayer.StoreAnchorKeeps | src/txdb.cpp:131-138 | the same for an anchor in the database |
| CoinsLayer.EmptyRootCannotBeRemoved | src/txdb.cpp:72-82 | the database answers for the empty root whatever is stored: a cache that had removed it would not be reproduced |
| CoinsView.CoinsViewDB.BatchWrite | src/txdb.cpp:113-156 | afterwards the database answers as the cache over it did; a null hash leaves the stored one |
| CoinsView.CoinsViewCache.GetCoins | src/coins.cpp:90-106 | answers as the plain map, fetching changes no answer |
| CoinsView.CoinsViewCache.GetAnchorAt | src/coins.cpp:109-130 | the same for anchors |
| CoinsView.CoinsViewCache.GetNullifier | src/coins.cpp:132-144 | the same for nullifiers |
| CoinsView.CoinsViewCache.ModifyCoins | src/coins.cpp:213-232 | hands out the coins of the plain map for modification without changing any answer |
| CoinsView.CoinsViewCache.EndModify | src/coins.cpp:491-503 | the modification replaces exactly this entry of the plain map, a fully spent one disappearing |
| CoinsView.CoinsViewCache.PushAnchor | src/coins.cpp:146-171 | the plain anchors gain the new root and it is the best one; nothing if the root is the current one |
| CoinsView.CoinsViewCache.PopAnchor | src/coins.cpp:173-196 | the plain anchors lose the current root and the given one is the best |
| CoinsView.CoinsViewCache.SetNullifier | src/coins.cpp:198-202 | exactly this nullifier is spent or unspent |
| CoinsView.CoinsViewCache.BatchWrite | src/coins.cpp:269-358 | the parent takes over exactly the answers of the child |
| CoinsView.CoinsViewCache.Flush | src/coins.cpp:360-367 | for a stack of any depth what is below answers every coins, anchor and nullifier query as this cache did; the best block and the best anchor agree exactly when this cache has read or set them or nothing in between has |
| CoinsView.FlushLosesBestBlock | src/coins.cpp:360-367 | a cache that never read its best block, flushed into one that has set it: what was set is lost |
| Undo.RestoreInvertsSpend | src/main.cpp:2200-2224 | putting an output back undoes spending it, also when it was the last one or was trimmed off, and reports clean |
| Undo.RestoreAllInvertsSpendAll | src/main.cpp:1900-1915 | the same for all inputs of a transaction in reverse order |
| Undo.HaveInputsSuffices | src/coins.cpp:428-440 | with pairwise distinct inputs the one check beforehand makes every later spend find its output |
| Undo.ConnectedAreDistinct | src/main.cpp:2456-2564 | a block that connects holds no transaction twice |
| Undo.RepeatIsRefused | src/primitives/block.cpp:18-75 | a block that repeats a transaction, which CheckBlock may let pass, never connects |
| Undo.DisconnectTxInverts | src/main.cpp:2249-2291 | disconnecting a transaction right after connecting it restores the view and reports clean |
| Undo.DisconnectTxsInverts | src/main.cpp:2243-2291 | the same for all transactions of a block, with outputs created and spent inside it |
| Undo.DisconnectInvertsConnect | src/main.cpp:2249-2314 | for a block that passes the checks disconnecting right after connecting restores coins, nullifiers, anchors, best anchor and best block, and reports clean |
| Redo.CleanIffFormer | src/main.cpp:2200-2224 | an output is restored cleanly exactly when there is a former state, from which spending it leads here and writes this very record; and there is no other such state |
| Redo.AllCleanIffFormer | src/main.cpp:2280-2291 | the same for all inputs of a transaction |
| Redo.MatchMeans | src/main.cpp:2253-2270 | the outputs found match those of the transaction exactly when replacing them by those of the transaction changes nothing |
| Redo.TxCleanIffFormer | src/main.cpp:2249-2291 | a transaction is disconnected cleanly exactly when connecting it again to the outcome leads back and writes the same undo record |
| Redo.ReconnectAfterClean | src/main.cpp:2226-2314 | if all transactions of a block are disconnected cleanly, connecting them again gives back the coins and the very undo data used: the converse of disconnecting inverting connecting |
| Undo.AnchorIsNew | src/main.cpp:2563-2564 | a tree that has grown is not an anchor yet, so popping takes out exactly what pushing put in |
| Undo.ConnectKeepsSane | src/main.cpp:2508-2564 | connecting keeps what the inverse needs, so it holds along every chain of blocks |
| BlockConnection.UpdateCoins | src/main.cpp:1895-1927 | the caches follow the plain maps, the assertion on spending holds and the undo record is that of the plain maps; output by output, the inputs are gone and exactly the spendable outputs of the transaction are new, with its height, version and coinbase flag, and nothing else changes |
| BlockConnection.CheckNoOverwrite | src/main.cpp:2456-2461 | true exactly when no transaction of the block overwrites unspent coins |
| BlockConnection.ConnectTransactions | src/main.cpp:2508-2564 | succeeds exactly when every transaction finds its inputs and fresh nullifiers when its turn comes; a repeated one does not |
| BlockConnection.ConnectBlock | src/main.cpp:2425-2632 | succeeds exactly on the blocks the plain rules allow, and then the cache is the plain result and the undo data belong to it; output by output, what can be spent afterwards is what a transaction of the block created, or was there before, and none of the later ones spent; nullifiers are those before and those revealed; the commitments are appended in block order |
| BlockConnection.ApplyTxInUndo | src/main.cpp:2200-2224 | the caches follow the plain maps; reports clean exactly as they do |
| BlockConnection.DisconnectBlock | src/main.cpp:2226-2314 | refuses undo data of the wrong shape; reports clean exactly when everything matched, and then the result is the plain one |
| BlockConnection.ConnectTip | src/main.cpp:2872-2888 | a block is applied to the tip view as a whole, with the effect just described, or not at all |
| Effects.FromTxEffect | src/coins.h:89-95 | of the outputs of a transaction exactly those that can ever be spent are kept, unchanged, at their own index |
| Effects.ConnectTxEffect | src/main.cpp:1895-1927 | output by output and nullifier by nullifier what a transaction changes, without naming the function that changes it |
| Effects.OutputsAfter | src/main.cpp:2508-2564 | for all transactions of a block together: an output can be spent afterwards exactly when it was created in the block or there before, and not spent in it, with the data it was created with |
| Effects.NullifiersAfter | src/main.cpp:2508-2564 | a nullifier is there afterwards exactly when it was there before or some transaction reveals it |
| Effects.CommitmentsInOrder | src/main.cpp:2551-2564 | the tree grows by every commitment of every transaction, each at the place given by the number of those before it |
| Effects.ConnectBlockEffect | src/main.cpp:2425-2632 | all of this for a block that passes the checks |
| BlockConnection.DisconnectTip | src/main.cpp:2795-2845 | likewise in the other direction |
| BlockConnection.ConnectAndDisconnect | src/main.cpp:2795-2919 | through the stack of caches: connect and disconnect, and the tip view gives every answer it gave before |
| Ledger.LedgerSane | src/main.cpp:2425-2632 | the fold of ConnectBlock over a chain of blocks is sane and names its last block, for every chain |
| Ledger.LedgerStep | src/main.cpp:2425-2632 | every block changes the ledger of its parent with exactly that effect |
| Ledger.CoinComesFrom | src/main.cpp:2508-2564 | an output that can be spent after a chain was there at the start or was created by one of its blocks, with the value, height and flags found there, and no block has spent it since |
| Ledger.CoinStays | src/main.cpp:2508-2564 | an output that a block of the chain created stays until a block spends it |
| Ledger.LedgerHolds | src/main.cpp:2508-2564 | both together: the unspent outputs after any valid chain, characterised by its blocks alone |
| CoinsTip.Tip.Connect | src/main.cpp:2857-2919 | from the coins of a chain: succeeds exactly when the longer chain is valid, and then gives its coins; otherwise nothing changes |
| CoinsTip.Tip.ConnectGenesis | src/main.cpp:2442-2452 | the genesis block changes nothing but the best block |
| CoinsTip.Tip.Disconnect | src/main.cpp:2795-2845 | with the undo data written before it never fails and gives the coins of the parent |
| CoinsTip.Tip.Flush | src/main.cpp:2722-2730 | the database holds the coins of the chain and the cache still answers the same |
| AddrMan.Manager.Create | src/addrman.cpp:87-97 | the new entry is in mapInfo, mapAddr and at the end of vRandom, and all indexes still agree |
| AddrMan.Manager.SwapRandom | src/addrman.cpp:99-117 | what its assertions demand is all it needs: two places are exchanged, and their entries know it |
| AddrMan.Manager.Delete | src/addrman.cpp:119-131 | from exactly what it asserts and the place in vRandom: the tables without the entry |
| AddrTables.SwapKeepsAgree | src/addrman.cpp:99-117 | exchanging two places keeps all indexes in agreement and changes no entry but for its place |
| AddrTables.DeletedKeepsAgree | src/addrman.cpp:119-131 | taking out an entry without references keeps all indexes in agreement and changes no other entry but for its place |
| AddrMan.Manager.ClearNew | src/addrman.cpp:133-146 | the slot is free, its entry has one reference less and is gone exactly if that was the last |
| AddrMan.Manager.EvictTried | src/addrman.cpp:162-188 | the evicted tried address stays in the manager with one reference in its new bucket; at most one other entry makes room |
| AddrMan.Manager.MakeTried | src/addrman.cpp:148-194 | no assertion fails, the entry is tried with its statistics unchanged and has its slot in the tried table; whoever was there is now at the place of the new table chosen by its own address and source; only these and one that makes room change |
| AddrMan.Manager.FindBucket | src/addrman.cpp:222-237 | the search through all buckets finds one: the bail-out after it is unreachable |
| AddrMan.Manager.Good | src/addrman.cpp:196-243 | a known service is tried afterwards with fresh statistics, no tried address leaves, at most one other is lost; an unknown service changes nothing |
| AddrMan.Manager.PlaceInNew | src/addrman.cpp:289-309 | the entry gets its hashed slot exactly when that is free, its own or held by one that can go; without any reference it is dropped |
| AddrMan.Manager.Add | src/addrman.cpp:245-311 | tells exactly whether a routable address was unknown; it is kept exactly when its slot has room, then with one reference in that slot and the time reduced by the penalty; a known one is refreshed; no tried address is lost |
| AddrMan.AddedButDropped | src/addrman.cpp:300-311 | an address whose slot is held by an entry that cannot go is reported as new and is not there |
| AddrMan.Manager.Attempt | src/addrman.cpp:313-330 | changes exactly the entry of this service |
| AddrMan.Manager.Connected | src/addrman.cpp:495-513 | changes the time of exactly this service, and only if it is more than twenty minutes old |
| AddrMan.Manager.GetAddr | src/addrman.cpp:474-493 | hands out exactly the least of 23 in a hundred, 2500 and the number of entries that are not terrible; no address twice, none that is terrible; vRandom is only permuted |
| AddrMan.HandedCount | src/addrman.cpp:480-492 | walking the whole of vRandom hands out as many as there are entries that are not terrible |
| AddrTables.TerribleExactly | src/addrman.cpp:32-50 | when an entry is terrible, in seconds and failures, and that there is no other reason |
| AddrMan.RefreshedTimeIs | src/addrman.cpp:254-259 | a known time never goes back, changes only by more than the update interval, and is afterwards no further behind than that |
| AddrMan.Manager.Check | src/addrman.cpp:397-471 | answers 0 exactly when the key is set and everything it tests holds; changes nothing in a valid state; an address missing for id 0 is inserted unnoticed |
| AddrCheck.PassesMeans | src/addrman.cpp:397-471 | what passes is everything the manager relies on, up to addresses in mapAddr that no entry has and ids beyond the counter |
| AddrCheck.TickingEnds | src/addrman.cpp:436-448 | the tried slots tick off every tried entry exactly when the tried table is right |
| AddrCheck.CountingEnds | src/addrman.cpp:450-461 | counting references down ends with nothing left exactly when the new table and all counts are right |
| AddrMan.Manager.Clear | src/addrman.h:442-460 | mapInfo and mapAddr stay: the result is consistent exactly when both were empty, and passes the check exactly when there was no entry |
| AddrMan.ClearedIsInconsistent | src/addrman.h:442-460 | a manager that holds one address fails its own check after Clear |
| AddrMan.Run | src/addrman.cpp:397-471 | over every run of Add_, Good_, Attempt_, Connected_ and GetAddr_ from the empty manager: the trace holds the tables before and after every call, each step is what that call does, all indexes always agree, and the check after every call answers accordingly |
| AddrMan.Perform | src/addrman.cpp:196-330 | each call does exactly what it should, loses at most one address, and never a tried one |
| AddrPersistence.Serialize | src/addrman.h:282-329 | neither assertion on the counters fails; the file lists every entry once and every occupied slot under its bucket |
| AddrPersistence.Unserialize | src/addrman.h:332-435 | refused exactly when key size or counts are out of range; whatever the bucket lists say the loaded manager is consistent exactly when the file replaces every entry and address that was there before, and passes the check exactly when it replaces every entry; then a file of some tables gives those tables under new ids |
| AddrLeftovers.LoadedIffGone | src/addrman.h:360-425 | with entries from before left over, all indexes agree exactly when none of them and none of their addresses is left |
| AddrLeftovers.PassesIffReplaced | src/addrman.h:360-432 | the check notices entries that are left over, but not addresses |
| AddrPersistence.LoadedOverItself | src/addrman.h:332-435 | a manager with one new address, loaded over itself from its own file, fails its check |
| AddrPersistence.NothingToReplace | src/addrman.h:332-435 | loading into an empty manager replaces everything |
| AddrPersistence.FilesAreSmall | src/addrman.h:352-358 | a saved state never exceeds the limits checked on loading |
| AddrPersistence.FilesAreConsistent | src/addrman.h:282-329 | no address is in a saved file twice and no two of its tried entries want the same slot |
| AddrPersistence.RoomForReference | src/addrman.h:407-413 | the cap on references never turns away a reference that was there before |
| AddrPersistence.SaveAndLoad | src/addrman.h:282-435 | saving and loading into a new manager loses no address and restores the same new and tried slots and counters up to renaming of ids |
| CheckQueue.ExecuteKeeps | src/checkqueue.h:121-124 | executing one check keeps the protocol invariant and brings the end nearer |
| CheckQueue.FinishKeeps | src/checkqueue.h:80-85 | so does reporting a batch, with the notification of the master |
| CheckQueue.TakeKeeps | src/checkqueue.h:110-119 | so does taking a batch |
| CheckQueue.ReturnKeeps | src/checkqueue.h:91-100 | when the master returns nothing is outstanding, the result is whether every check of the round passes, and the queue is ready for the next round |
| CheckQueue.MasterCanGoOn | src/checkqueue.h:91-104 | as long as Wait has not returned some productive step is possible, without a spurious wake-up |
| CheckQueue.Queue.Decide | src/checkqueue.h:91-119 | return, wait or take a batch, exactly as the protocol has it |
| CheckQueue.BatchSize | src/checkqueue.h:105-110 | the largest number within the limit and an equal share of the queue for every thread, total and idle, but at least one |
| CheckQueue.Queue.Finish | src/checkqueue.h:80-119 | one report: nTodo stays equal to queued plus batched checks, nIdle and nTotal exact, the master is notified of the last one |
| CheckQueue.Queue.Resume | src/checkqueue.h:101-104 | waking up, notified or not, keeps all of it |
| CheckQueue.Queue.Enter | src/checkqueue.h:69-89 | so does coming in |
| CheckQueue.Queue.Add | src/checkqueue.h:146-158 | exactly these checks are added, one worker is notified or all are, and with any worker started one is awake |
| CheckQueue.Queue.IsIdle | src/checkqueue.h:164-168 | holds after Wait until something is added, whatever the workers do: the assertion of the next control holds |
| CheckQueue.Queue.Perform | src/checkqueue.h:69-158 | one step of an interleaving is a step of the protocol and keeps its invariant; a step that is not possible is skipped |
| CheckQueue.NextKeeps | src/checkqueue.h:69-158 | every step of the protocol keeps the invariant; an answer is that of all checks of the round; no step but adding checks takes the end away, and productive ones bring it nearer |
| CheckQueue.EveryRun | src/checkqueue.h:69-168 | over every interleaving of a master and any number of workers the invariant holds in every state, and each Wait that returns is true exactly when all checks added since the answer before pass |
| CheckQueue.WaitEnds | src/checkqueue.h:136-140 | in every interleaving, once the master waits, Wait has returned after as many productive steps as there is work |
| CheckQueue.Run | src/checkqueue.h:69-168 | running any interleaving on a new queue: one state and one outcome for every step, each a step of the protocol, and every answer right |
| PartialMerkle.WidthIff | src/merkleblock.h:66-68 | a node exists at a height exactly when its first leaf does |
| PartialMerkle.SiblingsDiffer | src/merkleblock.cpp:121-125 | with an injective node hash and distinct transactions siblings never have the same hash, so the check for that never fires on a true tree |
| PartialMerkle.BuildSize | src/merkleblock.h:36-40 | a traversal stores at most one hash for every leaf and at most one and the height for every wanted leaf |
| PartialMerkle.ExtractInvertsBuild | src/merkleblock.cpp:80-132 | extracting what was built gives the hash of the node and exactly the wanted leaves in order, and uses up exactly what was stored |
| PartialMerkle.ExtractIsAuthentic | src/merkleblock.cpp:98-132 | whatever bits and hashes are given: if the hash of a node comes out right every match is a leaf below it, at increasing positions |
| PartialMerkleTree.PackBits | src/merkleblock.h:100-102 | bit by bit the bytes hold the flags, padded with zeros |
| PartialMerkleTree.UnpackBits | src/merkleblock.h:95-97 | reads every bit of every byte |
| PartialMerkleTree.BitIsShift | src/merkleblock.h:95-97 | which bit of a byte is meant: the one that many places above the least significant |
| PartialMerkleTree.UnpackInvertsPack | src/merkleblock.h:91-104 | what comes back is what was sent with less than a byte of padding |
| PartialMerkleTree.RoundTrip | src/merkleblock.cpp:134-181 | for every block of at most MAX_BLOCK_SIZE / 60 transactions the packed tree is accepted and gives the true root and exactly the wanted transactions |
| PartialMerkleTree.HashesBound | src/merkleblock.h:36-40 | both documented bounds on the number of hashes |
| PartialMerkleTree.BitsBound | src/merkleblock.h:47 | the documented bound of 2N - 1 bits is kept exactly when no wanted transaction is below a node with a single child |
| PartialMerkleTree.BitsBoundExceeded | src/merkleblock.h:47 | three transactions of which the last is wanted exceed it |
| MerkleSize.SizeBound | src/merkleblock.h:34 | the documented size is kept exactly when the two lengths and the bytes of single children take at most six bytes: always below 253 hashes, and never missed by more than one byte for eight levels |
| MerkleSize.OneLonePerLevel | src/merkleblock.h:34 | at most one node on every level has a single child |
| MerkleSize.SizeBoundExceeded | src/merkleblock.h:34 | a block of 1025 transactions, all wanted, exceeds it by one byte |
| PartialMerkleTree.Authentic | src/merkleblock.cpp:150-181 | for the same number of transactions anything accepted with the true root gives only transactions of the block, at increasing positions |
| PartialMerkleTree.TreeHeight | src/merkleblock.cpp:139-142 | the least height with a single node |
| PartialMerkleTree.Tree.TraverseAndBuild | src/merkleblock.cpp:80-96 | appends exactly the encoding of the node |
| PartialMerkleTree.Tree.TraverseAndExtract | src/merkleblock.cpp:98-132 | computes exactly the extraction, failures included |
| PartialMerkleTree.Tree.ExtractMatches | src/merkleblock.cpp:150-181 | root and matches when everything is in order, the null hash otherwise |
| PartialMerkleTree.AcceptedIsComplete | src/merkleblock.cpp:171-180 | an accepted tree uses everything: with a hash or a byte of flags added it is refused, and padding within the last byte is all that may differ |
| PartialMerkleTree.SendAndExtract | src/merkleblock.cpp:63-181 | building, sending, receiving and extracting gives the true root and exactly the wanted transactions |
| PartialMerkleTree.ExtractFor | src/merkleblock.cpp:150-181 | accepts exactly when everything is in order and the root is that of the block and not null, and then yields only transactions of the block |
| MerkleTree.BuildMerkleTree | src/primitives/block.cpp:18-79 | all levels, the root and whether some level ends in twins |
| MerkleTree.SameRoot | src/primitives/block.cpp:18-79 | the root of a block is the root that partial trees are checked against |
| MerkleTree.UnmutatedIsUnique | src/primitives/block.cpp:20-54 | what the test for mutation is for: two lists that pass it and have the same root are the same list |
| MerkleTree.SameHeightSameRoot | src/primitives/block.cpp:20-54 | of two lists with equally many levels and the same root the longer one has twins at the end of a level |
| MerkleTree.AmbiguousHasShorter | src/primitives/block.cpp:20-54 | a level of more than two hashes that ends in twins means that a proper beginning of the list has the same root |
| MerkleTree.SharedRootExactly | src/primitives/block.cpp:20-54 | a list shares its root with a shorter one exactly when a level of more than two hashes ends in twins |
| MerkleTree.MutatedExactly | src/primitives/block.cpp:61-74 | the test fails exactly then, or when the two hashes below the root are the same |
| MerkleTree.DistinctIsUnmutated | src/primitives/block.cpp:20-54 | a block without repeated transactions always passes the test |
| MerkleTree.GetMerkleBranch | src/primitives/block.cpp:81-95 | reads the sibling on every level out of the stored tree |
| MerkleTree.CheckMerkleBranch | src/primitives/block.cpp:97-110 | climbs from a hash to a root, or gives the null hash for no index |
| MerkleTree.BranchProves | src/primitives/block.cpp:81-110 | the branch of every transaction leads to the root |
| MerkleTree.BranchIsAuthentic | src/primitives/block.cpp:97-110 | whatever leads to the root from a place in the block, over as many hashes as there are levels, starts at the transaction there |
| Arith256.Uint.Add | src/arith_uint256.h:135-145 | addition modulo 2^256, also of a number to itself |
| Arith256.Uint.Not | src/arith_uint256.h:69-75 | the complement is 2^256 - 1 - a |
| Arith256.Uint.Negated | src/arith_uint256.h:77-84 | negation modulo 2^256 |
| Arith256.Uint.Sub | src/arith_uint256.h:147-151 | subtraction modulo 2^256 |
| Arith256.Uint.Increment | src/arith_uint256.h:173-180 | plus one modulo 2^256, the carry stopping at the first limb that is not full |
| Arith256.Uint.Decrement | src/arith_uint256.h:190-197 | minus one modulo 2^256 |
| Arith256.Uint.ShiftLeft | src/arith_uint256.cpp:22-37 | multiplication by a power of two modulo 2^256, for every shift |
| Arith256.Uint.ShiftRight | src/arith_uint256.cpp:39-54 | the floor of the division by a power of two, for every shift |
| Arith256.Uint.Mul32 | src/arith_uint256.cpp:56-66 | the product modulo 2^256; no 64-bit sum overflows |
| Arith256.Uint.Mul | src/arith_uint256.cpp:68-82 | the product modulo 2^256, and 0 for a number multiplied in place by itself; no 64-bit sum overflows |
| Arith256.Uint.Times | src/arith_uint256.h:212 | the product modulo 2^256 of any two numbers, a number and itself included |
| Arith256.Uint.SquareInPlace | src/arith_uint256.cpp:68-82 | a number multiplied in place by itself is right exactly for the multiples of 2^128 |
| Arith256.SquareOfOneIsLost | src/arith_uint256.cpp:68-82 | one times one in place gives zero |
| Arith256.Uint.Div | src/arith_uint256.cpp:84-109 | exactly the floor of the quotient for every nonzero divisor; division by zero is refused |
| Arith256.Uint.CompareTo | src/arith_uint256.cpp:111-121 | the sign of the difference |
| Arith256.Uint.Bits | src/arith_uint256.cpp:172-184 | the position of the highest bit plus one |
| Compact.SetCompact | src/arith_uint256.cpp:204-222 | the number modulo 2^256; negative and overflow flags exact |
| Compact.Fields | src/arith_uint256.cpp:206-213 | the three fields make up the word, and the sign is the highest bit of the lower three bytes |
| Compact.OverflowExact | src/arith_uint256.cpp:217-220 | the overflow flag is set exactly when the number does not fit in 256 bits |
| Compact.GetCompact | src/arith_uint256.cpp:224-245 | its two assertions hold; the encoding is that of the leading bytes |
| Compact.DecodeInvertsEncode | src/arith_uint256.cpp:204-245 | decoding what was encoded only clears low-order bytes and sets no flag |
| Compact.EncodePrecision | src/arith_uint256.cpp:224-245 | numbers below 2^23 are encoded exactly, all others with a relative error of at most 2^-15, never upwards |
| Compact.EncodeIdempotent | src/arith_uint256.cpp:224-245 | encoding again gives the same |
| ProofOfWork.GetBlockProof | src/pow.cpp:126-139 | for valid bits exactly the floor of 2^256 / (target + 1), which is at least one; zero otherwise |
| ProofOfWork.MedianAtLeast | src/chain.h:330-342 | the median is at least m exactly when at most half of the times are below m |
| ProofOfWork.GetMedianTimePast | src/chain.h:330-342 | the middle of the last eleven times, or of all if there are fewer: at most half of them are earlier and more than half are not later |
| ProofOfWork.MedianIsMiddle | src/chain.h:330-342 | counted on the headers themselves, without sorting |
| ProofOfWork.MedianNeverDecreases | src/main.cpp:3473-3476 | a header later than the median before it does not make the median earlier |
| ProofOfWork.CalculateNextWorkRequired | src/pow.cpp:46-78 | in 256-bit arithmetic, in compact form: the average target divided by the intended span and multiplied by the one that deviates from it by a quarter of the measured deviation, rounded toward zero, or by the nearer limit; at most the limit of targets |
| ProofOfWork.DampedIs | src/pow.cpp:51-60 | the damped span by what it is: the intended one plus a quarter of the deviation, moved to the nearest value between the limits |
| ProofOfWork.TargetSumIs | src/pow.cpp:27-36 | the sum of the window is the sum of the targets of its headers and does not wrap |
| ProofOfWork.GetNextWorkRequired | src/pow.cpp:19-44 | the same from the window of a chain of headers; the limit while there are too few |
| ProofOfWork.EveryTargetWithinLimit | src/pow.cpp:68-69 | along every accepted chain no target exceeds the limit |
| ProofOfWork.MediansGrow | src/main.cpp:3473-3476 | along every accepted chain median time past never decreases |
| ProofOfWork.RetargetingIsExact | src/pow.cpp:19-78 | along every accepted chain: the average is that of the targets of the last headers, with no wrapping sum; the time span is measured between two middles of eleven times and is not negative; its deviation is damped to a quarter and limited; the product does not wrap; and the next bits are those of the exact result or of the limit |
| ProofOfWork.MainParamsOk | src/chainparams.cpp:46-51 | the main network parameters satisfy what this needs; the spans are 2550 seconds, limited to 2142 and 3366 |
| Base58.ConvertBack | src/base58.cpp:29-108 | converting digits from one base to the other and back is the identity, leading zeros included |
| Base58.EncodeBufferSuffices | src/base58.cpp:84 | the estimate 138/100 suffices for every length |
| Base58.DecodeBufferSuffices | src/base58.cpp:41 | the estimate 733/1000 suffices for every length |
| Base58.ConvertDigits | src/base58.cpp:85-99 | no assertion on the carry fails; the buffer ends up with the digits of the number |
| Base58.EncodeBase58 | src/base58.cpp:73-108 | the text of the bytes |
| Base58.DecodeBase58 | src/base58.cpp:29-71 | accepts exactly one word over the alphabet with blanks around it, and gives its bytes |
| Base58.DecodeInvertsEncode | src/base58.cpp:29-108 | decoding inverts encoding on every byte string |
| Base58.EncodeInvertsDecode | src/base58.cpp:29-108 | encoding inverts decoding on every word over the alphabet |
| Base58.EncodeBase58Check | src/base58.cpp:120-127 | the text of the bytes and four bytes of their hash |
| Base58.DecodeBase58Check | src/base58.cpp:129-144 | accepts exactly the texts that some bytes and their checksum encode to, and gives those bytes |
| VarInt.WriteVarInt | src/serialize.h:347-362 | the encoding of the number |
| VarInt.ReadVarInt | src/serialize.h:364-376 | reads any encoding that stands there, whatever follows, and what it read is the encoding of what it returns |
| VarInt.ReadWritten | src/serialize.h:347-376 | reading inverts writing, and only the last byte ends a number |
| VarInt.WrittenRead | src/serialize.h:319-324 | every natural number has exactly one encoding |
| VarInt.ReadWord | src/serialize.h:364-376 | into a word of fixed width: the number modulo 2^width; the bytes are the encoding of what is returned exactly when the number fits |
| VarInt.TwoZeros | src/serialize.h:364-376 | a reader of 32-bit words takes two different byte strings for zero |
| CoinsCodec.CalcMaskSize | src/coins.cpp:18-34 | the number of mask bytes up to the last used one, and how many of them are used |
| CoinsCodec.MaskBit | src/coins.h:192-198 | a bit of the mask is set exactly when its output is available |
| CoinsCodec.StorableHasCode | src/coins.h:185 | the assertion in Serialize holds for everything that is not fully spent |
| CoinsCodec.Serialize | src/coins.h:180-206 | the stored form |
| CoinsCodec.Unserialize | src/coins.h:208-240 | whatever follows, exactly what was stored is read back and nothing more |
| CoinsCodec.ReadMask | src/coins.h:219-230 | the reader stops after exactly the mask bytes that were written |
| CoinsCodec.StoreAndLoad | src/coins.h:180-240 | storing and loading gives the same coins for every trimmed entry that is not fully spent |
| OutputCodec.CodecIsSound | src/compressor.h:112-128 | amount compressed and written as a variable-length integer, then the rest: every output with a valid amount is read back |
| OutputCodec.StoreAndLoadCoins | src/coins.h:180-240 | storing and loading an entry, down to the codes of its amounts |
| Amounts.Bijection | src/compressor.cpp:142-185 | compressing and decompressing are inverse to each other on all natural numbers |
| Amounts.CompressAmount | src/compressor.cpp:142-159 | in 64-bit words: the code modulo 2^64, exact whenever it fits, as for every amount up to MAX_MONEY |
| Amounts.DecompressAmount | src/compressor.cpp:161-185 | in 64-bit words: the amount modulo 2^64, exact whenever it fits |
| Amounts.CompressAndDecompress | src/compressor.cpp:142-185 | every amount up to MAX_MONEY survives both in 64-bit words |
| Amounts.KnownCodes | src/test/compress_tests.cpp:42-47 | the codes of the round amounts that the tests list |
| Subsidy.RampTotal | src/main.cpp:1720-1728 | the ramp pays in total at most what as many full rewards would as remain after the shift, and exactly that when it divides the reward evenly |
| Subsidy.IssuedExactly | src/main.cpp:1730-1739 | after the ramp the total is at most that of a schedule without a ramp that began Shift() blocks later, and exactly that, up to the height 0 without a ramp, when the ramp divides the reward evenly |
| Subsidy.IssuanceBound | src/main.cpp:1713-1739 | with any ramp that ends before the first halving, or none, the total up to any height is at most two full rewards for every block of a halving period |
| Subsidy.SupplyLimit | src/amount.h:19-20 | on the main network the supply never exceeds MAX_MONEY |
| Subsidy.GetBlockSubsidy | src/main.cpp:1713-1739 | on the ramp the share of the full reward in whole steps, and after it the full reward halved once for every period begun, down to zero; the assertion fails exactly at height 0 without a ramp |
| Subsidy.SubsidyIs | src/main.cpp:1713-1739 | the same about the function that the sums are of |
| Subsidy.TotalSupply | src/main.cpp:1713-1739 | the main network issues exactly 20999999.9076 coins: from height 26050000 on that is the total, and before it is less |
| Subsidy.RegtestGenesis | src/chainparams.cpp:224-225 | with the parameters of the regression test network the assertion fails at height 0 |

## Left out

- Network messages, the memory pool, fee policy, wallets, command line and user interface: input and output around the core.
- Disk files, LevelDB, the side indexes, pruning and the timing of flushes: a block with data keeps it, undo data that was written is read back, and writing never fails.
- System errors and possible corruption while connecting a block: a block either connects or is invalid, once and for all.
- InvalidateBlock and ReconsiderBlock: manual overrides.
- Scripts, signatures, Equihash, zero-knowledge proofs and the inside of the commitment tree: a commitment tree is the sequence of its commitments and its root determines it.
- The anchor requirements of JoinSplits, sigop limits, lock times and the coinbase value rule in ConnectBlock: `BlockConnection` models the checks on inputs, overwriting and nullifiers only.
- Lines 2292-2309 of src/main.cpp, which use variables of a loop that has ended, and the assignment to a field in ClearUnspendable that an output does not have.
- Validity levels other than failed and having data, and pindexBestHeader and pindexBestInvalid: they decide nothing that is modelled.
- Pointers are addresses drawn from the natural numbers; the fields of a block index entry are split into those that never change and those that do.
- ChainState.State.ConnectTip: the rules that are not about coins, nullifiers and anchors are one fixed verdict on each block, checked before the coins rather than among them.
- ChainState.State.AcceptBlock: a block refused by ContextualCheckBlock is one that these other rules refuse; CheckBlock has passed before and passes again; every header has positive work, as `ProofOfWork.GetBlockProof` shows for valid bits.
- CoinsView.CoinsViewCache.OnCache: a parent must not be written or flushed under a live child; its methods need the child to be gone.
- Select_ and GetChance in the address manager: floating point.
- The inside of the bucket hashes: GetTriedBucket, GetNewBucket and GetBucketPosition are arbitrary functions of key and address with the right ranges.
- AddrPersistence.Unserialize: reads files whose records are complete and hold no address twice; a stream that ends early, and the byte encoding of a record, are not modelled.
- Undo.TxsWellFormed: two transactions of a block with the same hash are the same transaction; a hash collision is not modelled.
- Redo.ReconnectAfterClean: is about undo records as they are written and versions that are not negative, as CheckTransaction demands.
- MerkleTree.UnmutatedIsUnique: the hash of nodes has no collisions, and no transaction hash is the hash of a node.
- CheckQueue: fQuit is never set in the program, so workers never leave; the destructor of a control that was not waited for calls Wait.
- PartialMerkleTree.Tree.Of: needs at least one transaction, without which the program would read past the end of the list.
- Compact.SetCompact: makes a new number instead of overwriting one.
- ProofOfWork.CalculateNextWorkRequired: takes the parameters to be in the range stated by `Params.Ok`, in which the conversion of the time span to 32 bits is harmless.
- Compression of scripts, and the content and lock time of an output: `OutputCodec` takes any sound codec for what follows the amount.
- VarInt.ReadVarInt: unbounded; words of fixed width are in `VarInt.ReadWord`, which models unsigned ones only.
- Base58.DecodeBase58: a string is what precedes the null character.
- bloom.cpp, mruset.h, limitedmap.h, alert.cpp and asyncrpcqueue.cpp: they would only add easy members.
