# Proofs about AokChain

Models of the data structures and protocols at the core of AokChain, with proofs of what they promise for every
input, every sequence of operations or every interleaving.

- `Coins.dfy`, `CoinsCache.dfy`: the layered cache of unspent outputs, as a stack of write-back caches over a
  database, against a stack of plain maps.
- `Mempool.dfy`, `BlockAssembly.dfy`, `AssemblyWitnesses.dfy`: the selection of transactions for a block by ancestor
  packages.
- `AddrTables.dfy`, `AddrManager.dfy`, `AddrCheck.dfy`, `AddrFile.dfy`: the address manager, its consistency check and
  its file.
- `CheckQueue.dfy`: the master and the workers that verify scripts, as a state machine whose steps are the sections
  under the mutex.
- `MerkleTree.dfy`, `PartialMerkle.dfy`, `MerkleRoot.dfy`: partial Merkle trees (section "Partial Merkle branch
  format" of BIP 37) and the constant-space Merkle root.
- `Bits.dfy`, `Limbs.dfy`, `ArithUint.dfy`, `ArithShift.dfy`, `ArithDiv.dfy`, `Compact.dfy`: 256-bit arithmetic over
  32-bit limbs, compact targets and the work of a block.
- `SkipHeights.dfy`, `Chain.dfy`: the tree of block headers with its skip list, and the active chain.
- `Cuckoo.dfy`, `RollingBloom.dfy`: the cuckoo cache and the rolling bloom filter.
- `Radix.dfy`, `Base58.dfy`, `Addresses.dfy`: base58 strings and addresses.
- `BlockEncodings.dfy`, `CompactPlaces.dfy`, `CompactBlocks.dfy`: compact blocks.
- `Options.dfy`: values that may be missing.

Classes, loops and in-place updates of the source are classes, loops and updates here; expressions are functions.
Vectors and maps of the source are sequences and maps held in fields; buffers that loops work on are arrays. The two
tables of the address manager are maps from bucket and position, where a missing key is the -1 of the source. Hash
functions, clocks, random numbers, the fee filter and finality tests are parameters or arbitrary choices.

Where the code and its own comments differ, the model follows the code:

- `src/merkleblock.h` bounds the bits of a partial tree by twice the hashes less one. `PartialMerkle.StoredBitsIff`
  says when that holds, `PartialMerkle.TooManyBits` gives a tree for which it does not.
- `src/consensus/merkle.cpp` speaks of 2^32 leaves. With more than 2^31 the counter wraps around to 0 and the loops
  that test its bits run past the end of their array; `MerkleComputation.ComputeMerkleRoot` comes to an end if and only
  if there are no more.
- `src/cuckoocache.h` says that the first exchange is at the first location. It is at the second
  (`Cuckoo.NextLocation`).
- `src/addrman.h` says that only ClearNew deletes entries. Add_ deletes a new entry that found no room, and reading a
  file deletes entries in no bucket.
- `src/miner.h` subtracts modified fees when an entry is first made and plain fees later, so a priority delta of an
  included ancestor can stay in the sums (`BlockAssembly.FeesExactIff`, `AssemblyWitnesses.PriorityLeaks`). An entry
  that failed and is made anew counts ancestors that are in the block (`BlockAssembly.RecreatedExcess`,
  `AssemblyWitnesses.RecreatedTooLarge`).
- In `src/arith_uint256.cpp`, `x *= x` clears its operand (`ArithUint.MulSelfAssign`).
- In `src/blockencodings.h` the offset of the reader wraps at 16 bits (`BlockEncodings.IndexesIncreaseIff`,
  `BlockEncodings.IndexesWrap`).
- In `src/blockencodings.cpp` places have 16 bits although messages of up to 200000 transactions are accepted
  (`CompactPlaces.PlacesRightIff`, `CompactBlocks.WideBlock`), the search for an empty place does not end when 2^16
  transactions are prefilled (`CompactBlocks.PartiallyDownloadedBlock.NextSpot`), and the count of extra transactions
  can go below zero (`CompactPlaces.ExtraCountIff`, `CompactPlaces.ExtraUnderflow`).
- Check_ in `src/addrman.cpp` looks addresses up with an operator that takes a missing one for 0
  (`AddrCheck.ValidIff` says what it leaves open).
- In `src/coins.cpp`, a refused AddCoin has already lowered the memory account, and a flush with a null best block
  overwrites the one below (`CoinMaps.FlushBest`).

## Model

| member | source | states |
|---|---|---|
| `CoinMaps.OverlayStore` | src/coins.cpp:78-97 | Storing an entry shows its coin, or no coin when spent, and nothing else; the flags stay meaningful exactly when the new entry is FRESH only over no unspent coin and clean only if it agrees with the parent |
| `CoinMaps.OverlayErase` | src/coins.cpp:211-243 | Dropping a FRESH entry takes its coin out of the view; dropping a clean one does not show |
| `CoinMaps.StoreClean` | src/coins.cpp:59-65 | Caching a coin of the parent changes no view and keeps the flags meaningful |
| `CoinMaps.MergePresentsChild` | src/coins.cpp:276-330 | Writing a child cache into its parent gives the parent the child's view, keeps every flag meaningful, and never meets a misapplied FRESH flag |
| `CoinMaps.WrittenPresentsChild` | src/txdb.cpp:93-150 | Writing a cache into the database makes the database equal to the view of the cache |
| `CoinMaps.UsageStore` | src/coins.cpp:92-96 | The memory account changes by the new coin less the one it replaces |
| `CoinMaps.FlushBest` | src/coins.cpp:266-270 | Flushing a cache with a null best block wipes the one of the cache below: the best block survives exactly when there was none to lose |
| `CoinsCache.CoinsDB.BatchWrite` | src/txdb.cpp:93-150 | For every order of the hash map and every division into batches, the dirty entries are written or erased and the best block is set; every state on disk before the last batch has no best block, the two heads, and part of the entries written |
| `CoinMaps.InterruptedRecovers` | src/txdb.cpp:93-150 | After a write that was cut short anywhere, every coin is as before or as it should become, the heads still name both blocks, the same write is accepted again, and it completes what was begun |
| `CoinsCache.CoinsViewCache.FetchCoin` | src/coins.cpp:52-67 | No view at any level changes; a coin pulled up is stored clean, so the FRESH branch is never taken; every coin of the view is found |
| `CoinsCache.CoinsViewCache.GetCoin` | src/coins.cpp:69-76 | Returns the coin of the plain map at this level, if and only if there is one |
| `CoinsCache.CoinsViewCache.HaveCoin` | src/coins.cpp:256-259 | True exactly for the outpoints of the plain map at this level |
| `CoinsCache.CoinsViewCache.AddCoin` | src/coins.cpp:78-97 | The view gains the coin; the cache stays valid exactly when the caller's promise about overwriting holds; a refusal changes nothing but leaves the memory account too low |
| `CoinsCache.CoinsViewCache.SpendCoin` | src/coins.cpp:211-243 | The view loses the outpoint and nothing else, and hands out what it lost; the result is also true for an entry already spent in this cache |
| `CoinsCache.CoinsViewCache.Uncache` | src/coins.cpp:339-346 | No view changes; only an entry with a flag stays |
| `CoinsCache.CoinsViewCache.WriteEntry` | src/coins.cpp:278-325 | One entry of a child is merged, or refused exactly when its FRESH flag was misapplied; the memory account stays exact |
| `CoinsCache.CoinsViewCache.BatchWrite` | src/coins.cpp:276-330 | For every order of the hash map the result is the merged map; it stops short exactly when some FRESH flag was misapplied |
| `CoinsCache.CoinsViewCache.Flush` | src/coins.cpp:332-337 | The view below becomes the view of this cache, all other views stay, the cache is empty and nothing is thrown |
| `CoinsCache.CoinsViewCache.GetBestBlock` | src/coins.cpp:266-270 | The first non-null hash from this level down; asking changes no answer |
| `CoinsCache.AddCoins` | src/coins.cpp:99-209 | With the check, for a coinbase, or when the outputs are new, no addition is refused and the view gains exactly the spendable outputs |
| `CoinsCache.CoinsStack.Run` | src/coins.cpp:52-346 | Every allowed sequence of fetch, get, have, add, spend, uncache, asking for and setting the best block, flush at any level, push and discard gives the same answers as plain maps with the same changes, leaves every level equal to its plain map with its block hash, null or not, and all memory accounts exact |
| `Mempool.BetterTransitive` | src/miner.h:98-108 | The order by ancestor fee rate is transitive on entries with positive size |
| `Mempool.CorrectAgain` | src/miner.h:142-154 | Subtracting an included parent keeps the law of an entry: its size and sigops are those of what is left and what it missed, its fees are off by the priority deltas of the ancestors subtracted after the first |
| `Mempool.CorrectFirst` | src/miner.cpp:255-268 | A first correction establishes the law; what it misses are the ancestors already in the block |
| `Mempool.CorrectionKeepsTracked` | src/miner.cpp:248-273 | One round of corrections keeps: the modified set disjoint from the block, the law for every entry, nothing missed for entries that never failed, and every other unskipped entry without an ancestor in the block |
| `Mempool.LawIsOver` | src/miner.h:142-154 | Corrected sums are never below the real ones |
| `Mempool.DatingNext` | src/miner.cpp:253-269 | Going through the added transactions in the order of their hashes, a new entry is first corrected for its ancestor with the least hash among them, and misses its ancestors in the block before |
| `BlockAssembly.AncestorPrecedes` | src/miner.h:113-120 | Sorting by ancestor count puts every ancestor before its descendants |
| `BlockAssembly.PackageFits` | src/miner.cpp:206-214 | When cached sums are large enough, passing TestPackage bounds the real weight and sigops |
| `BlockAssembly.FeesExactIff` | src/miner.h:142-154 | For every entry that never failed, in every state the loop keeps: the corrected fees are off by the priority deltas of its ancestors in the block, leaving aside the one with the least hash in the first package that had any; they are the real ones if and only if those deltas cancel out |
| `BlockAssembly.RecreatedExcess` | src/miner.cpp:258-266 | For every entry, failed before or not: by how much size, sigops and fees are off; the size is right exactly when no ancestor was missed, the sigops exactly when those missed have none |
| `AssemblyWitnesses.PriorityLeaks` | src/miner.h:142-154 | A run on a consistent pool of three transactions after which the fees of one are too high by the priority delta of an included ancestor |
| `AssemblyWitnesses.RecreatedTooLarge` | src/miner.cpp:258-266 | A run on a consistent pool after which an entry, given up and made anew, counts an ancestor that is in the block, in size and in fees |
| `BlockAssembly.PickIsCharged` | src/miner.cpp:371-378 | The figures an entry is chosen by: exact size and sigops, and fees off as said, unless it failed before |
| `BlockAssembly.BestExists` | src/miner.cpp:341-365 | There is a best modified entry |
| `BlockAssembly.PickIsGreedy` | src/miner.cpp:341-365 | When only single ancestors have priority deltas, the entry looked at has the best fee rate of all that were never given up |
| `BlockAssembly.BlockAssembler.constructor` | src/miner.cpp:153-191 | The empty block with room for the coinbase is within the limits, and the weight limit is clamped |
| `BlockAssembly.BlockAssembler.AddToBlock` | src/miner.cpp:229-246 | Appends the transaction; the block stays ancestor-closed and free of duplicates, parents come first, and weight, sigops and fees are the sums over it |
| `BlockAssembly.BlockAssembler.SortForBlock` | src/miner.cpp:290-299 | The package in order of ancestor counts, each member once |
| `BlockAssembly.BlockAssembler.UpdatePackagesForAdded` | src/miner.cpp:248-273 | In the order of hashes, correcting for all added transactions makes the modified set track the new block, says of every new entry how it came about, and counts the corrections |
| `BlockAssembly.BlockAssembler.Choose` | src/miner.cpp:341-365 | The better of the next index entry and the best modified entry |
| `BlockAssembly.BlockAssembler.IncludePackage` | src/miner.cpp:404-437 | Includes what is left of a package exactly when all of it is final, keeping the limits and the tracking |
| `BlockAssembly.BlockAssembler.Consider` | src/miner.cpp:332-438 | One round of the loop keeps everything and brings the lexicographic measure down; a package is given up only when too big by its figures or not final |
| `BlockAssembly.BlockAssembler.AddPackageTxs` | src/miner.cpp:311-439 | The loop ends with a block that is ancestor-closed, free of duplicates, with parents first, within weight and sigops limits, with exact totals; it grew by the packages picked, each by figures that are right but for the priority deltas named; when these cannot leak each pick was the best left; at a normal end every transaction is in the block or was refused, with the reason; otherwise the best package left paid too little or the block was nearly full; descendants updated are counted |
| `MerkleTree.ExtractBuilt` | src/merkleblock.cpp:81-117 | Decoding where the encoding of a subtree stands gives its hash, and consumes and finds exactly what belongs to it |
| `MerkleTree.EncodingSize` | src/merkleblock.cpp:63-79 | A subtree takes at most one hash a leaf, at most one more than matches times height, and twice the hashes less one plus single children in bits |
| `MerkleTree.ExtractGenuine` | src/merkleblock.cpp:81-117 | With an injective hash, a subtree that decodes to the true hash yields only genuine leaves at their positions |
| `MerkleTree.MatchedExact` | src/merkleblock.cpp:119-131 | The list of matched positions is exact and increasing |
| `PartialMerkle.RoundTrip` | src/merkleblock.cpp:43-166 | For every list within the limit, every mask and padding to full bytes, extraction gives the Merkle root and exactly the matched ids and indexes in order; it refuses exactly when two siblings on the way are equal |
| `PartialMerkle.NoForgery` | src/merkleblock.cpp:135-166 | With an injective hash, any partial tree that extracts to the true root yields only list elements at their indexes |
| `PartialMerkle.StoredHashes` | src/merkleblock.cpp:63-79 | At most the number of transactions and at most one more than matches times height are stored |
| `PartialMerkle.StoredBitsIff` | src/merkleblock.h:44-50 | The documented bound on the bits holds exactly when no single child is descended into |
| `PartialMerkle.TooManyBits` | src/merkleblock.h:44-50 | Three transactions with the last matched take two hashes and four bits |
| `PartialMerkle.PackBits` | src/merkleblock.h:89-107 | Bit p of the stream is bit p modulo 8 of byte p divided by 8, padded with zeros |
| `PartialMerkle.UnpackBits` | src/merkleblock.h:89-107 | The inverse of the packing |
| `PartialMerkle.SendAndReceive` | src/merkleblock.h:89-107 | The round trip through the bytes of the message |
| `PartialMerkle.PartialMerkleTree.TraverseAndBuild` | src/merkleblock.cpp:63-79 | Appends exactly the depth-first encoding of the subtree |
| `PartialMerkle.PartialMerkleTree.TraverseAndExtract` | src/merkleblock.cpp:81-117 | Computes the decoding of the subtree, with the bad flag |
| `PartialMerkle.PartialMerkleTree.ExtractMatches` | src/merkleblock.cpp:135-166 | Refuses implausible sizes and leftovers, else gives the root |
| `MerkleComputation.AddLeaf` | src/consensus/merkle.cpp:67-92 | Keeps the eager hashes those of the complete subtrees, and the flag that of the equal complete siblings met, as long as the counter fits 32 bits |
| `MerkleComputation.Sweep` | src/consensus/merkle.cpp:93-129 | The last sweep ends with the recursive tree hash, unless the counter wraps around, which happens if and only if there are more than 2^31 leaves |
| `MerkleComputation.SweepBounds` | src/consensus/merkle.cpp:112-115 | Rounding the counter up covers all leaves; if it leaves 32 bits it becomes exactly 0, and there are more than 2^31 leaves |
| `MerkleComputation.ComputeMerkleRoot` | src/consensus/merkle.cpp:48-139 | For every list: it comes to an end if and only if there are at most 2^31 leaves, and then the constant-space root equals the recursive tree hash that partial trees prove, and the mutation flag is set exactly when two complete siblings are equal |
| `CheckQueue.BatchSize` | src/checkqueue.h:108-112 | A batch takes at least one check and at most what is queued |
| `CheckQueue.TakeBatch` | src/checkqueue.h:113-119 | The batch is the end of the queue, reversed, and the rest stays |
| `CheckQueue.StepKeeps` | src/checkqueue.h:71-129 | Every step keeps: nTodo is queued plus in-flight checks, nIdle and nTotal are exact, every added check is queued, in flight or dealt with, the verdict is open exactly when no failure is known, and the master never waits unheard |
| `CheckQueue.EveryRun` | src/checkqueue.h:71-163 | All of this holds in every interleaving of one master and any number of workers |
| `CheckQueue.ReturnStep` | src/checkqueue.h:94-103 | When Wait returns, every added check was finished or skipped, and the result is true exactly when every added check is true |
| `CheckQueue.WaitVerdict` | src/checkqueue.h:145-149 | The same from the initial state on |
| `CheckQueue.MasterIsCalled` | src/checkqueue.h:82-89 | A waiting master has an in-flight worker, and the one that finishes last notifies it |
| `CheckQueue.NoDeadlock` | src/checkqueue.h:71-129 | Until Wait returns some step is possible that returns or brings a rank down, and it is never a wait that ends without a notification |
| `CheckQueue.WaitCanReturn` | src/checkqueue.h:71-149 | From every state with the master in Wait, a number of steps bounded by the rank, without waits that end unnotified, makes it return, with the right verdict |
| `CheckQueue.NoStepBack` | src/checkqueue.h:71-129 | No step but adding checks raises the rank |
| `ArithUint.AddAssign` | src/arith_uint256.h:143-153 | Addition modulo 2 to the power of the width, without 64-bit overflow of the carry |
| `ArithUint.Complement` | src/arith_uint256.h:77-83 | All bits inverted |
| `ArithUint.Increment` | src/arith_uint256.h:181-188 | One more, modulo 2 to the power of the width |
| `ArithUint.Negate` | src/arith_uint256.h:85-92 | The negative, modulo 2 to the power of the width |
| `ArithUint.SubAssign` | src/arith_uint256.h:155-159 | Subtraction modulo 2 to the power of the width |
| `ArithUint.MulWordAssign` | src/arith_uint256.cpp:59-69 | Multiplication by a word modulo 2 to the power of the width, without 64-bit overflow |
| `ArithUint.MulAssign` | src/arith_uint256.cpp:71-85 | Multiplication modulo 2 to the power of the width |
| `ArithUint.MulSelfAssign` | src/arith_uint256.cpp:71-85 | Multiplying a number by itself in place gives zero, because the operand is cleared first |
| `ArithShift.ShiftLeftAssign` | src/arith_uint256.cpp:25-40 | Multiplication by a power of two modulo 2 to the power of the width, for every shift |
| `ArithShift.ShiftRightAssign` | src/arith_uint256.cpp:42-57 | Division by a power of two, for every shift |
| `ArithDiv.CompareTo` | src/arith_uint256.cpp:113-123 | The order of the numbers |
| `ArithDiv.BitLength` | src/arith_uint256.cpp:175-188 | The number of bits: the number is below that power of two and not below the one before |
| `ArithDiv.DivAssign` | src/arith_uint256.cpp:87-111 | The floor quotient; division by zero clears the number and throws |
| `Compact.OverflowIff` | src/arith_uint256.cpp:221-224 | The three tests for overflow hold exactly when the number is 2^256 or more |
| `Compact.SetCompact` | src/arith_uint256.cpp:208-226 | The number modulo 2^256, the overflow flag exactly when it does not fit, the sign of a non-zero number |
| `Compact.CompactRoundTrip` | src/arith_uint256.cpp:208-249 | What the code of x stands for is at most x, differs from it by at most x / 2^15, and has the same code; the mantissa stays below the sign bit |
| `Compact.EncodedTarget` | src/arith_uint256.cpp:208-249 | The same for codes as 32-bit words |
| `Compact.GetCompact` | src/arith_uint256.cpp:228-249 | Computes that code; both assertions of the source hold for every number |
| `Compact.GetBlockProof` | src/chain.cpp:123-136 | 2^256 divided by the target plus one, rounded down, for every code; zero for a negative, too large or zero target |
| `SkipHeights.LowestOne` | src/chain.cpp:72-73 | Clears the lowest set bit and nothing else |
| `SkipHeights.SkipLess` | src/chain.cpp:76-84 | The skip height is below the height |
| `SkipHeights.Nearer` | src/chain.cpp:93-107 | Above the highest bit in which the two heights differ, every step brings a count of ones down |
| `SkipHeights.FewSteps` | src/chain.cpp:76-110 | From a height below 2^k, any ancestor is reached in at most k * (k + 3) / 2 steps |
| `Chain.BlockIndex.constructor` | src/chain.cpp:117-121 | A block added on another extends its path, and its skip link stays on the path; no skip link is missing |
| `Chain.BlockIndex.BuildSkip` | src/chain.cpp:117-121 | Sets the skip link to the ancestor at the skip height |
| `Chain.BlockIndex.GetAncestor` | src/chain.cpp:86-110 | Following skip links never overshoots and gives the block that following pprev gives, or null out of range, in at most k * (k + 3) / 2 steps from below 2^k; the assertion of the source holds |
| `Chain.LastCommonAncestor` | src/chain.cpp:157-172 | The highest block on both paths, or null if there is none; the assertion of the source holds |
| `Chain.LocatorDescends` | src/chain.cpp:26-52 | A locator descends strictly from the block asked for to the genesis block |
| `Chain.LocatorLength` | src/chain.cpp:26-52 | A locator has at most 12 entries or 12 plus the binary logarithm of the height |
| `Chain.ActiveChain.ContainsIff` | src/chain.h:492-495 | Comparing one height tells whether a block is in the chain, and then all of its path is |
| `Chain.ActiveChain.Next` | src/chain.h:497-503 | The block of the chain whose pprev is the given one, exactly for blocks of the chain below the tip |
| `Chain.ActiveChain.SetTip` | src/chain.cpp:14-24 | The chain becomes the full path to the tip although the loop stops at the first block already in place |
| `Chain.ActiveChain.FindFork` | src/chain.cpp:54-63 | The highest block of the chain on the path to the given block |
| `Chain.ActiveChain.GetLocator` | src/chain.cpp:26-52 | The hashes on the path at the heights of the locator, whether found by the chain or by skip links |
| `AddrManager.AddrMan.Sizes` | src/addrman.cpp:394-400 | The random order is as long as the two counters add up to, and as the number of entries |
| `AddrManager.AddrMan.constructor` | src/addrman.h:458-480 | The cleared tables are consistent |
| `AddrManager.AddrMan.Find` | src/addrman.cpp:70-81 | Finds an entry by its network address exactly when there is one |
| `AddrManager.AddrMan.Create` | src/addrman.cpp:90-100 | A new entry in no bucket, at the end of the random order; everything else stays consistent |
| `AddrManager.AddrMan.SwapRandom` | src/addrman.cpp:102-120 | Two places of the random order are exchanged and the entries know; the assertions of the source hold |
| `AddrManager.AddrMan.Delete` | src/addrman.cpp:122-134 | Forgets one entry in no bucket; all others stay up to their places in the random order |
| `AddrManager.AddrMan.ClearNew` | src/addrman.cpp:136-149 | The slot is empty; its entry has one reference less and is forgotten with the last; nothing else changes |
| `AddrManager.AddrMan.MakeTried` | src/addrman.cpp:151-197 | The entry is out of every new bucket and at its tried slot; an entry evicted from there is at the new slot of its own source with one reference; only these and the one displaced there change; the whole consistency check holds again |
| `AddrManager.AddrMan.FindBucket` | src/addrman.cpp:228-243 | The search from a random bucket on always finds one, so the exit for none is dead |
| `AddrManager.AddrMan.Good` | src/addrman.cpp:199-249 | A known address ends up tried with new statistics, others as for MakeTried; consistency holds; times stay in order exactly when the time is positive or the address is unknown |
| `AddrManager.AddrMan.Place` | src/addrman.cpp:299-320 | The entry enters the slot of its address and source exactly when that is free, terrible, or its entry has another reference and this one has none; with no reference left it is forgotten |
| `AddrManager.AddrMan.Add` | src/addrman.cpp:251-322 | The result says whether a routable address was unknown, also when it found no room; a known one is refreshed and gets at most one more bucket, never more than eight; consistency and times are kept |
| `AddrManager.Refreshed` | src/addrman.cpp:265-273 | Hearing of an address again never moves its time back |
| `AddrManager.AddrMan.Attempt` | src/addrman.cpp:324-344 | Changes the statistics of a known address only; times stay in order exactly when the time is not negative or the address is unknown |
| `AddrManager.AddrMan.Connected` | src/addrman.cpp:492-510 | Changes only the time of a known address, and only forward by more than twenty minutes |
| `AddrManager.AddrMan.SetServices` | src/addrman.cpp:512-528 | Changes only the services of a known address |
| `AddrManager.AddrMan.GetAddr` | src/addrman.cpp:471-490 | At most 2500 and 23 percent, all known and not terrible, none twice; only the random order changes |
| `AddrManager.AddrMan.Prune` | src/addrman.h:438-450 | Forgets exactly the entries in no table |
| `AddrTables.Cleared` | src/addrman.cpp:140-143 | Emptying a slot of the new table and lowering one count keeps reference counts equal to occurrences |
| `AddrTables.Filled` | src/addrman.cpp:313-314 | Filling an empty computed slot and raising one count does too |
| `AddrTables.Evicted` | src/addrman.cpp:176-180 | Taking an entry out of the tried table leaves it in neither table, and the sets of tried and new entries change by it |
| `AddrTables.Promoted` | src/addrman.cpp:194-196 | Putting an entry of neither table into the tried table restores all parts of the check |
| `AddrTables.Swapped` | src/addrman.cpp:115-119 | The random order and the places the entries know stay inverse to each other |
| `AddrManager.AddrMan.Run` | src/addrman.cpp:394-469 | Any sequence of additions, successes, attempts, connections, service updates and samples, in any order, keeps the invariant and the key; times stay in order when successes and attempts carry positive times |
| `AddrCheck.Check` | src/addrman.cpp:394-469 | Returns 0 if and only if every condition holds that the check tests, as conditions on the tables; in consistent tables only a null key fails |
| `AddrCheck.ValidIff` | src/addrman.cpp:394-469 | The invariant of the operations, with times in order and a key, is what the check tests together with: every address is indexed, under a number in use, and nothing else is |
| `AddrCheck.RunAndCheck` | src/addrman.cpp:394-469 | After any run with positive times the check returns 0, unless the key was null |
| `AddrFile.Serialize` | src/addrman.h:303-350 | The file holds every entry of the new table, every tried entry, and for each bucket the places of its entries; the assertions about the counters hold |
| `AddrFile.NextIsFree` | src/addrman.h:402-419 | No tried entry of a written file is lost to a collision |
| `AddrFile.Room` | src/addrman.h:422-436 | No position of a written file is refused for too many references |
| `AddrFile.Limits` | src/addrman.h:373-379 | A written file passes the size limits of the reader |
| `AddrFile.SameView` | src/addrman.h:303-456 | Up to the numbering of the entries, completely copied tables show every address with the same table, buckets, source and persisted statistics |
| `AddrFile.Unserialize` | src/addrman.h:353-456 | For every version, every number of buckets and whatever places they list: refused exactly for a wrong key size or too many entries, and otherwise the tables are consistent afterwards; a file written from tables gives tables that show the same |
| `AddrFile.SaveAndLoad` | src/addrman.h:303-456 | Saving an address manager and loading it into another loses nothing but identifiers and what is kept in memory only, whatever the saved times; times in order stay in order |
| `Cuckoo.BitPackedFlags.constructor` | src/cuckoocache.h:61-68 | There is room for all flags, and all are set |
| `Cuckoo.BitPackedFlags.BitSet` | src/cuckoocache.h:92-95 | Sets one flag and no other |
| `Cuckoo.BitPackedFlags.BitUnset` | src/cuckoocache.h:103-106 | Clears one flag and no other |
| `Cuckoo.Location` | src/cuckoocache.h:243-253 | Every location is within the table |
| `Cuckoo.NextLocation` | src/cuckoocache.h:430-430 | A location of the element; the second one, not the first, when the last location is none of them |
| `Cuckoo.Cache.constructor` | src/cuckoocache.h:340-353 | An empty cache of at least two slots, with epochs of 45 percent of its size |
| `Cuckoo.Cache.Contains` | src/cuckoocache.h:467-477 | Finds every live element; found exactly when one of its eight slots holds it; erasing marks one such slot and loses at most that element |
| `Cuckoo.Cache.EpochCheck` | src/cuckoocache.h:289-321 | Lets go of exactly the elements of the older epoch, exactly when the wait is over and the current one is full; states the new counter |
| `Cuckoo.Cache.Round` | src/cuckoocache.h:405-439 | A free slot takes the element, or it is exchanged for a live one; no element is lost |
| `Cuckoo.Cache.Insert` | src/cuckoocache.h:392-441 | The live elements become those of the current epoch, or all if no ageing is due, and the new one, less at most one, for every hash function; each live element stays at one of its own locations |
| `RollingBloom.Wiped` | src/bloom.cpp:258-266 | The masks clear exactly the cells of one generation, 64 at a time |
| `RollingBloom.Written` | src/bloom.cpp:274-277 | Writing a generation into a cell changes no other cell |
| `RollingBloom.TurnKeeps` | src/bloom.cpp:253-267 | Wiping the generation from three rounds back leaves the cells of the two newer ones |
| `RollingBloom.RollingBloomFilter.constructor` | src/bloom.cpp:219-244 | No cell is set, and the first generation is empty |
| `RollingBloom.RollingBloomFilter.Insert` | src/bloom.cpp:251-279 | States every cell: those of the key get the current generation, those of a generation begun anew are cleared, no other changes; every cell of every recent key stays in its own or a newer generation |
| `RollingBloom.RollingBloomFilter.Recent` | src/bloom.h:115-116 | All cells of the last nElements keys are set, and of up to half as many before them |
| `RollingBloom.RollingBloomFilter.Contains` | src/bloom.cpp:287-299 | True exactly when all cells of the key are set, so for each of the last nElements inserted keys |
| `RollingBloom.RollingBloomFilter.Reset` | src/bloom.cpp:307-315 | Forgets everything: no cell is set, so that no key is found |
| `Radix.MulAdd` | src/base58.cpp:46-53 | The carry loop multiplies the number in the buffer and adds a digit, exactly, with what does not fit in the carry |
| `Radix.DigitsUnique` | src/base58.cpp:61-71 | A number has one representation without leading zeros |
| `Base58.EncodeSize` | src/base58.cpp:83-84 | 138 / 100 + 1 digits suffice for every length |
| `Base58.DecodeSize` | src/base58.cpp:37-38 | 733 / 1000 + 1 bytes suffice for every length |
| `Base58.EncodeBase58` | src/base58.cpp:74-112 | A 1 for each leading zero byte and the number in base 58; no carry is ever left |
| `Base58.DecodeBase58` | src/base58.cpp:24-72 | Accepts exactly one word of the alphabet with spaces around it, up to a zero character, and gives its bytes; no carry is ever left |
| `Base58.DecodeEncoded` | src/base58.cpp:24-112 | Decoding the encoding of any bytes gives the bytes |
| `Base58.EncodeDecoded` | src/base58.cpp:24-112 | Encoding what was decoded gives the text without the spaces around it |
| `Addresses.EncodeBase58Check` | src/base58.cpp:124-131 | Encodes the bytes followed by their checksum |
| `Addresses.DecodeBase58Check` | src/base58.cpp:133-148 | Accepts exactly the strings whose last four bytes are the checksum of the others |
| `Addresses.CheckedEncoded` | src/base58.cpp:124-148 | The round trip with the checksum |
| `Addresses.EncodedChecked` | src/base58.cpp:124-148 | What was accepted is the encoding of what was returned, with spaces around it |
| `Addresses.Survives` | src/base58.cpp:245-328 | Every destination, also a pair of 20-byte ids, can be told from its version and data when the prefixes differ |
| `Addresses.SurvivesOnlyIf` | src/base58.cpp:245-328 | Otherwise some destination cannot |
| `Addresses.Address.Set` | src/base58.cpp:245-266 | Sets version and data of a destination; refuses none at all |
| `Addresses.Address.SetString` | src/base58.cpp:184-199 | Splits the decoded bytes after the version, or clears both |
| `Addresses.Address.ToString` | src/base58.cpp:206-211 | Version and data with their checksum |
| `Addresses.WriteAndRead` | src/base58.cpp:184-328 | With distinct one-byte prefixes every destination survives being written and read |
| `BlockEncodings.WriteIndexes` | src/blockencodings.h:65-69 | Sends the gaps between indexes |
| `BlockEncodings.ReadIndexes` | src/blockencodings.h:43-63 | Adds the gaps up, refusing what does not fit 16 bits |
| `BlockEncodings.RequestRoundTrip` | src/blockencodings.h:41-71 | Every strictly increasing list of 16-bit indexes is read back |
| `BlockEncodings.IndexesIncreaseIff` | src/blockencodings.h:57-63 | An accepted message is read as a strictly increasing list if and only if its gaps and the number of its indexes add up to at most 2^16 |
| `BlockEncodings.IndexesWrap` | src/blockencodings.h:57-63 | A message that is read as a list that does not increase |
| `CompactBlocks.PartiallyDownloadedBlock.PlacePrefilled` | src/blockencodings.cpp:61-79 | Accepts exactly prefilled transactions that are not null, at places that fit, and puts each at its place |
| `CompactBlocks.PartiallyDownloadedBlock.MapShortIds` | src/blockencodings.cpp:85-108 | Succeeds exactly when identifiers are distinct, no bucket is crowded and the search ends; then identifier i is given the empty place with i empty ones before it, in 16 bits, and every place is right if and only if there are at most 2^16 transactions |
| `CompactBlocks.PartiallyDownloadedBlock.NextSpot` | src/blockencodings.cpp:86-87 | The search for an empty place finds the next one, or never ends: if and only if 2^16 transactions are prefilled, when all places its 16-bit offset reaches are taken |
| `CompactPlaces.PlacesRightIff` | src/blockencodings.cpp:83-88 | No place wraps around if and only if there are at most 2^16 transactions; with more, some identifier gets place 0 for place 2^16 |
| `CompactPlaces.Partition` | src/blockencodings.cpp:61-108 | The prefilled places and those of the short identifiers share out all places |
| `CompactBlocks.PartiallyDownloadedBlock.InitData` | src/blockencodings.cpp:50-171 | For every message: invalid, endless, failed or ok under exactly stated conditions; the state is that of the two scans; with up to 2^16 transactions every spot is empty or holds a transaction of the pools with its short identifier, and mempool_count is the number of filled spots |
| `CompactPlaces.ScanPoolKeeps` | src/blockencodings.cpp:111-135 | Scanning the memory pool touches only places of identifiers, with transactions that match, and counts exactly, wrapped places or not |
| `CompactPlaces.ScanExtraKeeps` | src/blockencodings.cpp:137-165 | The same for the extra transactions |
| `CompactPlaces.ExtraCountIff` | src/blockencodings.cpp:137-165 | extra_count is the number of places that extra transactions fill, if and only if none of those looked at contradicts a transaction of the memory pool at its place |
| `CompactPlaces.ExtraUnderflow` | src/blockencodings.cpp:148-157 | One contradiction and the unsigned count is 2^64 - 1 |
| `CompactBlocks.PartiallyDownloadedBlock.FillBlock` | src/blockencodings.cpp:179-220 | Puts the transactions sent into the empty places in order; invalid exactly when there are too few or too many, else as the block check says |
| `CompactBlocks.SendAndRebuild` | src/blockencodings.cpp:20-220 | A block of up to 2^16 transactions with distinct identifiers, no crowded bucket and no other transaction of the pools with one of them is rebuilt from the pools and what was missing, and its check decides |
| `CompactBlocks.ReceiveWide` | src/blockencodings.cpp:83-135 | In any longer block, with transaction 2^16 in the memory pool, the place of the first transaction holds that one |
| `CompactBlocks.WideBlock` | src/blockencodings.cpp:83-135 | A block of 65537 transactions for which this happens |

## Left out

- CoinsCache.AddCoins: does not model the token outputs and the tokens cache.
- CoinsCache.CoinsViewCache.SpendCoin: does not model the tokens cache.
- CoinsCache.CoinsDB.BatchWrite: when a batch is full is a parameter; the replay of blocks after a crash is not modelled, only that the same write may follow.
- CoinsCache.CoinsViewCache.AddCoin: memory usage is that of the script alone; containers have no overhead here.
- BlockAssembly.BlockAssembler.AddPackageTxs: fee rates are compared as exact products where the source multiplies doubles, the log lines are missing, and the pool's ancestor and descendant sets are taken to be exact.
- BlockAssembly.BlockAssembler.constructor: the options other than the weight limit, and the chain parameters, are not modelled.
- PartialMerkle.RoundTrip: widths and positions are unbounded integers, where the source has 32 bits.
- MerkleComputation.ComputeMerkleRoot: the branch that MerkleComputation can also return is not modelled.
- CheckQueue.EveryRun: quitting, which nothing in the source asks for, and interruption of threads are not modelled; a wait can end without a notification as the source allows.
- Chain.ActiveChain.GetLocator: heights and steps are unbounded integers.
- Chain.BlockIndex.constructor: of a block index only hash, height and links are modelled; FindEarliestAtLeast, validity flags and chain work are not.
- Compact.GetBlockProof: GetBlockProofEquivalentTime is not modelled, its product may wrap around.
- AddrManager.AddrMan.Add: times and counts are unbounded integers.
- AddrFile.Serialize: the stream is a record of numbers and lists, not bytes.
- AddrFile.Unserialize: files that end early, which throw, and files with negative counts or with an address twice, after which the check may fail, are not modelled.
- AddrCheck.Check: the entry that looking up a missing address adds to mapAddr is not modelled; entries are looked at in any order, which matters only for which code is returned.
- Cuckoo.Cache.constructor: the depth limit, a logarithm taken in floating point, is a parameter; setup_bytes is not modelled.
- Cuckoo.Cache.Contains: one thread at a time; concurrent erasure is not modelled.
- RollingBloom.RollingBloomFilter.constructor: the number of hash functions and of words, computed in floating point, are parameters; false positive rates are not modelled.
- CompactBlocks.PartiallyDownloadedBlock.InitData: whether the bucket of an identifier is crowded, which depends on the layout of the hash table, is a parameter.
- CompactBlocks.PartiallyDownloadedBlock.FillBlock: the answer of CheckBlock is a parameter.
- Select_ and GetChance of the address manager: a random walk with floating point weights.
- Block creation, staking, signing, mining threads, the mempool itself, networking, databases, files, RPC, wallet and scripts.
- Hash functions and elliptic curves: abstract, injective only where a statement says so.
- Other bloom filters, secret keys and extended keys in base58, GetHex and the other conversions of 256-bit numbers: only easy members.
