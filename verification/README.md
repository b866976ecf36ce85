# A Dafny model of the node's core data structures

This project models the parts of the node that keep intricate state or do intricate arithmetic, and proves what they
are for: the tower of coin caches, the address manager with its disk format, the verification queue, the block
assembler, partial Merkle trees, the rolling bloom filter and the cuckoo cache, 256-bit arithmetic with compact targets,
the block index with its skip list, and the Base58, Bech32, Golomb-coded set and compact block codecs.
`dafny verify dfyconfig.toml` checks everything.

| file | component |
|---|---|
| `Coins.dfy`, `CoinsViewCache.dfy` | UTXO cache layers over the coin database |
| `AddrManIndex.dfy`, `AddrManDisk.dfy`, `AddrMan.dfy` | address manager: invariant, disk format, operations |
| `CheckQueue.dfy` | parallel verification queue, as a state machine over all interleavings |
| `Mempool.dfy`, `BlockAssembler.dfy` | transaction selection for a block |
| `MerkleBlock.dfy` | partial Merkle trees |
| `RollingBloomFilter.dfy`, `CuckooCache.dfy` | lossy sets |
| `ArithUint256.dfy`, `Compact.dfy` | 256-bit numbers, compact targets, block work |
| `Chain.dfy` | block index, skip list, active chain, locators |
| `Bech32.dfy`, `Bech32Errors.dfy` | Bech32 strings, and which errors their code detects |
| `Digits.dfy`, `Base58.dfy` | Base58 strings |
| `BitStream.dfy`, `Serialize.dfy`, `BlockFilter.dfy` | bit streams, compact sizes, Golomb-coded sets |
| `CompactBlocks.dfy` | block relay by short ids |
| `Arithmetic.dfy` | shared facts about powers of two, division and bits |

Objects whose methods update fields are classes; each method is proved against functions and predicates on plain
values, and the properties that span operations are lemmas or `Run` methods over sequences of operations. Hash
functions, random numbers, clocks and I/O are parameters. Integers are unbounded except where the source's width
matters: limbs, 64-bit accumulators, 16-bit indexes and 32-bit hashes are bounded or reduced explicitly.

Some results say exactly when the code does what one would expect:

* `Coins.AddPromiseIsExact`: AddCoin without permission to overwrite marks the entry FRESH on the caller's word; this is
  right exactly if the layer below has no unspent coin there.
* `CoinsTower.CoinsViewCache.Flush`: flushing a layer without a best block of its own overwrites the one below by null, so
  the best block is kept exactly under the condition stated there.
* `BlockAssembler.FeesExactWhen`: an entry loses the modified fee of the first ancestor that goes into the block but the
  base fee of the others (src/miner.h:119 against src/miner.cpp:345), so its fees are right exactly if those others have
  no priority delta in total; `BlockAssembler.PrioritisedFeesDrift` gives a mempool where they are wrong.
* `AddrManager.AddrMan.Clear`: Clear keeps the pending collisions, so the manager is consistent afterwards exactly if
  there were none.
* `BlockFilter.ReparseBuilt`: a filter of more than MAX_SIZE (2^25) elements can be built but not parsed again, because
  reading a compact size refuses larger numbers; `Serialize.JustOverLimit` names the smallest such size.

Where comments and code disagree the model follows the code. The comment in src/cuckoocache.h:419-420 says that the first
displacement goes to the first slot of an element; `(1 + 8) & 7` makes it the second.

## Model

| member | source | states |
|---|---|---|
| `Coins.WrittenIsOverlay` | src/coins.cpp:148-204 | Writing all DIRTY entries of a consistent cache to the view below gives exactly the view the cache showed, whatever the order of the writes. |
| `Coins.AddPromiseIsExact` | src/coins.cpp:69-88 | AddCoin keeps the flags truthful exactly when overwriting was allowed or the base really has no unspent coin there; the throw happens exactly when the cached entry is unspent. |
| `CoinsTower.Database.BatchWrite` | src/txdb.cpp:84-143 | The database ends up with the written coins, spent ones deleted, clean ones ignored, and the new best block. |
| `CoinsTower.CoinsViewCache.OnDatabase` | src/coins.cpp:37 | A new cache over the database shows the database, with truthful flags and byte count. |
| `CoinsTower.CoinsViewCache.OnCache` | src/coins.cpp:37 | A new cache over a cache shows what that cache shows. |
| `CoinsTower.CoinsViewCache.FetchCoin` | src/coins.cpp:43-58 | Reading may fill the caches of any layer, but the view of no layer changes and every flag stays truthful. |
| `CoinsTower.CoinsViewCache.GetCoin` | src/coins.cpp:60-67 | The coin is found exactly when the view has it, and it is that coin, unspent. |
| `CoinsTower.CoinsViewCache.HaveCoin` | src/coins.cpp:128-131 | True exactly when the view has the coin. |
| `CoinsTower.CoinsViewCache.AddCoin` | src/coins.cpp:69-88 | The view gets the coin unless it is unspendable or the call throws; flags and byte count stay right. |
| `CoinsTower.CoinsViewCache.SpendCoin` | src/coins.cpp:101-117 | The coin leaves the view and is handed out, a FRESH entry is dropped and any other marked as spent; nothing else moves. |
| `CoinsTower.CoinsViewCache.Uncache` | src/coins.cpp:213-220 | Dropping a clean entry changes no view. |
| `CoinsTower.CoinsViewCache.GetBestBlock` | src/coins.cpp:138-142 | The best block of the nearest layer that has one. |
| `CoinsTower.CoinsViewCache.WriteEntry` | src/coins.cpp:148-200 | One child entry is merged: the parent's view gets the child's coin, an entry the layer below never knew is not kept when it is spent, all flags stay truthful, and the misapplied FRESH flag cannot occur. |
| `CoinsTower.CoinsViewCache.BatchWrite` | src/coins.cpp:148-204 | The parent's view becomes the child's, for any child cache with truthful flags. |
| `CoinsTower.CoinsViewCache.Flush` | src/coins.cpp:206-211 | The view of the flushed layer is unchanged and the layer below now shows the same; the best block is kept exactly when the layer has one of its own, or the layer below has none or the same as the one under it. |
| `CoinsTower.CoinsViewCache.FlushAll` | src/coins.cpp:206-211 | Flushing layer by layer from the top brings exactly the top view into the database and leaves every cache empty. |
| `CoinsTower.CoinsViewCache.Run` | src/coins.cpp:43-220 | For any tower and any run of reads, additions, spends, evictions and flushes on its layers, the top view and all answers are those of a plain map under the same additions and spends. |
| `AddrManIndex.Refresh` | src/addrman.cpp:270-278 | Hearing of an address again never makes its entry older or drops service flags. |
| `AddrManIndex.Housed` | src/addrman.cpp:399-473 | In a consistent manager every entry is in exactly one table, with its reference count the number of new slots holding it, at most eight, or in its own tried slot. |
| `AddrManIndex.CheckPasses` | src/addrman.cpp:399-473 | A consistent manager passes the structural conditions of the debug check. |
| `AddrManIndex.SwapSound` | src/addrman.cpp:93-111 | Swapping two places of the random order keeps all indexes inverse to each other. |
| `AddrManIndex.FillSound` | src/addrman.cpp:316-319 | Giving a free new slot to an entry and counting the reference keeps the invariant. |
| `AddrManIndex.EmptySound` | src/addrman.cpp:127-140 | Emptying a new slot and lowering its occupant's count keeps the invariant. |
| `AddrManager.AddrMan.SwapRandom` | src/addrman.cpp:93-111 | The two places are exchanged and the position of each entry follows; neither assert fires. |
| `AddrManager.AddrMan.Delete` | src/addrman.cpp:113-125 | An entry in neither table disappears from all indexes; no assert fires. |
| `AddrManager.AddrMan.ClearNew` | src/addrman.cpp:127-140 | The slot becomes empty; its occupant survives unless it had no other slot; every other entry survives. |
| `AddrManager.AddrMan.LeaveNew` | src/addrman.cpp:144-154 | The entry leaves all and only its new slots, and its reference count is zero as asserted. |
| `AddrManager.AddrMan.Evict` | src/addrman.cpp:161-181 | The occupant of a tried slot moves to its new slot, displacing at most the entry there. |
| `AddrManager.AddrMan.MakeTried` | src/addrman.cpp:142-188 | The entry takes its tried slot and leaves all new ones, an evicted occupant is back in the new slot of its own source, no entry changes otherwise, and no assert fires. |
| `AddrManager.AddrMan.Find` | src/addrman.cpp:68-79 | The entry is found exactly when the address is known. |
| `AddrManager.AddrMan.FindBucket` | src/addrman.cpp:219-233 | The scan over the buckets always finds one that holds the entry, from any starting point. |
| `AddrManager.AddrMan.Good` | src/addrman.cpp:190-254 | A known entry gets the statistics of a success and moves to tried exactly if its slot is free or may be taken at once; otherwise it is queued while the queue has room, and nothing else changes. |
| `AddrManager.AddrMan.Create` | src/addrman.cpp:81-91 | A new entry under the next id, known to all indexes and in no bucket yet. |
| `AddrManager.AddrMan.Place` | src/addrman.cpp:305-325 | The entry gets the slot for its source exactly if that is free, terrible, or multiply referenced against a new entry; an entry without any slot is dropped. |
| `AddrManager.AddrMan.AddUnknown` | src/addrman.cpp:298-325 | An unknown address becomes an entry, with exactly these data and slot, exactly if the slot lets it in; otherwise nothing of it remains. |
| `AddrManager.AddrMan.AddKnown` | src/addrman.cpp:270-325 | A known entry is refreshed; it gains the slot for this source, and a higher count, exactly if there is news, it is not tried, has fewer than eight slots, wins the draw of one in two to the count, and the slot is not its own and lets it in; otherwise nothing else changes. |
| `AddrManager.AddrMan.Add` | src/addrman.cpp:256-327 | New exactly if routable and unknown; the entry and the new table afterwards are given exactly for unknown and known addresses; only entries displaced from a new slot can disappear. |
| `AddrManIndex.Determined` | src/addrman.cpp:399-473 | Two consistent managers with the same tables and the same statistics have the same entries, addresses and counts: only the random order is free, so the contracts on tables and statistics fix the whole state. |
| `AddrManager.AddrMan.Attempt` | src/addrman.cpp:329-349 | Only the entry known under exactly this service changes: its last try and, if counted after the last good time, its attempts. |
| `AddrManager.AddrMan.Connected` | src/addrman.cpp:497-515 | Only the time of the entry known under exactly this service changes, and only if it is more than twenty minutes old. |
| `AddrManager.AddrMan.SetServices` | src/addrman.cpp:517-533 | Only the service flags of the entry known under exactly this service change. |
| `AddrManager.AddrMan.ResolveOne` | src/addrman.cpp:537-590 | A pending collision is forgotten, replaced or left waiting exactly as the times of the two entries say, with the effect of Good on replacement and none otherwise; its tried slot is never empty. |
| `AddrManager.AddrMan.ResolveCollisions` | src/addrman.cpp:535-592 | The pending collisions are settled one by one in the order of their ids: each by its verdict in the state left by those before, and one stays pending exactly if its verdict was to wait. |
| `AddrManager.SoleCollision` | src/addrman.cpp:556-578 | A single collision in hours and minutes: when the candidate takes the slot, when it waits, and when it is forgotten. |
| `AddrManager.AddrMan.SelectTriedCollision` | src/addrman.cpp:594-619 | The answer is the entry of the tried table in the slot of a pending one, never one made up by reading an empty slot; a pending entry that is gone is dropped. |
| `AddrManager.AddrMan.GetAddr` | src/addrman.cpp:476-495 | 23 percent of the entries, at most 2500, none twice and none terrible; fewer only if every entry that is not terrible is among them. |
| `AddrManager.AddrMan.Clear` | src/addrman.h:459-481 | All tables and indexes are empty and the last good time is one; the invariant holds afterwards exactly if no collision was pending. |
| `AddrManager.AddrMan.constructor` | src/addrman.h:483-486 | A new manager is empty and consistent, and its last good time is one. |
| `AddrManager.FirstFailure` | src/addrman.h:478 | The first failed attempt on an address that a new manager has heard of is counted. |
| `AddrManager.AddrMan.Run` | src/addrman.cpp:81-619 | Every run of operations from a consistent manager keeps the structural invariant. |
| `AddrManDisk.NumberedRenumber` | src/addrman.h:317-336 | The numbers written for the entries determine the entries. |
| `AddrManDisk.RestoredSound` | src/addrman.h:354-457 | What loading rebuilds from a consistent manager's data satisfies the structural invariant again. |
| `AddrManDisk.RestoredOccupant` | src/addrman.h:303-457 | Every new and every tried slot holds the same entry after saving and loading as before, under its new number. |
| `AddrManager.AddrMan.Serialize` | src/addrman.h:303-351 | The written data are the entries in order of id, new ones first, and the numbers in each bucket; no assert fires. |
| `AddrManager.AddrMan.LoadTried` | src/addrman.h:402-421 | No tried entry is lost to a collision. |
| `AddrManager.AddrMan.LoadBuckets` | src/addrman.h:423-439 | Every position of the new table is restored, with all reference counts. |
| `AddrManager.AddrMan.Prune` | src/addrman.h:441-451 | There is no unreferenced entry to delete. |
| `AddrManager.AddrMan.Unserialize` | src/addrman.h:353-457 | Loading what a consistent manager saved loses nothing and gives a consistent manager. |
| `CheckQueue.BatchSize` | src/checkqueue.h:107 | At least one check and never more than are queued; otherwise the greatest number up to the limit that leaves as many to each other thread. |
| `CheckQueue.RunBatchMeaning` | src/checkqueue.h:118-122 | A batch ends well exactly if it began well and all its checks hold, and then all of them ran. |
| `CheckQueue.LockInv` | src/checkqueue.h:74-117 | Each critical section keeps the invariant; when it makes Wait return, the answer is the truth about every check added since the last Wait. |
| `CheckQueue.StepInv` | src/checkqueue.h:66-158 | Every step of every thread, including spurious wake-ups, keeps the invariant. |
| `CheckQueue.RunInv` | src/checkqueue.h:66-158 | In every state of every interleaving nTodo counts the queued and the in-flight checks, and a sleeping master has a worker at work. |
| `CheckQueue.NoLostWakeUp` | src/checkqueue.h:77-101 | Whenever the master sleeps, some worker holds a batch whose report will wake it. |
| `CheckQueue.AnswersAreRight` | src/checkqueue.h:139-143 | In every run, whenever Wait returns, it returns true exactly if every check added for it holds. |
| `CheckQueue.LockDecreases` | src/checkqueue.h:74-117 | Every critical section that does not end Wait leaves less to do. |
| `CheckQueue.WaitOutcome` | src/checkqueue.h:139-143 | Under every scheduler Wait returns after finitely many steps, with the right answer. |
| `Mempool.NotBetterTrans` | src/txmempool.h:286-323 | The order by ancestor score is a weak order, so a best entry exists. |
| `BlockAssembler.UpdatePackagesForAdded` | src/miner.cpp:329-354 | After a package is added, every descendant's entry has lost exactly the added ancestors' size and signature operations, and of their fees the modified one of the first and the base ones of the rest. |
| `BlockAssembler.FeesExactWhen` | src/miner.h:112-124 | The fees of an updated entry are those of what is left of its package exactly if the ancestors that went in after the first have no priority delta in total. |
| `BlockAssembler.PrioritisedFeesDrift` | src/miner.cpp:343-350 | Two prioritised parents of one child, in either order, leave the child's entry with too much. |
| `BlockAssembler.CandidateExact` | src/miner.cpp:452-459 | At any time of the selection, the totals of an entry that never failed are the exact sums over its transactions not in the block; the fees too, if its ancestors in the block were not prioritised. |
| `BlockAssembler.SortForBlock` | src/miner.cpp:371-380 | The package, each member once, in order of ancestor count. |
| `BlockAssembler.AncestorCounts` | src/miner.cpp:374-376 | An ancestor has a smaller ancestor count, so sorting by it is a valid block order. |
| `BlockAssembler.Assembler.constructor` | src/miner.cpp:64-69 | The weight limit is clamped to 4000 and 3996000, and the empty template is within its limits. |
| `BlockAssembler.Assembler.AddToBlock` | src/miner.cpp:310-327 | The transaction is appended and every counter follows; the block stays closed and ordered. |
| `BlockAssembler.Assembler.OnlyUnconfirmed` | src/miner.cpp:269-280 | Exactly the members not in the block remain. |
| `BlockAssembler.Assembler.AddPackage` | src/miner.cpp:485-518 | The package goes in as a whole or not at all, sorted by ancestor count, with its ancestors before it, within the limits. |
| `BlockAssembler.Assembler.ChooseNext` | src/miner.cpp:413-459 | The package chosen is the best of all modified entries and all mempool entries not yet passed. |
| `BlockAssembler.Assembler.TryPackage` | src/miner.cpp:461-518 | A package goes in exactly if it fits and all its transactions may be mined; one that does not changes nothing but the record of failures. |
| `BlockAssembler.Assembler.AddPackageTxs` | src/miner.cpp:392-520 | The selection terminates. Its record of rounds, each the best of all candidates left, accounts for the block; it ends exactly with a package that is too cheap, after too many misses in a row, or when every transaction is in the block or was refused. One without ancestors in the block is then left out only because its whole package does not fit or may not be mined. The block is closed under ancestors, in a valid order, within its limits, and the assert on inBlock holds. |
| `BlockAssembler.Assembler.RoundExact` | src/miner.cpp:413-459 | A transaction not refused before is judged by exactly what its package would add to the block, and by its exact fees if its ancestors in the block were not prioritised. |
| `BlockAssembler.Assembler.RefusedWhole` | src/miner.cpp:413-519 | What was refused with none of its ancestors in the block could not be started with the final block either. |
| `MerkleBlock.WidthHalves` | src/merkleblock.h:65-68 | Each level of the tree has half the nodes of the one below, rounded up. |
| `MerkleBlock.RootExists` | src/merkleblock.cpp:121-124 | The loop for the height ends at a level with a single node. |
| `MerkleBlock.MatchesAreSelected` | src/merkleblock.cpp:60-76 | The tree walk visits the matched leaves of a node once each, in order. |
| `MerkleBlock.BuildSize` | src/merkleblock.cpp:140-145 | A tree has at most one hash for each transaction and at least one bit for each hash. |
| `MerkleBlock.ExtractBuilt` | src/merkleblock.cpp:78-114 | Reading back what was built for a node gives its hash, exactly its matches, and uses exactly its bits and hashes. |
| `MerkleBlock.RoundTrip` | src/merkleblock.cpp:116-163 | For distinct txids and an injective hash, extracting from a built tree, also after packing into bytes, gives the Merkle root and exactly the matched transactions; a block over the size limit is refused. |
| `MerkleBlock.ExtractSound` | src/merkleblock.cpp:78-114 | From arbitrary bits and hashes: if the walk ends well with a node's true hash, all matches it reported below are true. |
| `MerkleBlock.Sound` | src/merkleblock.cpp:132-163 | An arbitrary encoding for the block's number of transactions that extracts to the true root reports only true transactions at their true places, in order and none twice. |
| `MerkleBlock.PackBits` | src/merkleblock.h:99-103 | Bit p goes to bit p mod 8 of byte p / 8, and the padding is zero. |
| `MerkleBlock.UnpackBits` | src/merkleblock.h:92-98 | The bits of the bytes, eight for each. |
| `MerkleBlock.PartialMerkleTree.constructor` | src/merkleblock.cpp:116-128 | The tree holds the encoding of the block and the mask. |
| `MerkleBlock.PartialMerkleTree.TraverseAndBuild` | src/merkleblock.cpp:60-76 | Appends exactly the encoding of the node; the flag loop finds out whether a leaf below matches. |
| `MerkleBlock.PartialMerkleTree.TraverseAndExtract` | src/merkleblock.cpp:78-114 | Follows the extraction step by step, including its failure flag. |
| `MerkleBlock.PartialMerkleTree.ExtractMatches` | src/merkleblock.cpp:132-163 | The root and the matches, or the null hash if any of the sanity checks fails; the index list of the caller is appended to. |
| `MerkleBlock.PartialMerkleTree.Unserialize` | src/merkleblock.h:89-98 | The tree read from a stream, with its failure flag reset. |
| `MerkleBlock.SendAndExtract` | src/merkleblock.cpp:116-163 | Building, packing, unpacking and extracting gives the root and exactly the matched txids with their positions. |
| `RollingBloomFilter.FastMod` | src/bloom.cpp:243-245 | The result is always a valid place. |
| `RollingBloomFilter.WipeBits` | src/bloom.cpp:255-263 | The word-parallel mask clears exactly the positions that hold the generation number. |
| `RollingBloomFilter.ExpectedAges` | src/bloom.cpp:249-264 | The positions to forget when a generation starts are exactly those that hold its number. |
| `RollingBloomFilter.StampLater` | src/bloom.cpp:267-275 | Later insertions only extend the life of a position. |
| `RollingBloomFilter.LastElementsRemembered` | src/bloom.h:109-110 | Each of the last nElements keys inserted since the reset is remembered. |
| `RollingBloomFilter.RollingBloomFilter.constructor` | src/bloom.cpp:207-232 | A new filter is empty, with half the elements to a generation, rounded up. |
| `RollingBloomFilter.RollingBloomFilter.NextGeneration` | src/bloom.cpp:249-264 | Starting a generation forgets exactly the entries three generations old. |
| `RollingBloomFilter.RollingBloomFilter.Insert` | src/bloom.cpp:247-276 | The words hold, at every position, the generation of the last key that touches it, or nothing if that is over two generations old. |
| `RollingBloomFilter.RollingBloomFilter.Contains` | src/bloom.cpp:284-296 | True exactly if all positions of the key are alive, and so for each of the last nElements keys. |
| `RollingBloomFilter.RollingBloomFilter.Reset` | src/bloom.cpp:304-310 | The filter forgets everything. |
| `CuckooCache.BitPackedFlags.constructor` | src/cuckoocache.h:61-68 | All flags are set. |
| `CuckooCache.BitPackedFlags.BitSet` | src/cuckoocache.h:92-95 | One flag is set, all others are unchanged. |
| `CuckooCache.BitPackedFlags.BitUnset` | src/cuckoocache.h:103-106 | One flag is cleared, all others are unchanged. |
| `CuckooCache.BitPackedFlags.BitIsSet` | src/cuckoocache.h:113-116 | The flag is read. |
| `CuckooCache.Scaled` | src/cuckoocache.h:243-253 | A scaled hash is a valid slot. |
| `CuckooCache.AgedLive` | src/cuckoocache.h:305-311 | A change of epoch keeps exactly the live elements of the current epoch, now as old ones. |
| `CuckooCache.Cache.constructor` | src/cuckoocache.h:340-354 | No slot is live, the sizes are those of the formulas, and the bound on the epoch holds. |
| `CuckooCache.Cache.EpochCheck` | src/cuckoocache.h:289-321 | All slots age exactly if a scan is due and the current epoch is full, and nothing changes otherwise; the next scan comes before the epoch can outgrow its bound. |
| `CuckooCache.Cache.Insert` | src/cuckoocache.h:392-440 | After the epoch check, an element that is there is made live and current in its first slot; for another the slots are those of the cuckoo walk. The live entries are those before plus the new one, minus at most one; nothing is lost if there is room. |
| `CuckooCache.Cache.Displace` | src/cuckoocache.h:406-439 | The cuckoo walk puts an element into the first free of its slots or pushes out the one in the next; every displaced element moves to another of its own slots, with its epoch, and at most the last is lost. |
| `CuckooCache.Cache.Contains` | src/cuckoocache.h:467-477 | Found exactly if in one of its eight slots, erased or not, and always if live; erasing marks exactly the first slot that holds it, which leaves room, and lowers its live count by one if it was live there. |
| `CuckooCache.FoundAfterErase` | src/cuckoocache.h:442-457 | An element inserted and erased is found again exactly if it was found, which is unless it was the one lost, and its slot is free for the next insert. |
| `CuckooCache.Run` | src/cuckoocache.h:289-477 | Over all runs the live elements of the current epoch never exceed epoch_size + max(1, epoch_size / 16). |
| `ArithUint256.BaseUint.Assign` | src/arith_uint256.h:87-94 | The value is the 64-bit number. |
| `ArithUint256.BaseUint.Complement` | src/arith_uint256.h:68-74 | The value is 2^256 - 1 minus the number. |
| `ArithUint256.BaseUint.Increment` | src/arith_uint256.h:172-179 | One more, modulo 2^256. |
| `ArithUint256.BaseUint.AddAssign` | src/arith_uint256.h:134-144 | The sum modulo 2^256, also when the two are the same object. |
| `ArithUint256.BaseUint.Negate` | src/arith_uint256.h:76-83 | Two's complement. |
| `ArithUint256.BaseUint.SubAssign` | src/arith_uint256.h:146-150 | The difference modulo 2^256. |
| `ArithUint256.BaseUint.MulAssign32` | src/arith_uint256.cpp:58-67 | The product with a 32-bit number modulo 2^256. |
| `ArithUint256.BaseUint.MulAssign` | src/arith_uint256.cpp:70-83 | The product modulo 2^256. |
| `ArithUint256.ProductFits` | src/arith_uint256.cpp:75-79 | The 64-bit accumulator of the product never overflows. |
| `ArithUint256.BaseUint.ShlAssign` | src/arith_uint256.cpp:24-38 | Multiplication by a power of two modulo 2^256, for every shift. |
| `ArithUint256.BaseUint.ShrAssign` | src/arith_uint256.cpp:41-55 | The floor of the quotient by a power of two, for every shift. |
| `ArithUint256.BaseUint.CompareTo` | src/arith_uint256.cpp:112-121 | The order of the values. |
| `ArithUint256.BaseUint.Bits` | src/arith_uint256.cpp:174-186 | The number of bits, zero for zero. |
| `ArithUint256.BaseUint.DivAssign` | src/arith_uint256.cpp:86-109 | The exact floor of the quotient; division by zero fails and leaves zero. |
| `Compact.EqualTo` | src/arith_uint256.cpp:124-135 | Equality with a 64-bit number. |
| `Compact.OverflowExact` | src/arith_uint256.cpp:219-222 | The overflow test on mantissa and size is true exactly if the number is at least 2^256. |
| `Compact.SetCompact` | src/arith_uint256.cpp:206-224 | The value is mantissa times 256 to the size less three, modulo 2^256; the flags say exactly whether it is negative and whether it overflows. |
| `Compact.GetCompact` | src/arith_uint256.cpp:226-247 | The compact form of the number; both asserts hold. |
| `Compact.CompactedDecodes` | src/arith_uint256.cpp:206-247 | For every 256-bit number, decoding its compact form gives no sign and no overflow, and a number at most one mantissa step below. |
| `Compact.CompactedStable` | src/arith_uint256.cpp:206-247 | The decoded number has the same compact form. |
| `Compact.GetBlockProof` | src/chain.cpp:123-137 | The work is the floor of 2^256 / (target + 1) for every valid target, and zero otherwise. |
| `Compact.WorkFormula` | src/chain.cpp:131-135 | The formula that avoids 2^256 is exact. |
| `Chain.InvertsLowestOne` | src/chain.cpp:71-72 | Exactly the lowest bit that is set is cleared. |
| `Chain.SkipsBack` | src/chain.cpp:75-83 | A skip goes to a strictly lower height. |
| `Chain.BlockIndex.GetAncestor` | src/chain.cpp:85-110 | The skip list terminates and finds the block that walking back one by one would find; null for heights outside the chain. |
| `Chain.BlockIndex.BuildSkip` | src/chain.cpp:117-121 | The skip pointer leads to the right ancestor, and the tree stays consistent. |
| `Chain.Grow` | src/chain.cpp:117-121 | A tree grown block by block with skip pointers is consistent. |
| `Chain.LastCommonAncestor` | src/chain.cpp:156-173 | The highest common ancestor, or null if the blocks have different genesis blocks; the assert holds. |
| `Chain.ContainsLine` | src/chain.h:546-549 | The chain contains the tip and its ancestors and no other block. |
| `Chain.ActiveChain.SetTip` | src/chain.cpp:12-22 | Entry i becomes the ancestor of the tip at height i, although the walk stops where the old chain agrees. |
| `Chain.ActiveChain.FindFork` | src/chain.cpp:52-61 | The highest block of the chain on the line of the given block, or null if there is none. |
| `Chain.ActiveChain.GetLocator` | src/chain.cpp:24-50 | Entry i is the ancestor at the height of the start less i up to eleven, then less nine plus two to the i less ten, down to and including the first that is the genesis block. |
| `Chain.LocatorDescends` | src/chain.cpp:24-50 | A locator descends strictly from the start to the genesis block and has at most twelve entries plus the logarithm of the height. |
| `Chain.LocatorGaps` | src/chain.cpp:36-46 | The first twelve entries follow each other, and no later gap is more than double the one before. |
| `Chain.LocatorFindsFork` | src/chain.cpp:24-50 | For every fork below the start, a listed block is at or below it and at most twice as deep. |
| `Bech32.StepLinear` | src/bech32.cpp:73-93 | One step of the remainder is linear over exclusive or. |
| `Bech32.RunInjective` | src/bech32.cpp:38-95 | Two remainders followed by the same symbols are equal only if they were before. |
| `Bech32.ChecksumUnique` | src/bech32.cpp:119-142 | Exactly one list of six symbols verifies, and it is the one that is created. |
| `Bech32.OneSymbolDetected` | src/bech32.cpp:38-95 | Changing exactly one symbol changes the remainder. |
| `Bech32.OneErrorDetected` | src/bech32.cpp:160-191 | Replacing one data character of a valid string by one for another symbol makes it invalid. |
| `Bech32Errors.StepValue` | src/bech32.cpp:38-93 | Appending a symbol, with the reduction by the generator, is multiplication and addition at each of three successive powers of a generator of the field with 1024 elements. |
| `Bech32Errors.NoneFixed` | src/bech32.cpp:44-50 | The first ninety powers of that generator fix no element but zero. |
| `Bech32Errors.ThreeSymbolsDetected` | src/bech32.cpp:46-50 | Symbols that differ in one, two or three places of a window of 91 have different remainders. |
| `Bech32Errors.ThreeErrorsDetected` | src/bech32.cpp:160-191 | Replacing up to three data characters of a valid string by ones for other symbols makes it invalid, as the comment on the code promises. |
| `Bech32Errors.HrpErrorDetected` | src/bech32.cpp:160-191 | Replacing one character of the human-readable part of a valid string by another letter makes it invalid. |
| `Bech32.DecodeEncoded` | src/bech32.cpp:148-191 | Decoding inverts encoding for every legal lower-case human-readable part, up to 90 characters; longer strings are refused. |
| `Bech32.EncodeDecoded` | src/bech32.cpp:148-191 | Encoding a decoded string gives its lower-case form. |
| `Bech32.PolyMod` | src/bech32.cpp:38-95 | The loop computes the remainder. |
| `Bech32.ExpandHRP` | src/bech32.cpp:104-116 | Symbol i is the character's bits from the fifth on, then a zero, then the five bits below, by index. |
| `Bech32.VerifyChecksum` | src/bech32.cpp:119-126 | True exactly if the remainder is one. |
| `Bech32.CreateChecksum` | src/bech32.cpp:129-142 | The six groups of the remainder with zeros appended. |
| `Bech32.Encode` | src/bech32.cpp:148-157 | The string of the encoding. |
| `Bech32.Decode` | src/bech32.cpp:160-191 | The decoding, with all its checks; no table is read out of range. |
| `Base58.EncodeSizeSuffices` | src/base58.cpp:95 | 138/100 of the bytes, plus one, is always enough for the base 58 digits. |
| `Base58.DecodeSizeSuffices` | src/base58.cpp:49 | 733/1000 of the characters, plus one, is always enough for the bytes. |
| `Base58.MultiplyAdd` | src/base58.cpp:99-109 | The carry loop multiplies the number in the buffer and adds to it; the carry is zero at the end as asserted. |
| `Base58.Convert` | src/base58.cpp:94-115 | The digits of the same number in the other base, without leading zeros. |
| `Base58.EncodeBase58` | src/base58.cpp:85-123 | The encoding: a '1' for each leading zero byte, then the digits. |
| `Base58.DecodeBase58` | src/base58.cpp:36-83 | The decoding, with spaces around and failure at any other character. |
| `Base58.DecodeEncoded` | src/base58.cpp:36-123 | Decoding inverts encoding for every byte string. |
| `Base58.EncodeDecoded` | src/base58.cpp:36-123 | Encoding inverts decoding for every accepted string without spaces. |
| `Base58.EncodeBase58Check` | src/base58.cpp:135-142 | The encoding of the bytes followed by the start of their hash. |
| `Base58.DecodeBase58Check` | src/base58.cpp:144-159 | Accepted exactly if the last four bytes are the start of the hash of the others. |
| `Base58.CheckRoundTrip` | src/base58.cpp:135-159 | Encoding with a checksum and decoding gives the bytes back. |
| `Base58.CheckOnlyEncoded` | src/base58.cpp:135-159 | A string without spaces that is accepted is the encoding of the result and its hash. |
| `BitStream.BitStreamWriter.Write` | src/streams.h:564-579 | Appends the lowest bits of the data, the highest first, across byte boundaries. |
| `BitStream.BitStreamWriter.Flush` | src/streams.h:584-592 | The buffered bits are written, padded with zeros to a byte. |
| `BitStream.BitStreamReader.Read` | src/streams.h:516-535 | Reads the next bits as a number exactly if there are enough; bits not read stay. |
| `Serialize.SizeRoundTrip` | src/serialize.h:266-320 | A compact size is read back exactly if it is at most MAX_SIZE. |
| `BlockFilter.MapIntoRange` | src/blockfilter.cpp:63-87 | The multiplication in pieces is the floor of x * n / 2^64, below n, and no step overflows 64 bits. |
| `BlockFilter.CodeRoundTrip` | src/blockfilter.cpp:28-56 | Decoding a Golomb-Rice code gives the number back and leaves the bits after it. |
| `BlockFilter.GolombRiceEncode` | src/blockfilter.cpp:28-42 | The quotient in ones, written up to 64 at a time, a zero, and the remainder. |
| `BlockFilter.GolombRiceDecode` | src/blockfilter.cpp:45-56 | Reads one code, or fails at the end of the stream. |
| `BlockFilter.BuildHashedSet` | src/blockfilter.cpp:97-106 | The hashes of the elements, sorted. |
| `BlockFilter.Build` | src/blockfilter.cpp:135-163 | The filter holds the sorted hashes, exactly if there are fewer than 2^32 elements. |
| `BlockFilter.Parse` | src/blockfilter.cpp:112-133 | What the bytes are read as: failure for too little or too much data. |
| `BlockFilter.ReparseBuilt` | src/blockfilter.cpp:112-133 | A filter that was built is read back without error exactly if it has at most MAX_SIZE elements. |
| `Serialize.JustOverLimit` | src/serialize.h:317-318 | One element over the limit is written but cannot be read back. |
| `BlockFilter.MatchInternal` | src/blockfilter.cpp:165-195 | True exactly if the sorted queries and the sorted hashes have a member in common. |
| `BlockFilter.Match` | src/blockfilter.cpp:197-201 | True exactly if the element's hash is that of a member. |
| `BlockFilter.MatchAny` | src/blockfilter.cpp:203-207 | True exactly if the hashed queries and the hashed elements intersect. |
| `BlockFilter.MembersMatch` | src/blockfilter.h:71-82 | A member is never missed. |
| `CompactBlocks.DifferencesRoundTrip` | src/blockencodings.h:55-66 | Decoding the differences of every strictly increasing 16-bit list gives the list. |
| `CompactBlocks.AbsoluteRoundTrip` | src/blockencodings.h:55-66 | Whatever is decoded is strictly increasing and has these differences. |
| `CompactBlocks.RequestRoundTrip` | src/blockencodings.h:38-68 | Reading the bytes of a request gives its indexes. |
| `CompactBlocks.BlockTransactionsRequest.Write` | src/blockencodings.h:63-66 | The bytes of the differences. |
| `CompactBlocks.BlockTransactionsRequest.MakeAbsolute` | src/blockencodings.h:55-61 | Turns differences into indexes in place, or fails when they leave sixteen bits. |
| `CompactBlocks.PlaceNext` | src/blockencodings.cpp:62-76 | Each prefilled transaction gets an empty slot after the last one. |
| `CompactBlocks.PartiallyDownloadedBlock.PlacePrefilled` | src/blockencodings.cpp:61-77 | Accepted exactly if every prefilled transaction is real and its place can be filled; then all are in their places and the other slots are as many as the short ids. |
| `CompactBlocks.PartiallyDownloadedBlock.SkipFilled` | src/blockencodings.cpp:86-87 | The scan for the next empty slot stays within the block. |
| `CompactBlocks.PartiallyDownloadedBlock.IndexShortIds` | src/blockencodings.cpp:83-105 | Each short id is mapped to its slot; failure exactly for crowded buckets or equal short ids. |
| `CompactBlocks.PartiallyDownloadedBlock.Offer` | src/blockencodings.cpp:111-128 | The first transaction offered for a short id fills its slot, another one empties it; the count of held slots is exact and nothing enters a slot but with its short id. |
| `CompactBlocks.AllHeld` | src/blockencodings.cpp:129-133 | When the count of found transactions reaches that of the short ids, every slot has been found, so nothing is missed by stopping. |
| `CompactBlocks.PartiallyDownloadedBlock.Search` | src/blockencodings.cpp:107-166 | The offers up to the one that fills the last slot; after it every short id of an offered transaction is marked, whether or not the loop stopped early. |
| `CompactBlocks.PartiallyDownloadedBlock.InitData` | src/blockencodings.cpp:50-171 | Invalid, failed or taken up exactly as the message is malformed, has crowded or equal short ids, or neither; if taken up, the slots are those after both searches. Every slot is prefilled, empty, or holds a known transaction with the right short id; for a memory pool that lists nothing twice, it is filled exactly if all transactions offered for it were the same, and no known transaction with an unambiguous short id is missing, despite the early exits. |
| `CompactBlocks.PartiallyDownloadedBlock.FillBlock` | src/blockencodings.cpp:179-222 | The slots and the missing transactions in order make the block; too few or too many are refused. |
| `CompactBlocks.SoundAgrees` | src/blockencodings.cpp:50-171 | Without short id collisions, the slots of a message for a block hold only the block's transactions in their places. |
| `CompactBlocks.OnlyUnknownMissing` | src/blockencodings.cpp:50-171 | Without short id collisions, no transaction that the receiver knows is left to be requested. |
| `CompactBlocks.Rebuilds` | src/blockencodings.cpp:179-194 | With exactly the missing transactions, the block is rebuilt. |
| `CompactBlocks.MessageDescribes` | src/blockencodings.cpp:20-30 | The message made for a block describes it. |
| `CompactBlocks.Exchange` | src/blockencodings.cpp:20-222 | The message is taken up exactly if the short ids are distinct and no bucket is crowded; then requesting what is missing rebuilds the block's transaction list, and, if the memory pool lists nothing twice, nothing is requested that the receiver has. |

## Left out

- CoinsTower.CoinsViewCache: SetBackend, cursors, error catchers and the partial batches of the database are not modelled; the bottom of a tower is a plain map.
- Coins.TotalUsage: the heap size of a script is a function of the script, not of the allocator.
- AddrManager.AddrMan.Add: int64 times are unbounded integers.
- AddrManager.AddrMan.Unserialize: only data that a consistent manager wrote for the same bucket count, into a manager without pending collisions; corrupt or older data and their exceptions are not modelled, and the byte stream is a record of its fields.
- AddrManager.AddrMan.Run: does not include Select_, whose random walk ends only with probability one, nor GetAddressInfo_, which only reads.
- BlockAssembler.UpdatePackagesForAdded: the total of updated descendants, which only goes into the log, is returned but not specified.
- Mempool.NotBetterTrans: scores are compared over real numbers, not as doubles.
- CheckQueue.StepInv: a critical section is one step, and worker threads are never interrupted.
- MerkleBlock.RoundTrip: hashes are numbers without bound, so that the node hash can be injective.
- MerkleBlock.Sound: the number of transactions is taken from the block, as callers of GetNumTransactions do.
- RollingBloomFilter.RollingBloomFilter.constructor: the floating-point formulas for the sizes are parameters.
- CuckooCache.Cache.constructor: the floating-point depth limit is a parameter.
- CuckooCache.BitPackedFlags: the flags are not atomic; only calls from one thread at a time are modelled.
- Compact.GetBlockProof: GetBlockProofEquivalentTime and accumulated chain work are left out.
- Chain.ActiveChain.GetLocator: lists blocks where the source lists their hashes; the doubling step is an unbounded integer.
- Chain.BlockIndex.GetAncestor: the number of skips is not bounded; FindEarliestAtLeast is left out.
- Bech32.DecodeEncoded: characters are those of a byte string; symbols are five-bit numbers, as the callers of Encode promise.
- Bech32Errors.ThreeSymbolsDetected: the window is 91 symbols where the comment says 1023, because a string has at most 90 characters.
- Bech32Errors.ThreeErrorsDetected: the comment also promises four errors within 89 characters, a fact found by exhaustive search over the codes; it is not proved.
- Base58.DecodeBase58: the digits are collected before they are converted, where the source interleaves the two.
- BlockFilter.Build: the Golomb-Rice parameter is below 64, as a 64-bit shift demands; SipHash is a parameter, and which elements a block contributes is left out.
- CompactBlocks.PartiallyDownloadedBlock.InitData: takes messages with at most 65535 transactions, as reading a message enforces; the count of extra transactions for the log is left out.
- CBloomFilter, the fee estimator, scripts, keys, wallets, masternodes and proof of stake: not part of this model.
- limitedmap, banman, compressor, flatfile and the database iterators: only easy members.
