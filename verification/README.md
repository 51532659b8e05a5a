# Verified core of the BlackRaven node

A model, in Dafny, of the state-carrying core of the BlackRaven node (a Bitcoin and Dash descendant),
together with proofs that its data structures mean what their users rely on.

The modules follow the source files.

- `Coins` — the stack of unspent-output caches over a database. The meaning of a cache is one map,
  `View`: its entries laid over the view below. Every read agrees with the view, every write changes
  it by exactly one coin, flushing moves it down unchanged, and every legal run on a stack, with
  caches put on and given up along the way, reads and leaves what it does on a stack of plain maps.
- `CheckQueue` — the parallel script check queue as a transition system of any number of threads
  under one lock. In every state of every run no check is lost or done twice, the master's verdict
  is the conjunction of the checks that were given to `Add` since the last verdict, no thread misses
  its wake-up, there is no deadlock, and waiting takes a bounded number of steps.
- `AddrBook`, `AddrDump`, `AddrLoad`, `AddrMan` — the address manager. `Consistent` ties five cross-linked
  indexes and three counters together; every operation keeps it and forgets at most one address.
  Saving and loading gives back the same tables up to the numbering of the entries, and for every
  stream it is known when the loaded tables are consistent.
- `DbTransaction` — key-value transactions over a store or over each other, to any depth, and the
  merging iterator, which walks exactly the keys of the overlaid map, each once and in order. On top,
  the two levels of the deterministic database behave as three maps over every run.
- `CuckooCache` — the signature cache: insertion is a bounded walk of displacements that loses at most
  one live element, a full epoch gives up exactly the generation before it, and the number of live
  elements of the current epoch stays bounded.
- `RollingBloom` — the rolling filter: `contains` answers exactly "was every position written in the
  last three generations", hence never false for the keys of the window.
- `SkipList`, `BlockTree` — the block index with its skip pointers, the active chain, forks and
  locators. The walk along the skip pointers is at most quadratic in the bit length of the height,
  with the exact maximum.
- `ArithUint`, `Compact` — multi-limb arithmetic against integers, the compact target encoding and
  the proof of work of a block.
- `Base58`, `Amount`, `BoolEE`, `CompactBlocks` — radix conversion with checksums, amount
  compression, the boolean expression evaluator with the exact language it accepts, and compact block
  reconstruction, whose outcome the message and the offered transactions determine.
- `Bits`, `Wrappers` — shared arithmetic and option types.

Code that updates objects is modelled by classes whose methods are proved against functions of the
old state; the laws are then proved of those functions. Hash functions, keys, random choices, clocks
and block validation are parameters, so the results hold for all of them.

## Where code, comments and expectations differ

The model follows the code.

- `SpendCoin` returns true for a coin that is already spent if its tombstone is still cached, and
  `AddCoin` has already adjusted the usage counter when it refuses to overwrite.
- `AddCoin` without the overwrite permission keeps the FRESH flags truthful if and only if the view
  does not hold the coin; otherwise a later spend is forgotten (`Coins.MisappliedFreshLosesSpend`).
- `FetchCoin` marks an entry FRESH when the base returns a spent coin. No base does.
- `AddCoins` for a transaction that is not a coinbase, without the check, throws half way exactly if
  one of its outputs is cached; if one is only in the view below, the flags become untruthful
  (`Coins.AddCoins`).
- The comment in the cuckoo cache says the first displacement uses the first location; the code
  uses the second (`CuckooCache.FirstExchange`). The epoch size is 45 percent of the size if and only
  if `45 * size` does not wrap in 32 bits (`CuckooCache.EpochSizeFor`), and the flag bytes cover all
  entries only up to `2^32 - 8` of them (`CuckooCache.FlagBytesSuffice`), not the documented maximum.
- A rolling filter for no elements, or for `2^32 - 1` of them, has room for none per generation
  (`RollingBloom.RollingBloomFilter.constructor`).
- `Add_` returns true for an unknown address even when its slot is occupied and it is dropped again.
- Loading the address manager indexes full addresses although adding normalises the port. Loading
  what was saved is therefore consistent if and only if no stored address was changed by normalisation
  (`AddrLoad.SaveThenLoad`); `AddrMan.ReloadLosesPorts` runs a new manager into that. For streams of
  other origin `AddrLoad.LoadedIff` says which load consistently.
- `CDBTransaction::Commit` into a batch hides the changes until the batch is written: reads in between
  see the database as it was (`DbTransaction.Transaction.Commit`).
- Compact block positions are 16-bit numbers, but a message may announce 200000 transactions. Beyond
  65536 of them two short ids share a position (`CompactBlocks.OwnPositionsIff`), a prefilled
  transaction can be overwritten (`CompactBlocks.PrefilledLost`) and the block is not rebuilt
  (`CompactBlocks.BlockLost`). With 65536 prefilled transactions and any short id the scan for a free
  slot never ends (`CompactBlocks.ScanMayHang`); the status `Hangs` stands for that.
- Amount compression wraps for some amounts below the money limit (`Amount.MoneyRangeWraps`). The
  64-bit round trip holds if and only if the code fits (`Amount.RoundTrip64`).
- Multiplying a wide integer by itself in place (`a *= a`) gives zero, because the target is cleared first
  (`ArithUint.BaseUint.MulAssign`). Dividing by zero sets it to zero before the exception is thrown.
- The expression evaluator skips any run of characters that start no operand in front of a chain of
  at least two operands, at the start of the text and inside it (`BoolEE.SkippedTexts`). What it
  accepts with that is exact (`BoolEE.AcceptedIff`).
- The source reports 110 steps at most for going back from below height `2^18`, from simulations. That
  is the maximum (`SkipList.Within110`).

## Model

| member | source | states |
|---|---|---|
| Coins.CoinsViewCache.FetchCoin | src/coins.cpp:48-63 | looking up never changes any view in the stack; an entry is found exactly when it is cached afterwards, and a coin that is pulled up is the view's coin without flags |
| Coins.CoinsViewCache.GetCoin | src/coins.cpp:65-72 | succeeds exactly for the unspent coins of the view, returns the view's coin, and leaves the view alone through any depth of caches |
| Coins.CoinsViewCache.HaveCoin | src/coins.cpp:394-397 | true exactly for the coins of the view |
| Coins.CoinsViewCache.AccessCoin | src/coins.cpp:385-392 | the view's coin, or a spent one if there is none |
| Coins.CoinsViewCache.AddCoin | src/coins.cpp:74-93 | refused exactly for a cached unspent coin without permission; otherwise the view gains the coin unless it is unspendable; the flags stay truthful if and only if overwriting was declared or the view lacked the coin |
| Coins.AddedEntry | src/coins.cpp:80-92 | the entry AddCoin stores gives the view the coin, keeps usage exact, and keeps FRESH truthful if and only if overwriting was declared or the view lacked the coin |
| Coins.MisappliedFreshLosesSpend | src/coins.h:114-122 | a FRESH flag on a coin that the base has brings the base's coin back when the entry is spent and erased |
| Coins.CoinsViewCache.SpendCoin | src/coins.cpp:355-381 | removes exactly one coin from the view and hands it out; the return value is exact, including cached tombstones |
| Coins.CoinsViewCache.Uncache | src/coins.cpp:477-484 | drops exactly an unmodified entry and never changes the view |
| Coins.CoinsViewCache.MergeEntry | src/coins.cpp:414-468 | merging one modified child entry gives the parent's view the child's coin, in every combination of flags, and never hits the inconsistent-flags error |
| Coins.CoinsViewCache.BatchWrite | src/coins.cpp:414-468 | the new view is the batch laid over the old view, whatever order the entries are visited in |
| Coins.CoinsViewCache.Flush | src/coins.cpp:470-475 | the cache is empty, its view is unchanged, and the view below has become it; views further down are untouched |
| Coins.StoreEntry | src/coins.cpp:414-468 | storing an entry changes the view at one key; flags stay truthful if and only if the entry's are; usage moves by the difference of the coins |
| Coins.EraseEntry | src/coins.cpp:365-366 | erasing a FRESH entry is the same as spending it, keeps flags truthful and usage exact |
| Coins.Run | src/coins.cpp:48-484 | every legal sequence of adds, spends, lookups, uncachings, flushes, new caches on top and caches given up acts on a stack of any depth as on a sequence of plain maps, reads the same coins, and keeps flags and usage consistent |
| Coins.AddCoins | src/coins.cpp:252-256 | puts the spendable outputs before the first one that throws; throws exactly at an output that is not checked, not a coinbase's and cached unspent; otherwise the flags stay truthful if and only if no such output was in the view |
| Coins.PutOutputsAre | src/coins.cpp:252-256 | every spendable output becomes a coin of its own value, script, height and coinbase flag at its own place, and nothing else in the view changes |
| Coins.UnspendableIff | src/script/script.cpp:442-446 | an output is not stored exactly if its script starts with one of two opcodes, is longer than 10000 bytes or carries a zero asset amount |
| CheckQueue.NextInv | src/checkqueue.h:69-127 | every step of every thread keeps: counters exact, no check lost or duplicated, flags truthful, the master not asleep through the end of the work, and as many workers awake or notified as there are checks queued |
| CheckQueue.NextExists | src/checkqueue.h:69-127 | every enabled step can be taken |
| CheckQueue.EveryRunIsSafe | src/checkqueue.h:69-161 | in every state of every run nTodo counts the checks queued or held, there is one verdict for every Wait that has ended and it is the conjunction of the checks that the Add steps before it were given, the master never sleeps with nothing to do, and while checks are queued some worker is awake or notified, as many as there are checks |
| CheckQueue.RunHistory | src/checkqueue.h:143-161 | the recorded history is the concatenation of what the Add steps of the run were given, round by round |
| CheckQueue.AddEffect | src/checkqueue.h:149-161 | every check is queued and counted; one sleeping worker is notified for one check, all for more, the master never |
| CheckQueue.BatchSize | src/checkqueue.h:105-110 | a batch is the largest share of the queue that the limits allow, and at least one check |
| CheckQueue.AllDone | src/checkqueue.h:91-100 | when nTodo is zero nothing is queued or held and fAllOk is true exactly if all added checks pass |
| CheckQueue.AddInv | src/checkqueue.h:149-161 | adding a batch keeps the invariant: one worker is notified for one check and all for more, which is enough for the queue |
| CheckQueue.TakeInv | src/checkqueue.h:105-120 | taking a batch keeps the invariant: the batch is between one and the queue's length and leaves nothing behind |
| CheckQueue.FlushLockedInv | src/checkqueue.h:80-86 | booking a finished batch keeps the invariant and wakes the master on the last check |
| CheckQueue.ReturnInv | src/checkqueue.h:92-100 | returning the verdict resets the queue for the next one and keeps the invariant |
| CheckQueue.NoDeadlock | src/checkqueue.h:91-104 | while the master waits, some thread can take a step that is not a spurious wake-up |
| CheckQueue.StepProgress | src/checkqueue.h:69-127 | while the master waits no step raises the measure, and every step that is not a spurious wake-up lowers it |
| CheckQueue.WaitReturns | src/checkqueue.h:143-146 | in any run during which the master keeps waiting, spurious wake-ups included, the other steps are at most as many as the measure says |
| AddrBook.SlotsAre | src/addrman.cpp:12-31 | an address has one tried place by its own hash and one new place per source, among 256 and 1024 buckets of 64 |
| AddrMan.AddressManager.Find | src/addrman.cpp:68-84 | finds the entry of the normalised address, if and only if there is one |
| AddrMan.AddressManager.Create | src/addrman.cpp:86-101 | lists the address under a fresh id in all three entry indexes |
| AddrMan.AddressManager.SwapRandom | src/addrman.cpp:103-121 | exchanges two ids in the random order and their back references |
| AddrBook.SwapInv | src/addrman.cpp:103-121 | exchanging keeps all indexes consistent |
| AddrMan.AddressManager.Delete | src/addrman.cpp:123-140 | removes an unreferenced new entry from every index |
| AddrBook.DeleteInv | src/addrman.cpp:123-140 | deleting keeps all indexes consistent |
| AddrMan.AddressManager.ClearNew | src/addrman.cpp:142-155 | empties a slot of the new table and deletes its entry when that was its last slot |
| AddrBook.ClearInv | src/addrman.cpp:142-155 | clearing a slot keeps reference counts, counters and links consistent |
| AddrMan.AddressManager.MakeTried | src/addrman.cpp:157-203 | the entry leaves all its new slots and takes its tried slot; an occupant goes back to the new table with one reference, to the slot its own source gives it; what was there loses a reference and is forgotten exactly if that was its last; all other entries stay |
| AddrBook.MakeTriedMoves | src/addrman.cpp:157-203 | the same, entry by entry and slot by slot, for every consistent book |
| AddrBook.ClearedIs | src/addrman.cpp:142-155 | clearing a slot takes one reference from its entry, forgets the entry and its address exactly if that was the last, and changes nothing else |
| AddrBook.MakeTriedInv | src/addrman.cpp:157-203 | the whole move, eviction included, keeps all indexes and counters consistent although they are not in between |
| AddrMan.AddressManager.FindBucket | src/addrman.cpp:234-244 | the scan from a random start finds a bucket of the entry if and only if there is one |
| AddrMan.AddressManager.Good | src/addrman.cpp:205-257 | keeps consistency; a known address ends up tried with fresh statistics and the whole effect of the move is stated, an unknown one changes nothing, at most one other address is forgotten |
| AddrMan.AddressManager.Add | src/addrman.cpp:259-330 | keeps consistency and forgets at most one address; for every draw of the random test the result, the entry with its fields, whether a known entry gets one more slot, whether the address is kept and what gives way to it are exact |
| AddrMan.AddressManager.Refresh | src/addrman.cpp:273-300 | the penalised time and services, and that the entry may get another slot if and only if it is newer, not tried, below eight references and the draw admits it |
| AddrMan.PlaceInv | src/addrman.cpp:308-328 | placing an entry in a slot, over a terrible or much referenced one, keeps all indexes consistent |
| AddrMan.PlaceMoves | src/addrman.cpp:308-328 | an entry gets a slot that is free or gives way, with the effect on what was there; otherwise it is forgotten exactly if it has no slot |
| AddrMan.UnknownMoves | src/addrman.cpp:300-328 | an unknown address is listed under a fresh id with one slot, or nothing changes |
| AddrMan.TerribleIff | src/addrman.cpp:34-51 | the condition for an entry to be worth nothing, with its limits |
| AddrMan.AddressManager.Attempt | src/addrman.cpp:332-352 | changes only the statistics of an exactly matching entry and counts a failure only once per success elsewhere |
| AddrMan.AddressManager.Connected | src/addrman.cpp:500-518 | changes only the time of an exactly matching entry, at most every twenty minutes |
| AddrMan.AddressManager.GetAddr | src/addrman.cpp:479-498 | returns distinct entries that are not terrible, at most 23 percent and 2500 of them, and all of them if one more would still be within that; the random order stays a permutation |
| AddrMan.AddressManager.Run | src/addrman.cpp:205-518 | every sequence of calls with any arguments, times and random choices keeps the manager consistent |
| AddrMan.ReferenceBound | src/addrman.cpp:402-476 | in a consistent manager every reference count lies between zero and eight |
| AddrMan.EmptyConsistent | src/addrman.h:462-484 | the cleared manager is consistent |
| AddrMan.AddressManager.Clear | src/addrman.h:462-484 | empties every table, index and counter |
| AddrMan.AddressManager.Serialize | src/addrman.h:306-354 | writes exactly the structured stream of the book: the records with references, the tried records, and the bucket contents by record number |
| AddrMan.AddressManager.Unserialize | src/addrman.h:356-460 | accepts exactly streams within the limits; the result is the loaded book, for every stream, with collisions dropped and unreferenced entries pruned; it is consistent if and only if the entered addresses are normal and repeat only in pruned entries |
| AddrDump.RecordCounts | src/addrman.h:321-339 | the counters announced in the header are exactly the numbers of records written, which is what the code asserts |
| AddrDump.SavedInLimits | src/addrman.h:377-383 | what is saved always passes the limits that loading enforces |
| AddrDump.Renaming | src/addrman.h:320-339 | the numbering of the records is invertible: each entry gets one number, new entries before tried ones |
| AddrLoad.SaveThenLoad | src/addrman.h:306-460 | loading what was saved loses no entry, slot or reference and restores every table up to numbering; the result is consistent if and only if no stored address differs from its normal form |
| AddrLoad.LoadedSound | src/addrman.h:386-455 | whatever stream within the limits is loaded, bucket indexes used or not, the tables, references, random order and counters of the result are consistent, and only unreferenced entries were pruned |
| AddrLoad.EnteredEntries | src/addrman.h:386-440 | for every stream each new record is restored under its number, a tried slot holds the first record for it, and without usable buckets a new slot holds the first record whose own source leads there |
| AddrLoad.LoadedIff | src/addrman.h:386-460 | the loaded book is consistent as a whole if and only if the entered addresses are normal and an address repeats only in entries that are pruned |
| AddrLoad.DistinctLoads | src/addrman.h:386-460 | with ports, a stream of different full addresses always loads consistently |
| AddrMan.ReloadLosesPorts | src/addrman.h:306-460 | with ports ignored, a new manager that adds one address with a port is inconsistent after saving and loading |
| DbTransaction.Store.WriteBatch | src/dbwrapper.cpp:158-163 | the store becomes itself with the batch applied in order |
| DbTransaction.Transaction.Write | src/dbwrapper.h:613-627 | the view gains the value, at any depth of transactions; the memory counter stays the exact sum |
| DbTransaction.Transaction.Erase | src/dbwrapper.h:675-684 | the view loses the key; the memory counter stays the exact sum |
| DbTransaction.Transaction.Read | src/dbwrapper.h:634-651 | returns the view's value if and only if the key is in the view, through any depth of transactions |
| DbTransaction.Transaction.Exists | src/dbwrapper.h:658-668 | true exactly for the keys of the view |
| DbTransaction.Transaction.Clear | src/dbwrapper.h:686-690 | the view is the parent again |
| DbTransaction.Transaction.Commit | src/dbwrapper.h:692-700 | the target, a batch or the transaction underneath, gets exactly the pending changes and the transaction is empty; over a transaction the view is unchanged, over a batch it falls back to the database |
| DbTransaction.OverlaidCommit | src/dbwrapper.h:692-700 | erasing the erased keys and then writing the written ones gives the overlaid map |
| DbTransaction.Transaction.IsClean | src/dbwrapper.h:702-704 | true exactly if nothing is pending, and then the view is the parent's |
| DbTransaction.Transaction.CleanView | src/dbwrapper.h:702-704 | a transaction without changes shows its parent |
| DbTransaction.EvoDB.CommitCurTransaction | src/evo/evodb.cpp:43-47 | the changes of the scope become the root's, and no read can tell |
| DbTransaction.EvoDB.RollbackCurTransaction | src/evo/evodb.cpp:49-53 | the changes since the last commit are gone, and nothing else |
| DbTransaction.EvoDB.CommitRootTransaction | src/evo/evodb.cpp:55-62 | what was queued and the root's changes are in the database if it accepts them and in the batch if it does not; the views are the database |
| DbTransaction.EvoDB.Run | src/evo/evodb.h:39-106 | every run of writes, erasures, commits and rollbacks of scopes and root commits between them acts on three plain maps |
| DbTransaction.Transaction.GetMemoryUsage | src/dbwrapper.h:706-717 | the sum over pending writes and erasures |
| DbTransaction.LessTotal | src/dbwrapper.h:560-569 | the byte order of keys is total; with its irreflexivity and transitivity, a strict total order |
| DbTransaction.LessIff | src/dbwrapper.h:560-569 | a key is less than another if it is a proper prefix of it or has the smaller byte at the first difference |
| DbTransaction.TransactionIterator.SkipDeletedAndOverwritten | src/dbwrapper.h:526-534 | moves the parent cursor, of a store or of a transaction, to its least key that the transaction does not touch |
| DbTransaction.TransactionIterator.CurrentIsLeast | src/dbwrapper.h:536-548 | the current key is the least key of the view above the last one |
| DbTransaction.TransactionIterator.Seek | src/dbwrapper.h:438-443 | lands on the least key of the view at or above the given one |
| DbTransaction.TransactionIterator.SeekToFirst | src/dbwrapper.h:426-431 | lands on the least key of the view |
| DbTransaction.TransactionIterator.Next | src/dbwrapper.h:449-462 | lands on the least key of the view above the current one |
| DbTransaction.TransactionIterator.GetValue | src/dbwrapper.h:513-523 | the view's value at the current key |
| DbTransaction.TransactionIterator.Walk | src/dbwrapper.h:400-549 | for nested transactions of any depth, walking from any start visits exactly the view's keys from there on, each once, in strictly rising order |
| CuckooCache.BitPackedFlags.BitSet | src/cuckoocache.h:92-95 | sets one flag and no other |
| CuckooCache.BitPackedFlags.BitUnset | src/cuckoocache.h:103-106 | clears one flag and no other |
| CuckooCache.BitPackedFlags.BitIsSet | src/cuckoocache.h:113-116 | reads the flag |
| CuckooCache.FlagBytesSuffice | src/cuckoocache.h:61-68 | the 32-bit byte count covers all entries if and only if there are at most 2^32 - 8 |
| CuckooCache.Locations | src/cuckoocache.h:243-253 | the eight hashes, each as a fraction of 2^32 scaled to the table, are slots of it |
| CuckooCache.Cache.constructor | src/cuckoocache.h:340-353 | an empty cache of at least two slots; it is usable if and only if the flags cover it, at most 2^32 - 8 entries |
| CuckooCache.EpochSizeFor | src/cuckoocache.h:340-353 | the epoch is 45 percent of the size, at least one, if and only if the 32-bit product does not wrap |
| CuckooCache.FirstExchange | src/cuckoocache.h:417-439 | the first element to be displaced is the one at the second location, because no location is the invalid value the search starts from |
| CuckooCache.CuckooWalk | src/cuckoocache.h:406-439 | displacement is a walk of exchanges, each at the location that follows the last one; it ends at the first element with a free location, or after exactly the depth limit, and then the element in hand is lost |
| CuckooCache.Cache.EpochCheck | src/cuckoocache.h:289-321 | if the counter has run out and the live elements of the epoch are too many, exactly these stay live and become old, and every other slot is given up; otherwise no slot changes |
| CuckooCache.EpochCheckOutcome | src/cuckoocache.h:289-321 | the same for any table, with the counter that follows: a new epoch has no live element, and a scan that finds room comes back when the room could be used up |
| CuckooCache.EpochCheckBound | src/cuckoocache.h:289-321 | after a check one more insertion still keeps the live elements of the epoch plus the counter within the bound |
| CuckooCache.EpochCheckKeepsCurrent | src/cuckoocache.h:289-321 | a check never collects a live element of the current epoch |
| CuckooCache.Cache.Contains | src/cuckoocache.h:467-477 | true exactly if the element is in one of its slots, collected or not; always for a live element; erasing marks one slot and nothing else |
| CuckooCache.Cache.EraseThenContains | src/cuckoocache.h:442-456 | an element found for erasure is found again, on one thread, as the documentation promises |
| CuckooCache.Cache.Place | src/cuckoocache.h:406-440 | the displacement loop computes the recursive cuckoo walk; it adds the element and drops at most one live element, none if a slot of its own was free |
| CuckooCache.Cache.Insert | src/cuckoocache.h:392-440 | keeps every live element at one of its locations and the epoch bound; the slots after insertion are exact |
| CuckooCache.InsertLosesAtMostOne | src/cuckoocache.h:372-391 | all live elements but at most one survive an insertion, and nothing else appears |
| CuckooCache.LiveIsFound | src/cuckoocache.h:467-477 | a live element is found at one of its eight locations |
| RollingBloom.PosOf | src/bloom.cpp:328-369 | the scaled hash selects a pair of words inside the table and the low six bits of the hash select the bit |
| RollingBloom.WipedLabel | src/bloom.cpp:349-358 | the mask clears exactly the labels of the generation that starts |
| RollingBloom.StoredLabel | src/bloom.cpp:361-369 | storing labels exactly one position with the generation |
| RollingBloom.RollingBloomFilter.constructor | src/bloom.cpp:301-326 | an empty filter with half the elements, rounded up in 32 bits, per generation; usable if and only if that is at least one and the table is not empty |
| RollingBloom.RollingBloomFilter.Insert | src/bloom.cpp:341-370 | every label stays the one that the whole history of insertions determines, and the key is in the window |
| RollingBloom.RollingBloomFilter.Contains | src/bloom.cpp:378-390 | true if and only if each position was last written within the last three generations; true for every key of the window |
| RollingBloom.RollingBloomFilter.RecentImpliesAllRecent | src/bloom.h:120 | the last nElements keys, and up to half as many more, are never reported missing |
| RollingBloom.RollingBloomFilter.Reset | src/bloom.cpp:398-406 | forgets the history and takes the new tweak |
| SkipList.GetSkipHeight | src/chain.cpp:72-81 | skips go strictly downwards |
| SkipList.WalkBound | src/chain.cpp:72-107 | from below height 2^m, m at least 10, to any height, the walk takes at most (m + 2)^2 / 4 + m - 8 steps |
| SkipList.BoundIsMet | src/chain.cpp:72-107 | for every such m the walk from 2^m - 8 to 2 takes exactly that many |
| SkipList.Within110 | src/chain.cpp:76-78 | 110 steps suffice from below height 2^18, and are needed once |
| BlockTree.BlockIndex.GetAncestor | src/chain.cpp:83-107 | the skip-list walk returns the ancestor that following parents gives, and nothing outside the height range, in the number of steps that SkipList bounds |
| BlockTree.BlockIndex.BuildSkip | src/chain.cpp:114-118 | the skip pointer leads to the ancestor at the skip height, and the tree stays well formed |
| BlockTree.AncestorCompose | src/chain.cpp:83-107 | the ancestor of an ancestor is an ancestor |
| BlockTree.AppendBlock | src/chain.cpp:114-118 | adding a block anywhere keeps the tree well formed |
| BlockTree.Chain.SetTip | src/chain.cpp:11-21 | the chain holds exactly the ancestors of the new tip, although copying stops early |
| BlockTree.Chain.ContainsIsAncestry | src/chain.h:480-503 | membership by height is ancestry of the tip; exactly the blocks below the tip have a next block, which is a child in the chain |
| BlockTree.Chain.FindFork | src/chain.cpp:51-60 | the highest common block of the chain and the given branch |
| BlockTree.Chain.GetLocator | src/chain.cpp:23-49 | ancestors of the start, one step apart for the first twelve and then at gaps that double, strictly descending from the start to genesis |
| BlockTree.LocatorHeights | src/chain.cpp:23-49 | the schedule gives strictly falling heights that end at genesis |
| BlockTree.LastCommonAncestor | src/chain.cpp:154-169 | the highest block that is an ancestor of both |
| ArithUint.BaseUint.Complement | src/arith_uint256.h:77-83 | all ones minus the value |
| ArithUint.BaseUint.Increment | src/arith_uint256.h:181-188 | one more, modulo the width |
| ArithUint.BaseUint.Negate | src/arith_uint256.h:85-92 | the additive inverse modulo the width |
| ArithUint.BaseUint.AddAssign | src/arith_uint256.h:143-153 | the sum modulo the width, also when both operands are the same object |
| ArithUint.BaseUint.SubAssign | src/arith_uint256.h:155-159 | the difference modulo the width, also of an object and itself |
| ArithUint.BaseUint.MulAssign | src/arith_uint256.cpp:69-83 | the product modulo the width, for any number of limbs; zero when target and operand are one object |
| ArithUint.BaseUint.ShiftLeft | src/arith_uint256.cpp:24-38 | multiplication by a power of two modulo the width, for any shift |
| ArithUint.BaseUint.ShiftRight | src/arith_uint256.cpp:40-55 | division by a power of two, for any shift |
| ArithUint.BaseUint.DivAssign | src/arith_uint256.cpp:85-109 | the exact quotient; division by zero fails and leaves zero |
| ArithUint.BaseUint.ShiftSubtract | src/arith_uint256.cpp:97-107 | the shift-and-subtract loop turns the numerator into its quotient, bit by bit |
| ArithUint.BaseUint.CompareTo | src/arith_uint256.cpp:111-121 | the order of the values |
| ArithUint.BaseUint.BitLength | src/arith_uint256.cpp:190-203 | the position of the highest set bit |
| ArithUint.BaseUint.Assign64 | src/arith_uint256.h:96-103 | the 64-bit value |
| ArithUint.BaseUint.GetLow64 | src/arith_uint256.h:262-266 | the value modulo 2^64 |
| Compact.SetCompact | src/arith_uint256.cpp:225-243 | the value of the encoding modulo 2^256; the overflow flag is true exactly if it does not fit, the sign flag exactly for a non-zero value with the sign bit |
| Compact.OverflowExact | src/arith_uint256.cpp:238-241 | the three-way size test is exactly "does not fit in 256 bits" |
| Compact.GetCompact | src/arith_uint256.cpp:245-266 | the normal encoding of the value |
| Compact.EncodingUnique | src/arith_uint256.cpp:245-266 | a value and a sign have one normal encoding |
| Compact.ExpansionTruncates | src/arith_uint256.cpp:225-266 | expanding an encoding truncates by less than one part in 2^15, and encoding again gives the same word |
| Compact.CanonicalIff | src/arith_uint256.cpp:225-266 | expanding and encoding gives a word back if and only if it is canonical |
| Compact.GetBlockProof | src/chain.cpp:120-133 | the quotient of 2^256 and the target plus one, although 2^256 does not fit; zero for a refused target |
| Compact.NeverAllOnes | src/chain.cpp:120-133 | no compact target is 2^256 - 1, so the divisor is never zero |
| Compact.OneMore | src/chain.cpp:128-132 | the rewritten quotient is the intended one |
| Compact.ProofAntitone | src/chain.cpp:120-133 | a compact target gives no proof if and only if it is refused, and one with a lower value never gives less |
| Base58.BytesFit | src/base58.cpp:81 | the estimated buffer holds the digits of any byte string |
| Base58.SymbolsFit | src/base58.cpp:34 | the estimated buffer holds the bytes of any symbol string |
| Base58.MulAdd | src/base58.cpp:42-51 | the in-place carry loop multiplies the buffer's number and adds the digit, with no carry left over |
| Base58.ConvertedInverse | src/base58.cpp:21-109 | converting between two bases with leading zeros kept is invertible, for any bases |
| Base58.AlphabetFixed | src/base58.cpp:19-20 | the alphabet is all ASCII letters and digits except 0, I, O and l, in the order of their codes |
| Base58.EncodeBase58 | src/base58.cpp:71-109 | the symbols of the converted bytes |
| Base58.EncodedIff | src/base58.cpp:71-109 | a word of symbols is the encoding of some bytes exactly if it has the same number and the same leading zeros |
| Base58.KnownStrings | src/test/data/base58_encode_decode.json:2-13 | four of the pairs that the tests list |
| Base58.ReadWord | src/base58.cpp:33-53 | accepts exactly words of symbols and leaves their number in the buffer |
| Base58.DecodeBase58 | src/base58.cpp:21-69 | the decoded string, or failure |
| Base58.DecodedIff | src/base58.cpp:21-69 | a string decodes to some bytes if and only if it is their encoding with only spaces around it, up to the first NUL |
| Wrappers.SpaceCodes | src/base58.cpp:24-56 | the six characters that count as spaces |
| Base58.PayloadIff | src/base58.cpp:23-60 | the scan accepts exactly one word of symbols between spaces |
| Base58.EncodeThenDecode | src/base58.cpp:21-109 | decoding undoes encoding for every byte string |
| Base58.DecodeThenEncode | src/base58.cpp:21-109 | encoding undoes decoding for every string of symbols, leading ones included |
| Base58.EncodeBase58Check | src/base58.cpp:121-128 | the encoding of the bytes and the first four bytes of their hash |
| Base58.DecodeBase58Check | src/base58.cpp:130-145 | returns the bytes that check if there are any, and is empty otherwise |
| Base58.CheckedIff | src/base58.cpp:130-145 | a string checks as some bytes if and only if it decodes to them with their checksum |
| Base58.CheckRoundTrip | src/base58.cpp:121-145 | a checked encoding decodes to its own bytes and to no others |
| Amount.CompressAmount | src/compressor.cpp:142-159 | the code modulo 2^64, every operation wrapping |
| Amount.DecompressAmount | src/compressor.cpp:161-185 | the decoded amount modulo 2^64 |
| Amount.CompressThenDecompress | src/compressor.cpp:133-185 | decompression undoes compression for every natural number |
| Amount.DecompressThenCompress | src/compressor.cpp:133-185 | compression undoes decompression, so every number is a code |
| Amount.KnownCodes | src/test/compress_tests.cpp:42-47 | the six pairs that the tests list |
| Amount.RoundTrip64 | src/compressor.cpp:142-185 | with 64-bit arithmetic the amount comes back if and only if it ends in zero or nine times it, plus its last digit, is below 2^64 + 9 |
| Amount.CodeFitsIff | src/compressor.cpp:142-159 | that condition says exactly that the code fits in 64 bits |
| Amount.MoneyRangeWraps | src/amount.h:26 | an amount within the money range does not come back |
| BoolEE.RemoveWhitespaces | src/LibBoolEE.cpp:158-166 | the text without its spaces, in order |
| BoolEE.DenseParts | src/LibBoolEE.cpp:158-166 | removing spaces distributes over concatenation |
| BoolEE.DenseOne | src/LibBoolEE.cpp:158-166 | a single character is removed exactly if it is a space |
| BoolEE.SingleParse | src/LibBoolEE.cpp:19-68 | the pieces between top-level operators, or the first error |
| BoolEE.EvaluateRec | src/LibBoolEE.cpp:74-146 | the recursive evaluator with its error cases |
| BoolEE.SplitIs | src/LibBoolEE.cpp:19-68 | junk and quiet pieces joined by an operator split into exactly these pieces |
| BoolEE.SplitGives | src/LibBoolEE.cpp:19-68 | conversely, a text that splits into several pieces is junk and these pieces, quiet and joined by the operator |
| BoolEE.ResolveShown | src/LibBoolEE.cpp:74-146 | the text of a well-formed structure over known names resolves to its value |
| BoolEE.AcceptedIff | src/LibBoolEE.cpp:70-146 | over names, a text resolves to a value if and only if without its spaces it is the text of a well-formed structure, with skipped characters in front of chains, over known names and with that value |
| BoolEE.TextKeepsMeaning | src/LibBoolEE.cpp:74-146 | adding the parentheses that precedence needs makes any formula a well-formed structure without skipped characters and keeps its truth value |
| BoolEE.FormulaResolves | src/LibBoolEE.cpp:70-146 | every formula over known names resolves to its truth value, whatever its shape, depth and spacing |
| BoolEE.SkippedTexts | src/LibBoolEE.cpp:19-68 | two texts that are accepted although characters in them belong to no expression |
| CompactBlocks.EncodeIndexes | src/blockencodings.h:63-66 | the differences, in 64 bits |
| CompactBlocks.DecodeIndexes | src/blockencodings.h:43-62 | the running sums, or failure on 16-bit overflow |
| CompactBlocks.IndexRoundTrip | src/blockencodings.h:38-68 | a list of indexes comes back if and only if it is strictly increasing |
| CompactBlocks.Compact | src/blockencodings.cpp:20-30 | the message holds the first transaction whole and the short ids of all others in order, and so describes the block |
| CompactBlocks.PartiallyDownloadedBlock.Prefill | src/blockencodings.cpp:57-76 | accepts exactly lists whose entries are non-empty and in range, and puts each in its own slot and nothing elsewhere |
| CompactBlocks.PartiallyDownloadedBlock.NextFree | src/blockencodings.cpp:82-86 | the 16-bit offset stops at the next free slot, or never if 65536 slots are prefilled |
| CompactBlocks.PartiallyDownloadedBlock.IndexIds | src/blockencodings.cpp:77-105 | maps the short ids to the free slots in order, in 16 bits; fails exactly on equal ids or an overfull bucket, and hangs exactly with an id and 65536 prefilled slots |
| CompactBlocks.OwnPositionsIff | src/blockencodings.cpp:82-87 | every short id gets its own free slot if and only if there are at most 65536 slots |
| CompactBlocks.PrefilledSafeIff | src/blockencodings.cpp:82-87 | no short id leads to a prefilled slot if and only if no prefilled slot is 65536 below another slot |
| CompactBlocks.PrefilledStay | src/blockencodings.cpp:57-165 | then all prefilled transactions stay, whatever is offered |
| CompactBlocks.PrefilledLost | src/blockencodings.cpp:57-165 | otherwise there is a pool with which a prefilled slot ends up with another transaction |
| CompactBlocks.BlockLost | src/blockencodings.cpp:50-221 | for a block of more than 65536 different transactions there is a pool of its own transactions with which it is not rebuilt |
| CompactBlocks.PositionsMayWrap | src/consensus/consensus.cpp:9-14 | there is such a message within the limit of 200000 transactions |
| CompactBlocks.ScanMayHang | src/blockencodings.cpp:82-86 | there is a message within that limit for which the scan never ends |
| CompactBlocks.PartiallyDownloadedBlock.TakeFrom | src/blockencodings.cpp:106-165 | a slot holds the first transaction offered for it unless a later one looked at spoils it, any from the pool or a different one from the extra transactions; the scan stops exactly after the first offer that leaves every short id with its slot; the count is that of the filled slots |
| CompactBlocks.PartiallyDownloadedBlock.InitData | src/blockencodings.cpp:50-170 | the status is exact for every message, hanging included; afterwards every slot is prefilled, holds the first offer for it, or is empty because none came or a later one spoiled it, over exactly the offers that both scans look at, by 16-bit position |
| CompactBlocks.InitialisedOnce | src/blockencodings.cpp:50-170 | this determines all slots and the count |
| CompactBlocks.PartiallyDownloadedBlock.FillBlock | src/blockencodings.cpp:178-221 | merges the missing transactions into the empty slots in order; too few or too many fail, with the state left behind |
| CompactBlocks.SlotsAreOwn | src/blockencodings.cpp:50-170 | up to 65536 transactions and without short-id confusion every available slot holds the block's own transaction |
| CompactBlocks.Rebuilds | src/blockencodings.cpp:20-221 | compacting, matching and filling in the missing transactions gives the block back, up to 65536 transactions |

## Left out

- The asset, restriction and qualifier branches of `AddCoins` and `SpendCoin`, block hashes and the database error paths of the coin views: they do not touch the coins of the view.
- Coins.AddCoins: outputs with the value -1, which no transaction has, are excluded; the source asserts that coins are not spent.
- CheckQueue.WaitReturns: bounds the steps other than spurious wake-ups; a scheduler that wakes threads for no reason forever is not ruled out. A check's outcome is a fixed property of the check.
- AddrMan.AddressManager.Add: the outcome of the random test is a parameter.
- AddrMan.AddressManager.Good: the unused random bucket choice only affects where the scan starts.
- AddrMan.AddressManager.Serialize: the stream is the structured value that the bytes spell out; byte order, the key-size byte, the masked bucket count and truncated streams are not modelled.
- AddrMan.AddressManager.Unserialize: requires a complete stream with non-negative counts, as every saved stream is (`AddrDump.RecordCounts`). A stream that ends early throws in the source with the tables half filled.
- Address selection by chance (`Select_`, `GetChance`) and the statistics conditions of the debug check.
- DbTransaction.Transaction.Read: a stored value of another type throws in the source and cannot be expressed here.
- DbTransaction.EvoDB.CommitRootTransaction: the lock, the best-block key and the database's own error text are not modelled.
- CuckooCache.Cache.constructor: the depth limit, a logarithm in floating point, is a parameter; sizing by bytes and concurrent erasure are not modelled.
- RollingBloom.RollingBloomFilter.constructor: the number of hash functions and the table size are parameters, because the floating-point formulas only affect the false-positive rate; the plain bloom filter is not modelled.
- SkipList.WalkBound: stated from height 2^10 up; for lower heights the bound at 10 holds.
- BlockTree.Chain.GetLocator: the step counter does not overflow 32 bits; chain work, block status and time search are not modelled.
- Bitwise operators, hexadecimal text, floating point and the small-operand overloads of the wide integers.
- Base58.DecodeBase58: `isspace` is the C locale's; addresses and secret keys built on the codec are not modelled.
- BoolEE.SingleParse: character classes are ASCII; the text of error reports is not modelled, and which of several errors is reported is stated by the evaluator's recursion only.
- CompactBlocks.PartiallyDownloadedBlock.InitData: whether a hash bucket is overfull is a parameter; the count of extra transactions and logging are not modelled.
- CompactBlocks.PartiallyDownloadedBlock.FillBlock: block validation is a parameter.
- Script evaluation, wallets, networking, mining, masternodes and the user interface.
