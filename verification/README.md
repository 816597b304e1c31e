# HootChain core data structures and protocols, verified

This project models the parts of HootChain, a Bitcoin-derived node, whose correctness is hardest to
see from the code, and proves what they are for. Each component has a value-level module with the
meaning of its operations and the theorems about them, and, where the source updates state in place, a
second module with the same arrays, maps and loops, every method of which is proved against the first.

| component | modules | the main result |
|---|---|---|
| layered coin cache | `Coins`, `CoinsCache` | every legal run on a stack of caches of any depth answers like a pile of plain maps |
| address manager | `AddrMan`, `AddrManLaws`, `AddrManTables` | every run keeps the six structures consistent, no assertion in the source can fail, and with sensible clocks the debug check passes; exactly who keeps and who loses a slot of either table |
| address manager file | `AddrManFile`, `AddrManStorage`, `AddrManRebucket` | written and read back, the address manager is the same up to the names of its entries; read under another address map it is consistent, and exactly which entries survive |
| parallel check queue | `CheckQueue` | in every interleaving each verdict is right, and `Wait` returns only when drained, never gets stuck and terminates |
| signature cache | `Cuckoo`, `CuckooLaws`, `CuckooTable` | a displacement chain of any length loses nothing but the one element it drops; over every run no more is live than two epochs hold, and an inserted element outlives the next ageing |
| nested database transactions | `DbTransaction`, `DbObjects`, `EvoDb` | a transaction is an overlay, its iterator lists exactly the keys of that overlay in order, and every run of the masternode database refines three plain maps |
| partial Merkle trees | `PartialMerkle`, `MerkleRoot`, `PartialMerkleTree` | any proof with the right root claims only true matches or exhibits a collision; exactly when an honest one survives the round trip |
| rolling Bloom filter | `RollingBloom`, `RollingBloomFilter`, `Words` | exactly which positions are set, and for how many inserts, after any run |
| block index and active chain | `SkipHeights`, `Chain` | skip pointers find the ancestor that the plain walk finds, in a number of rounds quadratic in the digits of the height; forks, locators and searches are exact |
| 256-bit integers | `Limbs`, `LimbShifts`, `Arith`, `Compact`, `Bits` | limb arithmetic is arithmetic modulo 2^256; the compact form, its overflow test, its canonical forms and block proof are exact |
| Bech32 | `Bech32`, `Bech32Codec`, `Bech32Errors`, `Bech32Vector` | exactly which strings are accepted; errors within six neighbouring data characters, one error in the prefix, and two errors wherever they are, are rejected |
| Base58 | `Base58`, `Base58Codec` | exactly which strings are accepted, and as what; the fixed-size buffers never overflow |
| compact blocks | `CompactBlock`, `CompactMatch`, `PartialBlock` | a receiver assembles exactly the block of the sender, and asks for exactly what it does not have |
| merged mining proofs | `AuxPow`, `AuxPowSlots` | a tagged coinbase commits to one hash for each chain, or exhibits a collision of the hash function; every honest proof is accepted; exactly which chains share a slot |
| compact filters | `Gcs`, `GcsFilter`, `FastRange` | a filter matches every element it was built for, and the merge scan decides membership exactly |

`Common` and `Arithmetic` hold small shared definitions. `dfyconfig.toml` lists all files, so that
`dafny verify dfyconfig.toml` checks the whole project.

Conventions. Hash functions are function-valued parameters. No hash of 32 bytes is free of collisions; where a
result depends on their absence, it says instead that it holds or that two given pairs collide, and a lemma beside
it says that an injective function exhibits none. The current time, random numbers, the traversal order of hash
maps and the results of code that is not modelled are parameters too. Exceptions and failed checks of the
source are `Option` values, `ok` flags or status values. A state-changing method says that the
abstract value of its object is a function of the old one; the lemmas about that function say what it
means.

Where the source and its remarks differ, the model follows the code:

- `src/cuckoocache.h` says that the first displaced location is the first of the eight; the search for the
  last location returns the end at first, so the chain starts at the second (`Cuckoo.ChainStartsAtSecond`). That
  the element just put in is not moved again holds for exactly the elements whose locations are spread
  (`Cuckoo.ChainMovesOnIff`); for others the new element itself can be dropped, already by the second insert after
  set-up (`Cuckoo.SecondIsDropped`, `Cuckoo.BackAndForth`), and a caller that finds room for it before the insert is
  safe (`Cuckoo.RoomSuffices`).
- `src/cuckoocache.h` sets an epoch to 45% of the table. The product is taken in 32 bits, so that this holds if and only
  if the table has at most 95443717 slots (`CuckooLaws.SetUpExact`); with one more an epoch is a single entry
  (`CuckooLaws.SetUpWraps`).
- `src/coins.h` documents five states of a cache entry; one of them, spent, FRESH and not DIRTY, cannot
  arise (`Coins.ReachableStates`).
- `CCoinsViewCache::AddCoin` without overwriting relies on its callers; ignoring their duty brings a coin back
  (`Coins.UnguardedAddResurrects`), and the duty is exact (`Coins.AddWithoutOverwriteIff`).
- The rolling Bloom filter remembers one insert more than twice its generation size, more than is promised
  (`RollingBloom.ContainsLast`), and exactly that many whenever a generation starts (`RollingBloom.RemembersExactly`).
- `src/merkleblock.h` bounds the flag bits of a partial Merkle tree by twice its hashes less one. That fails for three
  transactions of which the last is matched (`PartialMerkle.BitsBoundFails`); it holds if and only if no matched
  transaction is below a node with one child (`PartialMerkle.BitsBoundIff`).
- The Merkle root determines a list of transaction ids only among lists of one depth
  (`MerkleRoot.RootDetermines`, `MerkleRoot.DepthMatters`).
- `CAuxPow::getExpectedIndex` derives the slot of a chain from its id and a nonce, to make it less likely that two chains
  clash. The nonce has no part in that: whether two chains clash depends on their ids and the size of the tree alone
  (`AuxPowSlots.SlotsMeetIff`).
- Division of a 256-bit number by zero fails, but only after the number has been set to zero (`Arith.BaseUint.Div`).
- The debug check of the address manager demands a last success of every tried entry; marking an address good at time
  0 leaves none (`AddrMan.TimeZeroFailsCheck`), and `AddrMan.GoodTimesIff` gives the exact condition.
- `CAddrMan::SelectTriedCollision_` would read a missing entry if the tried slot that a recorded collision waits
  for were empty; no operation of a run empties a tried slot, so it does not (`AddrMan.CollisionHasOccupant`).
  `CAddrMan::Clear`, which is not an operation of those runs, empties all of them and keeps the recorded collisions:
  it keeps the invariant if and only if there are none (`AddrMan.ClearKeepsIff`,
  `AddrMan.ClearedCollisionLacksOccupant`).

## Model

| member | source | states |
|---|---|---|
| `Coins.FetchKeepsViews` | src/coins.cpp:40-55 | fetching through any number of levels fills caches, keeps the invariant and changes no view |
| `Coins.GetAnswersView` | src/coins.cpp:57-64 | the answer is exactly what the plain map of the level holds |
| `Coins.AccessAnswersView` | src/coins.cpp:137-144 | likewise for AccessCoin, with the empty coin for none |
| `Coins.AddUpdatesView` | src/coins.cpp:66-98 | a legal add writes the coin into the top map, or nothing if it is unspendable, and leaves the base alone |
| `Coins.UnspendableIff` | src/script/script.h:531-534 | scripts that start with 0x6a, or are longer than 10000 bytes |
| `Coins.AddWithoutOverwriteIff` | src/coins.cpp:66-98 | an add without overwrite succeeds and keeps the invariant if and only if no unspent coin is visible there |
| `Coins.UnguardedAddResurrects` | src/coins.cpp:66-98 | a concrete stack on which an add against the rule lets a spent coin reappear |
| `Coins.SpendUpdatesView` | src/coins.cpp:119-133 | spending removes exactly that coin from the top map and hands it out |
| `Coins.UncacheKeepsViews` | src/coins.cpp:229-236 | uncaching changes no view |
| `Coins.FlushNeverThrows` | src/coins.cpp:166-220 | on an invariant stack the misapplied-FRESH exception is unreachable |
| `Coins.FlushMovesView` | src/coins.cpp:222-227 | flushing keeps the top view, gives the base that same view, empties the cache and keeps the invariant |
| `Coins.ReachableStates` | src/coins.h:88-103 | entries are in four of the five documented states |
| `Coins.StepRefines` | src/coins.cpp:40-236 | one legal operation refines the same operation on plain maps, at every level |
| `Coins.RunRefines` | src/coins.cpp:40-236 | every legal run gives the answers and the final maps of the reference, and ends in the invariant |
| `CoinsCache.CoinsDb.BatchWrite` | src/txdb.cpp:87-150 | the database after a batch, in any order of the child's map |
| `CoinsCache.CoinsViewCache.constructor` | src/coins.cpp:34 | a new cache over a base |
| `CoinsCache.CoinsViewCache.FetchCoin` | src/coins.cpp:40-55 | acts on the stack of objects as the function does, levels below included |
| `CoinsCache.CoinsViewCache.GetCoin` | src/coins.cpp:57-64 | the answer is the coin of the level's plain map (by GetAnswersView), and only caches on the way down are filled |
| `CoinsCache.CoinsViewCache.AccessCoin` | src/coins.cpp:137-144 | likewise, with the empty coin for none |
| `CoinsCache.CoinsViewCache.HaveCoin` | src/coins.cpp:146-149 | true exactly when GetCoin finds a coin |
| `CoinsCache.CoinsViewCache.AddCoin` | src/coins.cpp:66-98 | the top map gains the coin as AddUpdatesView says; it fails exactly where the source throws |
| `CoinsCache.CoinsViewCache.SpendCoin` | src/coins.cpp:119-133 | the top map loses the coin, which is handed out, as SpendUpdatesView says |
| `CoinsCache.CoinsViewCache.Uncache` | src/coins.cpp:229-236 | an unmodified entry leaves the cache, and no view changes |
| `CoinsCache.CoinsViewCache.MergeOne` | src/coins.cpp:168-217 | one flushed entry changes one entry of the parent and keeps the usage count exact |
| `CoinsCache.CoinsViewCache.MergeAll` | src/coins.cpp:167-218 | the loop merges the whole map whatever its order, and throws exactly if some entry is misapplied |
| `CoinsCache.CoinsViewCache.BatchWrite` | src/coins.cpp:166-220 | the merged level has the view of the child; it fails exactly if a FRESH entry meets an unspent one, in whatever order the map is traversed |
| `CoinsCache.CoinsViewCache.Flush` | src/coins.cpp:222-227 | pushes the changes down and empties the cache |
| `CoinsCache.CoinsViewCache.FlushSafely` | src/coins.cpp:222-227 | on an invariant stack it cannot throw, and top and base then show the coins that the top showed |
| `CoinsCache.AddCoins` | src/coins.cpp:108-117 | all spendable outputs enter the view, and nothing else changes in it |
| `CheckQueue.NextKeeps` | src/checkqueue.h:68-129 | every step of every thread keeps the invariant of counters, queue and verdict |
| `CheckQueue.TodoIsExact` | src/checkqueue.h:68-129 | in every run nTodo is the number of queued and held checks |
| `CheckQueue.BatchFits` | src/checkqueue.h:106-124 | a batch is never empty and within both limits |
| `CheckQueue.BatchExact` | src/checkqueue.h:106-124 | it is one check, or the largest number within the limit of which all threads and one more could have as many |
| `CheckQueue.EveryVerdictIsRight` | src/checkqueue.h:160-163 | in every run each finished round was true exactly when all its checks pass |
| `CheckQueue.ReturnKeeps` | src/checkqueue.h:91-99 | on return the verdict is right and the state is reset for the next round |
| `CheckQueue.ReturnsOnlyWhenDrained` | src/checkqueue.h:91-99 | in every run Wait returns only with nothing queued and nothing held |
| `CheckQueue.SleepingMasterIsAwaited` | src/checkqueue.h:68-129 | a sleeping, un-notified master always has a worker that still holds a check: no lost wake-up |
| `CheckQueue.NeverStuck` | src/checkqueue.h:68-129 | while the master waits some real step is possible |
| `CheckQueue.EveryStepDescends` | src/checkqueue.h:68-129 | each such step lets Wait return or decreases a measure |
| `CheckQueue.SpuriousWakeNeutral` | src/checkqueue.h:99-101 | a wake-up without cause never adds to the measure |
| `CheckQueue.WaitTerminates` | src/checkqueue.h:68-129 | in every run, as long as the master waits, the steps other than wake-ups without cause are at most the measure at the start |
| `AddrMan.FindsAllSlots` | src/addrman.cpp:216-227 | the search through hashed positions finds every slot of an entry |
| `AddrMan.DeleteKeeps` | src/addrman.cpp:175-194 | the assertions of Delete and SwapRandom hold and the invariant is kept |
| `AddrMan.ClearNewKeeps` | src/addrman.cpp:196-211 | its assertion holds and clearing any slot keeps the invariant |
| `AddrMan.EvictKeeps` | src/addrman.cpp:234-255 | moving the occupant of a tried slot back to the new table keeps the invariant |
| `AddrMan.MakeTriedKeeps` | src/addrman.cpp:213-261 | all assertions of MakeTried hold on a new entry and the invariant is kept |
| `AddrMan.MakeTriedRelated` | src/addrman.cpp:213-261 | no tried slot is freed and no address changes |
| `AddrMan.AddKeeps` | src/addrman.cpp:335-410 | every announcement keeps the address manager consistent |
| `AddrMan.GoodKeeps` | src/addrman.cpp:263-333 | marking any address good, in both modes, keeps it consistent |
| `AddrMan.GoodFindsItsBucket` | src/addrman.cpp:300-318 | the search for a bucket of a new entry always succeeds |
| `AddrMan.CollisionHasOccupant` | src/addrman.cpp:723-750 | a recorded collision always has an occupant to test |
| `AddrMan.ClearKeepsIff` | src/addrman.h:472-497 | clearing keeps the invariant if and only if no collision is recorded, whatever key is drawn |
| `AddrMan.ClearedCollisionLacksOccupant` | src/addrman.h:472-497 | otherwise a new entry can get the number of a recorded collision while the slot it waits for is empty |
| `AddrMan.RandomCounts` | src/addrman.cpp:488-563 | vRandom lists every id once and has length nTried + nNew |
| `AddrMan.TablesAccountForAll` | src/addrman.cpp:520-560 | both tables hold exactly the entries of their kind, new ones one to eight times |
| `AddrMan.ChosenIsExact` | src/addrman.cpp:566-599 | the selection holds exactly the wanted entries |
| `AddrMan.StepKeeps` | src/addrman.cpp:263-750 | every operation keeps the address manager consistent |
| `AddrMan.RunKeeps` | src/addrman.cpp:263-750 | so does every run of operations |
| `AddrMan.EveryRunIsConsistent` | src/addrman.cpp:488-563 | every run from the empty address manager keeps mapInfo, mapAddr, vRandom, both tables and both counts consistent, whatever the clocks say |
| `AddrMan.GoodTimesIff` | src/addrman.cpp:263-333 | marking good keeps the times that the debug check wants if and only if the time is at least 1, or the address is unknown, or it is 0 and only a collision is recorded |
| `AddrMan.CheckedIff` | src/addrman.cpp:488-563 | a consistent address manager passes every test of the debug check if and only if its times are fine |
| `AddrMan.EveryRunPassesCheck` | src/addrman.cpp:488-563 | every run whose clocks are past zero passes every test of the debug check, but that of the key |
| `AddrMan.TimeZeroFailsCheck` | src/addrman.cpp:500-501 | an address that is added and marked good at time 0 fails it |
| `AddrManLaws.MakeTriedExact` | src/addrman.cpp:213-261 | an entry moved to tried changes exactly its slot there, and whoever had the slot has one reference, in its home slot of the new table |
| `AddrManLaws.GoodExact` | src/addrman.cpp:263-333 | what marking good records (a success, a try, no failures), and when the entry moves to tried, waits for a test, or stays |
| `AddrManLaws.ResolveSettles` | src/addrman.cpp:663-720 | who keeps a disputed tried slot: an occupant that succeeded in the last four hours; a candidate, if the occupant was tried in that time and more than a minute ago, or was not and the candidate has waited for forty minutes; otherwise nothing changes |
| `AddrManLaws.ResolveGuards` | src/addrman.cpp:660-721 | an entry that succeeded in the last four hours or was tried in the last minute keeps its tried slot through the resolution of any collisions |
| `AddrManLaws.ResolveWaits` | src/addrman.cpp:660-721 | collisions that all have to wait leave everything as it is |
| `AddrManLaws.AtMostTenCollisions` | src/addrman.cpp:322-330 | over every run from the empty address manager at most ten collisions are recorded |
| `AddrManLaws.PlaceExact` | src/addrman.cpp:386-407 | the slot for a source goes to the new entry exactly if it is empty or its occupant is terrible, or has another reference and the entry none; otherwise the occupant stays |
| `AddrManLaws.TerribleIff` | src/addrman.cpp:46-66 | an entry is terrible exactly if it was not tried in the last minute and is too old, from the future, or has failed too often |
| `AddrManLaws.RefreshedExact` | src/addrman.cpp:351-360 | an announcement adds its services, and moves the time forward exactly if it is later by more than an hour or a day |
| `AddrManLaws.AddKnownExact` | src/addrman.cpp:335-410 | announcing a known address refreshes its record, changes no other record and no tried slot, and at most its slot for the source |
| `AddrManLaws.ReferenceEarned` | src/addrman.cpp:362-407 | exactly when a known entry gains a reference: seen later, fewer than eight, a draw of one in two to their number, and a free or terrible slot |
| `AddrManLaws.AddNewExact` | src/addrman.cpp:381-409 | an unknown address is entered exactly if its slot is free or yields, with the announced time less the penalty |
| `AddrManLaws.OneFailureCounted` | src/addrman.cpp:412-434 | however often an address is tried after the last success of any, at most one failure is counted |
| `AddrManLaws.ConnectedExact` | src/addrman.cpp:601-621 | a connection moves the time of exactly that address and port forward, if it is more than twenty minutes old |
| `AddrManLaws.SetServicesExact` | src/addrman.cpp:623-641 | services are set for exactly that address and port |
| `AddrManLaws.OtherPortUnknown` | src/addrman.cpp:601-641 | a known address is not found under another port |
| `AddrManTables.BucketTable.constructor` | src/addrman.h:481-499 | a table starts with every slot empty |
| `AddrManTables.CAddrMan.constructor` | src/addrman.h:471-520 | a new address manager is empty and consistent |
| `AddrManTables.CAddrMan.SwapRandom` | src/addrman.cpp:151-173 | exchanges two places and both back-references |
| `AddrManTables.CAddrMan.Delete` | src/addrman.cpp:175-194 | the entry leaves mapInfo, mapAddr and vRandom, and the entry that was last takes its place |
| `AddrManTables.CAddrMan.ClearNew` | src/addrman.cpp:196-211 | empties a slot and deletes an entry that loses its last reference |
| `AddrManTables.CAddrMan.UnlistAll` | src/addrman.cpp:216-229 | the loop removes every reference of the entry |
| `AddrManTables.CAddrMan.EvictTried` | src/addrman.cpp:234-255 | the occupant of a tried slot is back in the new table, in its home slot, whose occupant lost a reference |
| `AddrManTables.CAddrMan.MakeTried` | src/addrman.cpp:213-261 | all references of the entry are gone and it is in its tried slot, as MakeTriedKeeps presumes |
| `AddrManTables.CAddrMan.Find` | src/addrman.cpp:115-131 | the id of the address, if it is known |
| `AddrManTables.CAddrMan.Create` | src/addrman.cpp:133-149 | a new entry at the end of vRandom, and the time and count that Add_ sets |
| `AddrManTables.CAddrMan.Place` | src/addrman.cpp:386-407 | the slot goes as PlaceExact says |
| `AddrManTables.CAddrMan.ComputeFactor` | src/addrman.cpp:371-376 | the loop computes two to the number of references |
| `AddrManTables.CAddrMan.Add` | src/addrman.cpp:335-410 | acts as AddrMan.Add, which AddKeeps, AddTimes, AddKnownExact and AddNewExact are about, and tells exactly whether the address was new |
| `AddrManTables.CAddrMan.HasBucket` | src/addrman.cpp:300-312 | the rotated search finds a bucket exactly if there is one |
| `AddrManTables.CAddrMan.Good` | src/addrman.cpp:263-333 | acts as AddrMan.Good, which GoodKeeps, GoodExact and GoodTimesIff are about, whatever start is drawn for its search |
| `AddrManTables.CAddrMan.Attempt` | src/addrman.cpp:412-434 | the try and the count that OneFailureCounted is about; consistency is kept |
| `AddrManTables.CAddrMan.Connected` | src/addrman.cpp:601-621 | as ConnectedExact says; consistency is kept |
| `AddrManTables.CAddrMan.SetServices` | src/addrman.cpp:623-641 | as SetServicesExact says; consistency is kept |
| `AddrManTables.CAddrMan.ResolveOne` | src/addrman.cpp:663-720 | one recorded collision ends as ResolveSettles says |
| `AddrManTables.CAddrMan.JudgeCollision` | src/addrman.cpp:663-720 | the verdict that ResolveSettles is about, without any change |
| `AddrManTables.CAddrMan.ResolveCollisions` | src/addrman.cpp:660-721 | all recorded collisions in ascending order, with what ResolveGuards and ResolveWaits say of the whole |
| `AddrManTables.CAddrMan.SelectTriedCollision` | src/addrman.cpp:723-750 | the occupant, which always exists for an id that is still known |
| `AddrManTables.CAddrMan.GetAddr` | src/addrman.cpp:566-599 | a prefix of a shuffle is scanned; within the limit all wanted entries are returned |
| `AddrManFile.CountsWritten` | src/addrman.h:260-283 | the counts asserted while writing are the numbers of entries written |
| `AddrManFile.CountsAccepted` | src/addrman.h:346-360 | a consistent address manager never exceeds the limits that reading enforces |
| `AddrManFile.LoadTriedIs` | src/addrman.h:372-394 | no tried entry is lost to a collision |
| `AddrManFile.EntriesAre` | src/addrman.h:284-299 | every reference that is written is read |
| `AddrManFile.PlaceAllIs` | src/addrman.h:427-457 | every reference is placed where it was |
| `AddrManFile.SaveThenLoad` | src/addrman.h:238-457 | reading back gives the same entries, addresses, tables, reference counts and counters up to renaming |
| `AddrManFile.RenamedKeeps` | src/addrman.h:238-470 | what is read back is as consistent as what was written |
| `AddrManFile.RenamedTimes` | src/addrman.h:65-69 | what is read back passes the tests on times if what was written did |
| `AddrManFile.NothingPruned` | src/addrman.h:459-470 | the final loop removes no entry of a consistent address manager |
| `AddrManStorage.WriteNew` | src/addrman.h:260-273 | records and numbers of the new entries; the assertion on nNew holds |
| `AddrManStorage.WriteTried` | src/addrman.h:274-283 | records of the tried entries; the assertion on nTried holds |
| `AddrManStorage.WriteBuckets` | src/addrman.h:284-299 | the numbers of the entries of every bucket, in order |
| `AddrManStorage.Serialize` | src/addrman.h:238-307 | the file is the one specified |
| `AddrManStorage.ReadNew` | src/addrman.h:362-370 | entries under ids from 0 on |
| `AddrManStorage.ReadTried` | src/addrman.h:372-394 | entries in their slots, as FirstTriedIsKept says; those whose slot is taken are lost and not counted |
| `AddrManStorage.ReadBuckets` | src/addrman.h:396-412 | the references with a valid number |
| `AddrManStorage.PlaceEntries` | src/addrman.h:427-457 | the new table and reference counts of PlaceAll, the old ones for the same address map by PlaceAllIs, and those of FirstIsPlaced for another |
| `AddrManStorage.Prune` | src/addrman.h:459-470 | exactly the unreferenced new entries go, with their addresses, and the others keep all but their places in vRandom |
| `AddrManStorage.Unserialize` | src/addrman.h:309-470 | accepts exactly the counts within limits, and then holds what SaveThenLoad, AnyFileIsConsistent and SurvivesIff are about, without its unreferenced entries |
| `AddrManStorage.Reload` | src/addrman.h:238-470 | a fresh object that reads what another wrote is valid, the same up to renaming, and passes the debug check if the times were fine |
| `AddrManRebucket.AnyFileIsConsistent` | src/addrman.h:309-470 | every file in which no address is repeated, whatever its buckets, address map and counts of entries lost, is read as a consistent address manager |
| `AddrManRebucket.FirstTriedIsKept` | src/addrman.h:372-394 | a tried slot goes to the first record that belongs there, the others are lost |
| `AddrManRebucket.FirstIsPlaced` | src/addrman.h:438-457 | after a change of the address map a slot goes to the first entry, in the order of the old buckets, whose primary slot it is |
| `AddrManRebucket.SurvivesIff` | src/addrman.h:438-470 | after a change a new entry survives exactly if it is that first one; then it has that slot and one reference |
| `AddrManRebucket.ReloadedElsewhere` | src/addrman.h:238-470 | a consistent address manager that is written and read under any other map and hashes is accepted and consistent |
| `AddrManRebucket.AloneSurvives` | src/addrman.h:438-470 | an entry that shares its new primary slot with no other is not lost |
| `Cuckoo.ComputedInRange` | src/cuckoocache.h:239-255 | computed locations lie within the table |
| `Cuckoo.DisplaceKeeps` | src/cuckoocache.h:417-437 | a chain of any length keeps elements at home and unique |
| `Cuckoo.DisplaceCounts` | src/cuckoocache.h:417-437 | a chain loses only the element it drops and adds at most one to the current epoch |
| `Cuckoo.InsertKeeps` | src/cuckoocache.h:389-437 | every insert keeps the invariant |
| `Cuckoo.InsertConserves` | src/cuckoocache.h:389-437 | live elements after an insert: those that ageing left, the new one unless it was found live, and without the one dropped |
| `Cuckoo.ContainsIsExact` | src/cuckoocache.h:466-476 | every live element is found, and no absent one |
| `Cuckoo.InsertThenContains` | src/cuckoocache.h:389-476 | after an insert the new element and all live ones are found, all but the one dropped |
| `Cuckoo.RoomSuffices` | src/cuckoocache.h:389-411 | with one of its eight slots free or holding it after the epoch check, the new element is found and nothing live is lost |
| `Cuckoo.AgedKeeps` | src/cuckoocache.h:300-313 | ageing keeps the invariant and empties the current epoch; what it frees is in EpochCheckExact |
| `Cuckoo.InsertBounded` | src/cuckoocache.h:285-317 | the current epoch never outgrows its bound |
| `Cuckoo.RunKeeps` | src/cuckoocache.h:389-476 | over every run of inserts and erases |
| `Cuckoo.EveryRunIsBounded` | src/cuckoocache.h:336-349 | from set-up on |
| `Cuckoo.ChainStartsAtSecond` | src/cuckoocache.h:417-428 | the first displacement takes the second location |
| `Cuckoo.ChainMovesOnIff` | src/cuckoocache.h:413-428 | a displacement never goes back to the slot just filled, for any of the eight locations, if and only if no location is followed by itself where it first occurs |
| `Cuckoo.Bounces` | src/cuckoocache.h:401-437 | two elements with one common slot displace each other, and an even number of rounds drops the new one |
| `Cuckoo.InsertBounces` | src/cuckoocache.h:389-437 | such an insert with an even depth limit drops its own element |
| `Cuckoo.SecondIsDropped` | src/cuckoocache.h:389-437 | from set-up, the second of two elements that share their only slot is not in the table after the two inserts |
| `Cuckoo.BackAndForth` | src/cuckoocache.h:389-437 | such a run on a table of four: 5 is inserted after 1 and not found |
| `CuckooLaws.SetUpExact` | src/cuckoocache.h:336-349 | everything is free, and an epoch is 45 hundredths of the table, rounded down, if and only if it has at most 95443717 slots |
| `CuckooLaws.SetUpWraps` | src/cuckoocache.h:345-346 | with one slot more an epoch is a single entry |
| `CuckooLaws.DisplaceWeighs` | src/cuckoocache.h:417-437 | a chain conserves the number of live entries of every kind of element and epoch, up to the one it drops: each element takes its epoch along |
| `CuckooLaws.EpochCheckExact` | src/cuckoocache.h:285-317 | when the current epoch is full exactly its live entries stay live, and are old; otherwise only the counter changes, and the next check comes before the epoch can be overfull |
| `CuckooLaws.LiveIsBounded` | src/cuckoocache.h:285-349 | over every run from set-up at most two epochs and their slack are live |
| `CuckooLaws.AlwaysRoom` | src/cuckoocache.h:285-349 | over every run from set-up a cache of 21 to 95443717 slots has a free one |
| `CuckooLaws.EraseExact` | src/cuckoocache.h:466-476 | an erased element is not live, and stays where it is |
| `CuckooLaws.EraseOthers` | src/cuckoocache.h:466-476 | and every other element is as before |
| `CuckooLaws.InsertedIsKept` | src/cuckoocache.h:389-437 | an inserted element is found through every run that neither erases nor drops it and ages the entries at most once |
| `CuckooTable.BitPackedFlags.Set` | src/cuckoocache.h:92-96 | sets one bit and no other |
| `CuckooTable.BitPackedFlags.Unset` | src/cuckoocache.h:103-107 | clears one bit and no other |
| `CuckooTable.BitPackedFlags.IsSet` | src/cuckoocache.h:113-117 | reads the bit |
| `CuckooTable.CuckooCache.constructor` | src/cuckoocache.h:336-349 | everything default, free and of the first epoch |
| `CuckooTable.CuckooCache.EpochCheck` | src/cuckoocache.h:285-317 | counts the current epoch and ages all entries exactly when it is full, as EpochCheckExact says |
| `CuckooTable.CuckooCache.Insert` | src/cuckoocache.h:389-437 | the new table and the element dropped are those of Cuckoo.Insert, which InsertConserves, InsertBounded and InsertedIsKept are about |
| `CuckooTable.CuckooCache.Contains` | src/cuckoocache.h:466-476 | true exactly if one of the eight slots holds the element; erasing frees the slot found, as EraseExact says |
| `DbTransaction.WriteUpdates` | src/dbwrapper.h:598-612 | a write changes one key of the overlay and keeps the memory usage exact |
| `DbTransaction.EraseUpdates` | src/dbwrapper.h:659-669 | an erase removes one key of the overlay and keeps the memory usage exact |
| `DbTransaction.ReadsView` | src/dbwrapper.h:619-653 | reads answer from the overlay through any number of levels |
| `DbTransaction.CommitMovesView` | src/dbwrapper.h:677-685 | with the parent as target, the parent then shows exactly what the transaction showed |
| `DbTransaction.UsageNeverNegative` | src/dbwrapper.h:543 | the usage counter is exact and never negative |
| `DbTransaction.MergeLists` | src/dbwrapper.h:398-533 | writes merged with what shows through of the parent list the overlay's keys in order |
| `DbTransaction.ListingUnique` | src/dbwrapper.h:546-555 | the ascending listing of a set of keys is unique |
| `DbObjects.CDBTransaction.Write` | src/dbwrapper.h:598-612 | one key of the overlay, with both maps and the usage counter updated as WriteUpdates presumes |
| `DbObjects.CDBTransaction.Read` | src/dbwrapper.h:619-636 | the value that the overlay holds, through any number of levels |
| `DbObjects.CDBTransaction.Exists` | src/dbwrapper.h:643-653 | whether the overlay holds the key, through any number of levels |
| `DbObjects.CDBTransaction.Erase` | src/dbwrapper.h:660-669 | one key less in the overlay, with both maps and the usage counter updated as EraseUpdates presumes |
| `DbObjects.CDBTransaction.Commit` | src/dbwrapper.h:677-685 | where the target is the parent: it shows the overlay, and the transaction is clear |
| `DbObjects.CDBTransaction.CommitToBatch` | src/dbwrapper.h:677-685 | where the target is a batch: applied later, the batch makes the overlay of what is below |
| `DbObjects.Database.WriteBatch` | src/evo/evodb.cpp:54-62 | the operations of the batch in order |
| `DbObjects.TransactionIterator.Seek` | src/dbwrapper.h:423-440 | what remains is exactly the overlay's keys from the given one on, ascending |
| `DbObjects.TransactionIterator.Next` | src/dbwrapper.h:446-458 | leaves the current key behind and no other |
| `DbObjects.TransactionIterator.HasKey` | src/dbwrapper.h:442-444 | whether a key remains |
| `DbObjects.TransactionIterator.GetKey` | src/dbwrapper.h:461-477 | the current key |
| `DbObjects.TransactionIterator.GetValue` | src/dbwrapper.h:498-508 | the value that the overlay holds there |
| `DbObjects.TransactionIterator.SkipDeletedAndOverwritten` | src/dbwrapper.h:511-519 | stops at the first parent key that shows through |
| `EvoDb.CommitRootRefines` | src/evo/evodb.cpp:54-62 | committing the root puts on disk what had been committed, and changes nothing that is read |
| `EvoDb.StepRefines` | src/evo/evodb.cpp:34-62 | each operation refines the same one on three plain maps: disk, committed and current |
| `EvoDb.RunRefines` | src/evo/evodb.cpp:34-62 | every legal run of writes, erases, reads, commits and rollbacks gives the answers and the final maps of the reference |
| `EvoDb.CEvoDB.constructor` | src/evo/evodb.cpp:34-40 | all three levels show the disk |
| `EvoDb.CEvoDB.CommitCurTransaction` | src/evo/evodb.cpp:42-46 | what was current is committed |
| `EvoDb.CEvoDB.RollbackCurTransaction` | src/evo/evodb.cpp:48-52 | what was committed is current |
| `EvoDb.CEvoDB.CommitRootTransaction` | src/evo/evodb.cpp:54-62 | the root goes through the batch to the disk, as CommitRootRefines says |
| `PartialMerkle.WidthIsShift` | src/merkleblock.h:63-66 | the recursive width is the shifted one |
| `PartialMerkle.InTreeIff` | src/merkleblock.h:63-66 | a node is in the tree exactly if its first leaf is |
| `PartialMerkle.NodesDiffer` | src/merkleblock.cpp:71-89 | two nodes of a level have different hashes if the ids differ, or exhibit a collision |
| `PartialMerkle.BuildMatched` | src/merkleblock.cpp:91-107 | the part built for a node covers exactly the matched leaves below it, in order |
| `PartialMerkle.PartSizes` | src/merkleblock.cpp:91-107 | hashes: at least one, at most one for each leaf, at most one and the height for each match; no fewer bits than hashes |
| `PartialMerkle.PartBits` | src/merkleblock.cpp:91-107 | the exact number of bits: twice the hashes less one, and one for each node with one child that is descended into |
| `PartialMerkle.BitsBoundIff` | src/merkleblock.h:46-52 | the documented bound on the bits holds if and only if no matched leaf is below a node with one child |
| `PartialMerkle.BitsBoundFails` | src/merkleblock.h:46-52 | a block of three transactions that exceeds it |
| `PartialMerkle.NodeSound` | src/merkleblock.cpp:109-145 | below a node with the right hash every claim is true, or the proof holds a collision |
| `PartialMerkle.ExtractSound` | src/merkleblock.cpp:163-194 | any proof with the root of a list of that length claims only true matches, or exhibits two pairs with one hash |
| `PartialMerkle.NotForged` | src/merkleblock.cpp:109-145 | which it cannot for a hash without collisions |
| `PartialMerkle.ExtractBuilt` | src/merkleblock.cpp:91-145 | extraction recovers what was built, node by node, unless two siblings have one hash |
| `PartialMerkle.TwinsRefused` | src/merkleblock.cpp:109-145 | and refuses it if two have |
| `PartialMerkle.TwinsClash` | src/merkleblock.cpp:109-145 | distinct ids have no such siblings, or exhibit a collision |
| `PartialMerkle.NoSiblingsClash` | src/merkleblock.cpp:71-89 | which they cannot for a hash without collisions |
| `PartialMerkle.MatchedExact` | src/merkleblock.cpp:91-107 | the selection holds exactly the matched ids |
| `PartialMerkle.MatchedAscends` | src/merkleblock.cpp:91-107 | in the order of the block |
| `PartialMerkle.UnpackPacked` | src/merkleblock.cpp:12-28 | unpacking returns the bits and fewer than eight zeros |
| `PartialMerkle.RoundTrip` | src/merkleblock.cpp:12-194 | build, pack, unpack and extract: the root and exactly the selected ids and positions, or the zero hash exactly if two siblings have one hash |
| `PartialMerkle.DistinctRoundTrip` | src/merkleblock.cpp:12-194 | so for distinct ids, or they exhibit a collision |
| `MerkleRoot.RootsAgree` | src/consensus/merkle.cpp:45-63 | the loop over levels computes the root of the recursive tree |
| `MerkleRoot.RootDetermines` | src/consensus/merkle.cpp:10-43 | unmutated lists of one depth with one root are equal, or exhibit a collision |
| `MerkleRoot.DepthIs` | src/consensus/merkle.cpp:45-62 | the depth is the number of binary digits that number the leaves |
| `MerkleRoot.DepthMatters` | src/consensus/merkle.cpp:10-43 | lists of different depth can share a root |
| `MerkleRoot.DistinctNotMutated` | src/consensus/merkle.cpp:45-63 | distinct ids are never reported as mutated, or exhibit a collision |
| `MerkleRoot.ComputeMerkleRoot` | src/consensus/merkle.cpp:45-63 | root of the tree, and mutation exactly if two paired neighbours are equal on some level |
| `PartialMerkleTree.BitsToBytes` | src/merkleblock.cpp:12-19 | bytes that hold the bits, padded with zeros |
| `PartialMerkleTree.BytesToBits` | src/merkleblock.cpp:21-28 | the bits of the bytes |
| `PartialMerkleTree.CPartialMerkleTree.TraverseAndBuild` | src/merkleblock.cpp:91-107 | appends exactly the part of the node |
| `PartialMerkleTree.CPartialMerkleTree.TraverseAndExtract` | src/merkleblock.cpp:109-145 | hash, both cursors and both lists are those of Extract, which NodeSound and ExtractBuilt are about |
| `PartialMerkleTree.CPartialMerkleTree.Of` | src/merkleblock.cpp:147-159 | the tree for a list and a mask |
| `PartialMerkleTree.CPartialMerkleTree.constructor` | src/merkleblock.cpp:161 | the empty tree, marked bad |
| `PartialMerkleTree.CPartialMerkleTree.ExtractMatches` | src/merkleblock.cpp:163-194 | root, matches and positions are those of ExtractSound and RoundTrip; the zero hash where the proof is refused |
| `PartialMerkleTree.CPartialMerkleTree.Serialize` | src/merkleblock.h:88-97 | bits packed into bytes |
| `PartialMerkleTree.CPartialMerkleTree.Unserialize` | src/merkleblock.h:88-97 | bits unpacked, and the bad flag cleared |
| `PartialMerkleTree.Relay` | src/merkleblock.cpp:12-194 | what one node sends is what the other finds, or the ids exhibit a collision |
| `RollingBloom.CountersFollow` | src/bloom.cpp:291-305 | generation number and size after any run |
| `RollingBloom.CellsExact` | src/bloom.cpp:291-320 | exactly which number every cell holds after any run |
| `RollingBloom.SetExactly` | src/bloom.cpp:291-334 | a position is set if and only if an insert of the last three generations stamped it |
| `RollingBloom.ContainsExactly` | src/bloom.cpp:322-334 | a key is reported if and only if such inserts cover its positions |
| `RollingBloom.ContainsLast` | src/bloom.h:80-99 | the last 2 * perGeneration + 1 inserts are always reported |
| `RollingBloom.ContainsLastElements` | src/bloom.h:80-99 | in particular the last nElements |
| `RollingBloom.RemembersExactly` | src/bloom.cpp:293-305 | at every point of every run exactly the positions of the last 2 * perGeneration + 1 inserts and the others of the current generation are set |
| `RollingBloomFilter.CRollingBloomFilter.constructor` | src/bloom.cpp:258-282 | an empty filter with two generations for nElements |
| `RollingBloomFilter.CRollingBloomFilter.Reset` | src/bloom.cpp:336-342 | empty again |
| `RollingBloomFilter.CRollingBloomFilter.Wipe` | src/bloom.cpp:298-304 | the masked words lose exactly the cells of one generation |
| `RollingBloomFilter.CRollingBloomFilter.Insert` | src/bloom.cpp:291-320 | the words then represent the run with one key more |
| `RollingBloomFilter.CRollingBloomFilter.Contains` | src/bloom.cpp:322-334 | true exactly if all cells of the key are set, and so for each of the last 2 * perGeneration + 1 keys |
| `SkipHeights.InvertClearsLowest` | src/chain.cpp:118-119 | n & (n - 1) clears the lowest one |
| `SkipHeights.GetSkipHeight` | src/chain.cpp:122-130 | a skip goes strictly back, and not below genesis |
| `SkipHeights.Crossing` | src/chain.cpp:132-157 | rounds from the second half of a block of heights into its first: few more than the ones in the height, half of them from an odd one |
| `SkipHeights.RoundsBounded` | src/chain.cpp:122-157 | from a height of n binary digits the walk takes at most n * n / 4 + 3 * n rounds |
| `Chain.CBlockIndex.WalkBack` | src/chain.cpp:140-155 | one round: to an ancestor not below the goal, at the height that RoundsBounded counts with |
| `Chain.CBlockIndex.GetAncestor` | src/chain.cpp:132-157 | walking by skip pointers finds the ancestor that the plain walk finds, and none out of range, in as many rounds as RoundsBounded bounds |
| `Chain.CBlockIndex.BuildSkip` | src/chain.cpp:164-168 | the skip pointer leads to the ancestor at the skip height, and is set above genesis |
| `Chain.AncestorOfAncestor` | src/chain.cpp:132-157 | ancestors compose |
| `Chain.LastCommonUnique` | src/chain.cpp:204-219 | there is one highest common ancestor |
| `Chain.CommonBelow` | src/chain.cpp:204-219 | everything below a common ancestor is common |
| `Chain.LastCommonAncestor` | src/chain.cpp:204-219 | returns the highest common ancestor, and terminates |
| `Chain.LocatorDescends` | src/chain.cpp:71-97 | a locator starts at the block, goes strictly back and ends at genesis |
| `Chain.LocatorShort` | src/chain.cpp:71-97 | eleven blocks and one for each binary digit of the height are enough for every locator |
| `Chain.LocatorAt` | src/chain.cpp:71-97 | where every entry lies: the first twelve follow each other, and then each step is twice the last, up to genesis |
| `Chain.LocatorNearFork` | src/chain.cpp:71-97 | the first entry at or below a fork is the fork itself within twelve blocks, and never more than twice as far back |
| `Chain.CChain.SetTip` | src/chain.cpp:59-69 | the vector is the whole path to the tip though the loop stops early |
| `Chain.CChain.ContainsIff` | src/chain.h:395-397 | containment is being an ancestor of the tip |
| `Chain.CChain.GetLocator` | src/chain.cpp:71-97 | the hashes of the ancestors at the heights of LocatorAt, no more than LocatorShort allows |
| `Chain.CChain.FindFork` | src/chain.cpp:99-108 | the highest common ancestor with the tip |
| `Chain.CChain.FindEarliestAtLeast` | src/chain.cpp:110-116 | binary search: all blocks before the result are too early or too low, the result is neither |
| `Limbs.WrapIsModulo` | src/arith_uint256.h:127-143 | digit-wise wrapping is the remainder modulo 2^(32 n) |
| `Limbs.RowValue` | src/arith_uint256.cpp:55-65 | one row of a long multiplication has the value of the product |
| `LimbShifts.ShlIsProduct` | src/arith_uint256.cpp:21-35 | a left shift of limbs multiplies, modulo the width |
| `LimbShifts.ShrIsQuotient` | src/arith_uint256.cpp:38-52 | a right shift of limbs divides, rounding down |
| `Arith.BaseUint.Complement` | src/arith_uint256.h:61-67 | all ones minus the value |
| `Arith.BaseUint.Negate` | src/arith_uint256.h:69-76 | minus the value, modulo the width |
| `Arith.BaseUint.Add` | src/arith_uint256.h:127-137 | sum modulo the width |
| `Arith.BaseUint.Sub` | src/arith_uint256.h:139-143 | difference modulo the width |
| `Arith.BaseUint.Increment` | src/arith_uint256.h:165-172 | plus one modulo the width |
| `Arith.BaseUint.Decrement` | src/arith_uint256.h:182-189 | minus one modulo the width |
| `Arith.BaseUint.MulLimb` | src/arith_uint256.cpp:55-65 | product with a 32-bit number modulo the width |
| `Arith.BaseUint.Mul` | src/arith_uint256.cpp:67-81 | product modulo the width |
| `Arith.BaseUint.ShiftLeft` | src/arith_uint256.cpp:21-35 | times a power of two modulo the width |
| `Arith.BaseUint.ShiftRight` | src/arith_uint256.cpp:38-52 | divided by a power of two |
| `Arith.BaseUint.Div` | src/arith_uint256.cpp:83-107 | the quotient; division by zero fails and leaves zero |
| `Arith.BaseUint.CompareTo` | src/arith_uint256.cpp:109-119 | the order of the values |
| `Arith.BaseUint.EqualTo` | src/arith_uint256.cpp:121-133 | equality with a 64-bit number |
| `Arith.BaseUint.BitCount` | src/arith_uint256.cpp:179-191 | the position of the highest bit |
| `Arith.LongDivisionIs` | src/arith_uint256.cpp:83-107 | shift and subtract computes quotient and remainder |
| `Compact.OverflowIff` | src/arith_uint256.cpp:198-215 | the overflow test fires if and only if the number does not fit in 256 bits |
| `Compact.SetCompact` | src/arith_uint256.cpp:198-215 | value, sign and overflow of every compact form |
| `Compact.CompactFields` | src/arith_uint256.cpp:218-240 | the fields of the form that is made |
| `Compact.CompactRoundsDown` | src/arith_uint256.cpp:218-240 | it stands for the number rounded down to its upper bytes, exactly for short ones |
| `Compact.CompactSizeIff` | src/arith_uint256.cpp:218-240 | a number has exactly one size at which its mantissa is normalized |
| `Compact.CanonicalIff` | src/arith_uint256.cpp:198-240 | a form read and made again is the same if and only if it is zero, or normalized with nothing cut off |
| `Compact.GetCompact` | src/arith_uint256.cpp:218-240 | computes that form |
| `Compact.Renormalized` | src/arith_uint256.cpp:198-240 | SetCompact and then GetCompact return every canonical form that does not overflow, and no other |
| `Compact.ComplementQuotient` | src/chain.cpp:170-183 | the rearranged division is 2^256 over target plus one |
| `Compact.RoomForOne` | src/chain.cpp:170-183 | adding one to a target does not wrap |
| `Compact.GetBlockProof` | src/chain.cpp:170-183 | the expected number of hashes, zero for a target that does not count |
| `Compact.WorkExact` | src/chain.cpp:170-183 | work is counted for exactly the targets from 1 to 2^256 - 1 without a sign, and is the number of times that the hashes which meet one go into all |
| `Compact.WorkMonotone` | src/chain.cpp:170-183 | a smaller target is at least as much work |
| `Bech32.StepLinear` | src/bech32.cpp:33-91 | a checksum step is linear |
| `Bech32.StepInjective` | src/bech32.cpp:33-91 | and injective in the remainder |
| `Bech32.OneChangeShows` | src/bech32.cpp:33-91 | one changed value changes the checksum of any list |
| `Bech32.BurstShows` | src/bech32.cpp:33-91 | any change that is confined to six neighbouring values changes the checksum |
| `Bech32.ChecksumIff` | src/bech32.cpp:114-136 | exactly one checksum verifies: the one that is made |
| `Bech32.RevOfChar` | src/bech32.cpp:15-30 | the two character tables are inverse |
| `Bech32.CharOfRev` | src/bech32.cpp:15-30 | and in the other direction up to case |
| `Bech32.DecodeEncode` | src/bech32.cpp:143-190 | decoding inverts encoding |
| `Bech32.EncodeDecode` | src/bech32.cpp:143-190 | what is accepted is the encoding of its result up to case |
| `Bech32.AcceptedIff` | src/bech32.cpp:143-190 | a string is accepted if and only if it is the encoding of a plain prefix and values, of at most 90 characters, in lower case or all in upper case; and it is decoded as them |
| `Bech32.BurstRejected` | src/bech32.cpp:159-190 | an accepted string with up to six neighbouring data characters replaced is rejected, unless it spells the same values or has another separator |
| `Bech32.SubstitutionRejected` | src/bech32.cpp:159-190 | in particular one data character of another value is always found |
| `Bech32Errors.StepIsTimesX` | src/bech32.cpp:33-91 | a checksum step with a zero value multiplies by x modulo the generator over the field of 32 elements |
| `Bech32Errors.TwiceTimesX` | src/bech32.cpp:82-87 | which is linear over that field: the five constants are the multiples that they are said to be |
| `Bech32Errors.NoConstant` | src/bech32.cpp:33-91 | no multiple of a power of x from 1 to 88 is a constant |
| `Bech32Errors.TwoChangesShow` | src/bech32.cpp:33-91 | any two changed values that are at most 88 places apart change the checksum |
| `Bech32Errors.PrefixSubstitutionRejected` | src/bech32.cpp:99-190 | an accepted string with one character of the prefix replaced, other than by its other case, is rejected |
| `Bech32Errors.TwoReplacedRejected` | src/bech32.cpp:99-190 | so is one with any two characters replaced, in prefix or data, unless they mean the same, a separator is put in, or a prefix character changes its kind |
| `Bech32Errors.TwoSubstitutionsRejected` | src/bech32.cpp:159-190 | in particular any two data characters, unless they spell the same values or a separator is put in |
| `Bech32Vector.Alphabet` | src/bech32.cpp:15-16 | the characters of the values 0 to 31 |
| `Bech32Vector.KnownEncoding` | src/test/bech32_tests.cpp:16-33 | the encoding of all values under the prefix abcdef, as the standard gives it |
| `Bech32Codec.ComputePolyMod` | src/bech32.cpp:33-91 | the loop computes the remainder |
| `Bech32Codec.ExpandHRP` | src/bech32.cpp:99-111 | high bits of the prefix, zero and low bits, which PrefixSubstitutionRejected and KnownEncoding are about |
| `Bech32Codec.VerifyChecksum` | src/bech32.cpp:114-121 | whether the remainder is one |
| `Bech32Codec.CreateChecksum` | src/bech32.cpp:124-136 | the one checksum that verifies, by ChecksumIff |
| `Bech32Codec.Encode` | src/bech32.cpp:143-156 | the string that DecodeEncode decodes, and KnownEncoding for its values |
| `Bech32Codec.Decode` | src/bech32.cpp:159-190 | the answer that AcceptedIff, BurstRejected, PrefixSubstitutionRejected and TwoReplacedRejected are about, with every reason to refuse |
| `Base58.MulAddFits` | src/base58.cpp:60-69 | multiply-and-add in place leaves no carry where the value fits |
| `Base58.EncodeSizeIsEnough` | src/base58.cpp:98-99 | 1.38 digits a byte hold every value, for every length |
| `Base58.DecodeSizeIsEnough` | src/base58.cpp:52-53 | 0.733 bytes a digit hold every value, for every length |
| `Base58.DecodeEncode` | src/base58.cpp:38-125 | decoding inverts encoding within the length limit |
| `Base58.EncodeDecode` | src/base58.cpp:38-125 | what is accepted is the encoding of its result with spaces around it |
| `Base58.AcceptedIff` | src/base58.cpp:38-125 | a string is accepted if and only if it is the encoding of its bytes, no more than allowed, with white space around it |
| `Base58.Alphabet` | src/base58.cpp:17-18 | the characters of the digits 0 to 57 |
| `Base58.EncodedZeros` | src/base58.cpp:89-95 | every zero byte in front becomes a one, whatever follows |
| `Base58.KnownEncoding` | src/test/data/base58_encode_decode.json:10 | a known encoding |
| `Base58Codec.MultiplyAdd` | src/base58.cpp:63-69 | the in-place loop; the source's assertion that no carry is left holds |
| `Base58Codec.EncodeBase58` | src/base58.cpp:87-125 | the string that DecodeEncode decodes, from a buffer that never overflows |
| `Base58Codec.DecodeBase58` | src/base58.cpp:38-85 | the answer that AcceptedIff is about, with every reason to refuse |
| `CompactBlock.GapsExact` | src/blockencodings.cpp:84-91 | the gaps are exactly the empty slots |
| `CompactBlock.PrefilledCount` | src/blockencodings.cpp:59-78 | each transaction sent along takes a slot of its own |
| `CompactBlock.PrefilledHolds` | src/blockencodings.cpp:59-78 | and is found there |
| `CompactBlock.PlacesOkIff` | src/blockencodings.cpp:59-78 | the places of transactions sent along are accepted exactly if the last one lies in the block and has 16 bits |
| `CompactBlock.GapForEach` | src/blockencodings.cpp:84-91 | there are as many gaps as short ids, so the search never leaves the block |
| `CompactBlock.IndexSize` | src/blockencodings.cpp:103-105 | the index is as large as the list exactly if the short ids are distinct |
| `CompactBlock.MessageDescribes` | src/blockencodings.cpp:21-31 | the message made of a block describes it |
| `CompactBlock.SentStays` | src/blockencodings.cpp:107-165 | no scan touches a transaction that was sent along |
| `CompactBlock.MatchedCount` | src/blockencodings.cpp:107-165 | however transactions collide, the count is the number of short ids whose slots are filled, between 0 and all of them |
| `CompactBlock.FillExact` | src/blockencodings.cpp:178-200 | given what is missing, in order, the whole list comes out |
| `CompactBlock.MissingIsGaps` | src/blockencodings.cpp:178-200 | what is missing is what the gaps hold, in order |
| `CompactBlock.Reconstructs` | src/blockencodings.cpp:51-200 | the receiver assembles exactly the sender's list if no other known transaction shares a short id |
| `CompactMatch.SlotExact` | src/blockencodings.cpp:107-165 | what every slot of a short id holds: the first transaction with it among those read, and nothing if the pool has two or any differs in its hash |
| `CompactMatch.ReadsAllOrFills` | src/blockencodings.cpp:107-165 | all known transactions are read, unless every short id is matched before |
| `CompactMatch.FoundIff` | src/blockencodings.cpp:107-170 | without impostors a slot is filled if and only if its transaction is in the pool or among the extra ones |
| `CompactMatch.MissingIff` | src/blockencodings.cpp:107-176 | what is asked for is exactly what was sent by short id and is in neither |
| `CompactMatch.SharedInPool` | src/blockencodings.cpp:108-134 | a short id that two transactions of the pool share leaves its slot empty |
| `CompactMatch.SharedWithExtra` | src/blockencodings.cpp:136-165 | so does one that a transaction of the pool and an extra one with another hash share |
| `PartialBlock.InvalidIff` | src/blockencodings.cpp:51-78 | exactly which messages are refused as invalid |
| `CompactBlock.WritableIff` | src/blockencodings.h:17-38 | exactly the ascending lists of indexes less than 2^64 - 1 can be written |
| `CompactBlock.DifferencesRestored` | src/blockencodings.h:17-38 | they are read back |
| `CompactBlock.RestoredOnly` | src/blockencodings.h:17-38 | whatever is read is an ascending list within the limit, and has exactly the distances that were read |
| `PartialBlock.PartiallyDownloadedBlock.PlacePrefilled` | src/blockencodings.cpp:59-78 | accepts exactly legal positions, and places them |
| `PartialBlock.PartiallyDownloadedBlock.IndexShortIds` | src/blockencodings.cpp:83-102 | the slot of each short id, unless a bucket is crowded |
| `PartialBlock.PartiallyDownloadedBlock.ScanPool` | src/blockencodings.cpp:108-134 | slots, marks and count of Scan, which stops when all short ids are matched; what the slots hold then is SlotExact |
| `PartialBlock.PartiallyDownloadedBlock.ScanExtra` | src/blockencodings.cpp:136-165 | likewise, where a transaction with the same hash changes nothing; the extra count moves exactly as the mempool count does |
| `PartialBlock.PartiallyDownloadedBlock.InitData` | src/blockencodings.cpp:51-170 | the exact status, as InvalidIff says; on success the slots hold what SlotExact and FoundIff say, the count is that of MatchedCount, and the extra count is what the pool alone did not match |
| `PartialBlock.PartiallyDownloadedBlock.FillBlock` | src/blockencodings.cpp:178-221 | refuses too few and too many, otherwise assembles and reports the block check |
| `PartialBlock.Relay` | src/blockencodings.cpp:21-221 | message, matching, request and answer end in the sender's block |
| `AuxPow.CheckMerkleBranch` | src/auxpow.cpp:136-150 | the loop hashes along the branch |
| `AuxPow.BranchDetermines` | src/auxpow.cpp:136-150 | root, index and length determine leaf and branch, or the branches name two pairs with one hash |
| `AuxPow.NoClash` | src/auxpow.cpp:136-150 | which they cannot for a hash without collisions |
| `AuxPow.BranchLeadsToRoot` | src/auxpow.cpp:136-150 | the branch of every leaf of a tree leads to its root |
| `AuxPow.SamePlaceSameHash` | src/auxpow.cpp:42-110 | two hashes accepted at one place of one script have branches of one length, and are equal unless their branches clash |
| `AuxPow.TaggedCoinbaseCommitsOnce` | src/auxpow.cpp:42-110 | under a coinbase with the header at most one hash is accepted for each chain, unless the branches clash |
| `AuxPow.OneCoinbase` | src/auxpow.cpp:55-57 | proofs accepted under one parent root with branches of one length have one coinbase, unless the branches clash |
| `AuxPow.CoinbaseIsFirst` | src/auxpow.cpp:55-57 | which is the first transaction of the parent block |
| `AuxPow.ParentRefused` | src/auxpow.cpp:42-61 | a parent that claims our chain is refused exactly under the strict rule, and so is a tree of more than 2^30 chains and a coinbase without inputs |
| `AuxPow.ScriptCommits` | src/auxpow.cpp:62-110 | the script of an accepted proof holds the root for the first time right behind its only header, or within the first 21 places; then the size of the tree, and the nonce that gives the slot of the chain |
| `AuxPow.OccursIff` | src/auxpow.cpp:66-70 | a pattern is found where it stands, at the end of the script as well |
| `AuxPow.HonestAccepted` | src/auxpow.cpp:42-110 | every honest proof is accepted: any parent block, any tree of at most 2^30 chains, any script with the header once and the root not before it |
| `AuxPowSlots.SlotIs` | src/auxpow.cpp:112-134 | the slot of a chain is one remainder, linear in the nonce and the chain id; the wrap-around of the 64-bit steps does not show |
| `AuxPowSlots.SlotsMeetIff` | src/auxpow.cpp:112-134 | two chains share a slot if and only if their ids are congruent modulo the size of the tree, for every nonce |
| `AuxPowSlots.OddCancels` | src/auxpow.cpp:126-131 | the multiplier, being odd, loses no digit |
| `AuxPow.UntaggedCommitsToFew` | src/auxpow.cpp:83-90 | under a coinbase without the header at most 21, one for each early place |
| `AuxPow.SmallTreeAccepted` | src/auxpow.cpp:42-110 | a proof that the check accepts, for any chain and any hash without bytes of the header; HonestAccepted is the general case |
| `FastRange.FastRange64Below` | src/util/fastrange.h:25-49 | the result is below the range |
| `FastRange.SplitIsFastRange` | src/util/fastrange.h:25-49 | the 64-bit fallback computes what the 128-bit form does |
| `Gcs.DecodeEncodeOne` | src/util/golombrice.h:15-43 | decoding a number inverts encoding it, whatever follows |
| `Gcs.DecodeEncodeAll` | src/blockfilter.cpp:73-101 | so for ascending lists as distances, whatever padding follows |
| `Gcs.DecodedSorted` | src/blockfilter.cpp:103-133 | whatever decodes is ascending |
| `Gcs.Decode64Iff` | src/blockfilter.cpp:103-133 | the numbers are the same in 64-bit arithmetic if and only if all of them fit |
| `Gcs.ScanSound` | src/blockfilter.cpp:103-133 | whatever the two lists, the merge scan finds only a number in both |
| `Gcs.ScanIff` | src/blockfilter.cpp:103-133 | and for ascending lists it finds one if there is one |
| `GcsFilter.GolombRiceEncode` | src/util/golombrice.h:15-29 | appends the code that DecodeEncodeOne decodes, ones written 64 at a time |
| `GcsFilter.GolombRiceDecode` | src/util/golombrice.h:32-43 | the number in front and the place behind it, or nothing where the stream ends |
| `GcsFilter.GCSFilter.MatchInternal` | src/blockfilter.cpp:103-133 | the scan, in 64-bit arithmetic: true only for a number that comes out there, and exactly for one that is encoded if all encoded numbers fit |
| `GcsFilter.GCSFilter.Scan` | src/blockfilter.cpp:103-133 | the loop reads the numbers as they come out in 64-bit arithmetic, as ScanSound and ScanIff presume |
| `GcsFilter.GCSFilter.BuildHashedSet` | src/blockfilter.cpp:35-44 | the hashes of the elements, sorted |
| `GcsFilter.GCSFilter.Match` | src/blockfilter.cpp:135-139 | true exactly if the element's hash is encoded, if all encoded numbers fit in 64 bits; true only for a number that comes out, if not |
| `GcsFilter.GCSFilter.MatchAny` | src/blockfilter.cpp:141-145 | likewise for the hash of one of the elements |
| `GcsFilter.Build` | src/blockfilter.cpp:73-101 | a filter that encodes exactly the hashes of its elements, so that each of them matches and all fit in 64 bits |
| `GcsFilter.Parse` | src/blockfilter.cpp:50-71 | accepts exactly the encodings of n numbers without excess bytes |

## Left out

- Networking, wallet, RPC, GUI, masternodes, governance, script execution and block validation: they are not part of this model.
- `CCoinsViewCache::SetBackend`, `EmplaceCoinInternalDANGER`, best-block hashes, `HaveInputs`, cursors and `ReallocateCache`.
- CoinsCache.CoinsDb.BatchWrite: does not model the partial batches that the source writes for large maps, nor an interruption between them; the model's batch is atomic.
- The allocated capacity of scripts: memory usage of a coin is a function of its script.
- The stop request of the check queue, and the single-master mutex of its control object.
- `CAddrMan::Select_`, `GetChance`, `GetAddressInfo_`, `DecodeAsmap`, and the hash functions that select buckets, which are parameters.
- AddrManStorage.Unserialize: does not model `RemoveInvalid` and `ResetI2PPorts` at the end of reading; the model takes all addresses as valid and none as an I2P address with a port.
- The test of the debug check that the key of the hash functions is not null; the hash functions are parameters.
- The byte format of the address manager file, its version numbers and the end of its stream: a file is a value whose counts agree with its lists.
- The 32-bit widths of ids and counters of the address manager; ids never wrap in the model.
- The atomic operations of the cuckoo cache's flags: the cache is modelled for one thread, as its documentation demands of writers.
- `setup_bytes` of the cuckoo cache; the base-2 logarithm that gives the depth limit is a parameter.
- The types of values in database transactions: a value is a sequence of bytes, and reading one back under another type is not modelled.
- The LevelDB storage below a transaction, which is a map; writing a batch to it does not fail in the model.
- DbTransaction.CommitMovesView: is about a transaction that commits to its parent; one that commits to a batch is DbObjects.CDBTransaction.CommitToBatch.
- `CMerkleBlock` and the matching of transactions against a Bloom filter.
- The 32-bit arithmetic of positions in partial Merkle trees; positions are unbounded.
- The size and number of hash functions of the rolling Bloom filter as computed from a false-positive rate, and `CBloomFilter`.
- `GetBlockProofEquivalentTime`, and the disk form of the block index.
- `SetHex`, `GetHex` and `getdouble` of the 256-bit integers, and their bitwise operators.
- The 30-bit remainder of Bech32 is a sequence of bits, and the words of the rolling Bloom filter are sequences of 64 bits, with the shifts and masks of the source as operations on them.
- Base58Check and the address formats built on Base58 and Bech32.
- The hash key of compact blocks and the bucket test of its hash map, which are parameters.
- `CheckBlock`, whose verdict on an assembled block is a parameter of `FillBlock`.
- The creation of merged mining proofs, the parent header and the transaction that holds the coinbase; for an untagged coinbase only the bound of `UntaggedCommitsToFew` is stated.
- `BasicFilterElements`, filter headers, the length prefix of an encoded filter and the packing of its bits into bytes; sorting is by insertion in place of the library's.
