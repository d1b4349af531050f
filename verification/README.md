# Verified models of a Bitcoin node's core structures

A Dafny model of the self-contained data structures, protocols and codecs of a Bitcoin Core 0.16
derivative, with proofs of what they promise. `dafny verify dfyconfig.toml` checks the whole project.

| component | files |
|---|---|
| address manager | `AddrTables` (indexes, buckets and the invariant), `AddrOps`, `AddrRuns` (operations and runs), `AddrEffects` (what each operation admits and forgets), `AddrClocks`, `AddrRecords` (what is recorded), `AddrGroups` (how much a group can fill), `AddrCheck` (the consistency check), `AddrSave`, `AddrRoundTrip` (dumps), `AddrLoad` (any dump at all), `AddrManager` (the class) |
| unspent-output caches | `CoinViews` (values), `CoinFlags` (what the flags save), `CoinCaches` (objects) |
| partial Merkle trees | `MerkleTree` (soundness and completeness), `MerkleAccepted` (exactly what is accepted), `MerkleProofs` (packing and sizes), `MerkleBlock` (the class) |
| message framing | `Framing` (wire format and parser), `Connection` (send queue and receiver) |
| parallel check queue | `CheckQueue` (safety), `CheckProgress` (liveness) |
| block assembly | `MemPool`, `PackageFigures` (tracked sizes and costs), `PackageFees` (tracked fees), `Ranking` (the order of packages), `Selection` (what a run takes, refuses and leaves out), `Miner` (the class) |
| serial scheduler client | `SchedulerClient` |
| cuckoo cache | `CuckooCache` |
| 256-bit arithmetic, targets, work | `Powers`, `Limbs`, `Products`, `Shifts`, `Division`, `Difficulty`, `Targets` |
| block index and active chain | `SkipHeights` (length of the walk to an ancestor), `BlockTree`, `ActiveChain` |
| Bech32 and Base58 | `Bech32Checksum` (remainders), `Bech32Word` (as packed by the code), `Bech32Field` (GF(32), polynomials), `Bech32Extension` (GF(1024)), `Bech32`, `Bech32Corruption` (bursts), `Bech32Errors` (scattered errors), `Radix`, `Base58` |
| rolling Bloom filter | `RollingBloom` |
| shared notions | `Collections` |

## How the code is modelled

- Objects that the code updates in place are classes whose methods are proved against functions on
  values; limb and digit buffers are arrays worked on in place; code that only computes is functions.
- The two multi-threaded components are state machines. Each locked section is one atomic step, and
  a run is any interleaving. Spurious wake-ups, and callbacks that add callbacks or throw, are included.
  There is one master at a time and threads are not interrupted.
- Hashes are arbitrary functions, bounded where the code reduces them. In the Merkle trees they are
  symbolic terms, so that pairing is injective.
- Randomness, clocks and socket behaviour are arguments, so that what is proved holds for all of them.
- Fee rates are compared by exact products where the code uses floating point.
- Integers are unbounded except where the code relies on their width: limbs, the 32-bit compact form,
  the 32-bit multiplier of retargeting, 32-bit cache hashes, the unsigned 32-bit time field.
- A transaction's identifier is a number; numbers are ordered as the hashes they stand for.
- A pointer into the block tree is the position of a block in the sequence of all blocks. A bucket
  table of the address manager is one flat sequence, with slot = bucket * 64 + position. The three
  parallel vectors of the cuckoo cache are one sequence of slots. The words of the Bloom
  filter are sequences of 64 booleans.

## Where code and documentation disagree

The model follows the code.

- `src/merkleblock.h:47` promises at most 2N-1 flag bits, and line 34 a total of 10 + ceil(32.25 N)
  bytes. Both fail. `PromisedBitsExactly` and `PromisedSizeExactly` say exactly when they hold, and
  the two counterexamples show them failing.
- `src/cuckoocache.h:425-436` says that the first displacement takes the first candidate. It takes
  the second (`FirstDisplaced`).
- `src/miner.h:129` subtracts a plain fee where `src/miner.cpp:263` subtracts an adjusted one, and an
  entry created again after a failure forgets earlier subtractions. So package sizes and signature
  costs are proved never to fall short, and exact for transactions that have not failed. The fees of
  these are exact if and only if the adjustments of the included ancestors cancel out, leaving out the
  one that the entry was made for, which is the least identifier among its ancestors in the round that
  made it (`FeesExactly`, `RoundTracks`). From pool and block alone they are sure to be exact if and
  only if a single ancestor is included or none of those included is adjusted (`WhicheverItWas`,
  `EveryOrder`). `OverstatedFees` shows a round that gets them wrong in one order and right in the other.
- `src/miner.cpp:380` says that everything else to be considered has a lower fee rate. That holds of the
  score, the lower of a transaction's own rate and its package's (`LeftOutPaysLess`), but not of the
  rate of a package: `PayingPackageLeftOut` shows one that pays the rate and is left out.
- `src/addrman.h:369-375` refuses a dump for counts that are too large but not for negative ones, which
  leave an inconsistent manager; `LoadsConsistent` says exactly when.
- `src/coins.cpp:98-112` reports that an entry was found, not that a coin was unspent. `SpendReports`
  and `SpendTellsUnspent` say exactly when; `SpentTwice` shows two successes for one coin.
- `src/bech32.cpp:47-49` promises that errors are detected, which is about lists of symbols. In a
  string a corrupted character may become the separator and move the end of the readable part. Bursts
  and up to three scattered errors are proved to be rejected when none does (`BurstRejected`,
  `ThreeRejected`). Whatever was corrupted, `SeparatorMoved` says exactly when the string is still
  accepted, and `SeparatorCounterexample` shows one with a new separator that is.
- The consistency check of the address manager reads the address index by inserting, so it does not
  notice that the address of entry 0 is missing there (`ZeroUnnoticed`), and puts it back
  (`ZeroRestored`); `Unseen` in `AddrCheck` lists what it does not look at.

## Model

| member | source | states |
|---|---|---|
| `AddrTables.TouchKeeps` | src/addrman.cpp:404-478 | changing what else is known of an entry, times included, keeps every index |
| `AddrTables.CreateKeeps` | src/addrman.cpp:96-106 | creating an entry keeps the invariant, apart from the reference the new entry is still owed |
| `AddrTables.SwapKeeps` | src/addrman.cpp:108-126 | swapping two positions of the random order keeps the invariant |
| `AddrTables.DeleteKeeps` | src/addrman.cpp:128-140 | deleting an unreferenced untried entry keeps the invariant |
| `AddrTables.DeleteEffect` | src/addrman.cpp:128-140 | deletion removes exactly that entry and its address; every other entry keeps all but its position |
| `AddrTables.UnlinkKeeps` | src/addrman.cpp:142-155 | taking a reference out of a "new" slot keeps the invariant, the reference count following |
| `AddrTables.LinkKeeps` | src/addrman.cpp:317-320 | putting a reference into an empty "new" slot keeps the invariant |
| `AddrTables.EvictKeeps` | src/addrman.cpp:176-184 | taking an entry out of its "tried" slot keeps the invariant while the entry is in transit |
| `AddrTables.PromoteKeeps` | src/addrman.cpp:199-203 | putting an entry in transit into its own empty "tried" slot keeps the invariant |
| `AddrOps.ClearNewKeeps` | src/addrman.cpp:142-155 | clearing a "new" slot keeps the invariant, whether or not the occupant loses its last reference |
| `AddrOps.ClearNewEffect` | src/addrman.cpp:142-155 | the slot is empty afterwards, its occupant is gone exactly if that was its last reference, nothing else changes |
| `AddrOps.UnlinkAllKeeps` | src/addrman.cpp:159-169 | removing an entry from every "new" bucket keeps the invariant |
| `AddrOps.UnlinkAllClears` | src/addrman.cpp:159-169 | after the sweep over all buckets no "new" slot refers to the entry |
| `AddrOps.MakeRoomKeeps` | src/addrman.cpp:175-198 | moving the occupant of a "tried" slot back to "new" keeps the invariant |
| `AddrOps.MakeTriedKeeps` | src/addrman.cpp:157-203 | moving an entry to "tried" keeps the invariant |
| `AddrRuns.PlaceKeeps` | src/addrman.cpp:306-326 | the tail of Add_, which places or drops the new reference, keeps the invariant and loses no entry without a slot |
| `AddrRuns.AddKeeps` | src/addrman.cpp:257-328 | Add_ keeps the invariant for any address, source, penalty, time and coin flips |
| `AddrRuns.BucketFound` | src/addrman.cpp:234-249 | an untried entry is found in some "new" bucket, so Good_ never takes its early exit |
| `AddrRuns.GoodKeeps` | src/addrman.cpp:205-255 | Good_ keeps the invariant, whatever time it is given |
| `AddrRuns.AttemptKeeps` | src/addrman.cpp:330-350 | Attempt_ keeps the invariant, whatever time it is given |
| `AddrRuns.ConnectedKeeps` | src/addrman.cpp:502-520 | Connected_ keeps the invariant |
| `AddrRuns.SetServicesKeeps` | src/addrman.cpp:522-538 | SetServices_ keeps the invariant |
| `AddrRuns.SampleSpec` | src/addrman.cpp:481-500 | GetAddr_ returns distinct known addresses, at most 2500 and at most 23% of all; each was tried in the last minute, or was heard of in the last 30 days and no more than ten minutes ahead, with under 3 failures if it never succeeded and under 10 if its last success is over a week old; and if one more would be within both limits it returns every such address |
| `AddrTables.TerribleExactly` | src/addrman.cpp:48-68 | an entry is terrible if and only if it was not tried in the last minute and is unheard of, older than 30 days, more than ten minutes ahead, or has 3 failures without a success or 10 with none for a week |
| `AddrRuns.ApplyKeeps` | src/addrman.cpp:205-350 | every operation keeps the invariant |
| `AddrRuns.ClearedInv` | src/addrman.h:456-478 | a cleared manager satisfies the invariant |
| `AddrRuns.RunKeepsInv` | src/addrman.cpp:404-478 | every state of every run of operations from Clear satisfies the invariant |
| `AddrClocks.MakeTriedTimes` | src/addrman.cpp:157-203 | moving an entry to "tried" changes no recorded time and makes no other entry tried |
| `AddrClocks.AddClocked` | src/addrman.cpp:257-328 | Add_ keeps recorded times in order |
| `AddrClocks.GoodClocked` | src/addrman.cpp:205-255 | Good_ keeps recorded times as the consistency check wants them if and only if its time is positive or it does not know the service |
| `AddrClocks.AttemptClocked` | src/addrman.cpp:330-350 | Attempt_ does if and only if its time is not negative or it does not know the service |
| `AddrClocks.ApplyClocked` | src/addrman.cpp:205-350 | the same for every operation |
| `AddrClocks.RunClocked` | src/addrman.cpp:404-478 | over a run the times stay in order up to a state if and only if every operation before it was given such a time |
| `AddrCheck.TriedStep` | src/addrman.cpp:443-455 | one slot of the "tried" sweep: an entry already struck out cannot be in its own slot again |
| `AddrCheck.NewStep` | src/addrman.cpp:457-468 | one slot of the "new" sweep: counting a reference off, or finding one too many |
| `AddrCheck.OrderExact` | src/addrman.cpp:409-431 | when every entry knows its random position, there are as many positions as entries if and only if each position is taken by the entry that claims it |
| `AddrCheck.TriedSweepIsInv` | src/addrman.cpp:443-471 | the "tried" sweep passes if and only if the table holds exactly the tried entries, each in its own slot |
| `AddrCheck.NewSweepIsInv` | src/addrman.cpp:457-473 | the "new" sweep passes if and only if every slot holds an untried entry that hashes there and every reference count is right |
| `AddrCheck.PassesExactly` | src/addrman.cpp:404-478 | the check passes, and what it does not look at is right, if and only if the invariant holds, the times are in order and the key is not null |
| `AddrCheck.ZeroUnnoticed` | src/addrman.cpp:428-429 | taking the address of entry 0 out of the index breaks the invariant, and the check still passes |
| `AddrCheck.ZeroRestored` | src/addrman.cpp:428-429 | the check puts that address back |
| `AddrCheck.RunPasses` | src/addrman.cpp:404-478 | the check passes in every state of a run if and only if the key is not null and every operation was given an acceptable time |
| `AddrEffects.AtMostOneForgotten` | src/addrman.cpp:257-328 | if only one entry may go, at most one address is forgotten |
| `AddrEffects.PlaceEffect` | src/addrman.cpp:306-326 | the entry stays if and only if it has the slot, the slot is free or its occupant gives way, or it has other references; nothing but the occupant can be lost |
| `AddrEffects.AddAdmits` | src/addrman.cpp:300-326 | a routable unknown address gets in if and only if its slot is free, or its occupant has other references or is not worth keeping by its recorded times and failures |
| `AddrEffects.AddKnownEffect` | src/addrman.cpp:271-298 | adding a known address keeps it known and on its side; of the others only the occupant of the slot it is given can go, and only if its references allow it |
| `AddrEffects.AddForgetsAtMostOne` | src/addrman.cpp:257-328 | Add_ forgets at most one address |
| `AddrEffects.MakeTriedEffect` | src/addrman.cpp:157-203 | the entry ends up tried, the evicted one goes back to "new" with one reference, and of the others only the occupant of that slot can go |
| `AddrEffects.GoodEffect` | src/addrman.cpp:205-255 | a known service becomes tried; only the occupant of its slot leaves "tried", and it stays known; at most one address is forgotten |
| `AddrRoundTrip.Enumerates` | src/addrman.h:314-333 | the dump lists every new and every tried entry once, in id order |
| `AddrRoundTrip.EntriesLoad` | src/addrman.h:379-397 | loading the new entries renumbers them in list order |
| `AddrRoundTrip.TriedLoad` | src/addrman.h:399-418 | every tried entry of a dump finds its own recomputed slot free |
| `AddrRoundTrip.BucketsLoad` | src/addrman.h:420-436 | reloading the bucket lists restores every "new" slot, although only bucket numbers are stored |
| `AddrRoundTrip.PruneNothing` | src/addrman.h:438-448 | nothing is pruned while every untried entry has a reference |
| `AddrRoundTrip.CountsFit` | src/addrman.h:371-377 | the counts of a consistent manager pass the limits that loading imposes |
| `AddrRoundTrip.ReloadedInv` | src/addrman.h:350-454 | a reload of a consistent manager satisfies the invariant |
| `AddrRoundTrip.RoundTrip` | src/addrman.h:300-454 | loading a dump of any consistent manager succeeds, loses nothing, and gives the same manager up to renumbering, order and memory-only fields, with times in order if they were |
| `AddrRecords.AttemptRecords` | src/addrman.cpp:330-350 | one attempt records its time and adds one failure exactly if it is to be counted and none was since anything was last reached; no other record changes |
| `AddrRecords.AttemptsCountOnce` | src/addrman.cpp:330-350 | however many attempts follow the last success, they count as one failure at most, and as one exactly if some was to be counted and none had been |
| `AddrRecords.GoodRecords` | src/addrman.cpp:205-255 | a success is recorded, failures are forgotten, the time heard of stays, and no other record changes |
| `AddrRecords.ConnectedRecords` | src/addrman.cpp:502-520 | a connection moves the recorded time to the present if it lags more than twenty minutes, and changes nothing else |
| `AddrRecords.ServicesRecords` | src/addrman.cpp:522-538 | the services become those given and nothing else changes |
| `AddrRecords.RefreshRecords` | src/addrman.cpp:270-278 | hearing of an address again moves its time only from nothing or forward by more than an hour (a day for old news), leaves it no further behind than that, and adds the services |
| `AddrRecords.HeardAgain` | src/addrman.cpp:270-326 | the same for Add_ on a known address, which gains a reference if and only if there is news, it is untried with under 8 references, the draw allows it and its slot holds neither it nor anything worth keeping |
| `AddrRecords.HeardFirst` | src/addrman.cpp:300-326 | a new entry is recorded as given, its time set back by the penalty unless it announced itself, with one reference and nothing tried; no other record changes |
| `AddrGroups.TriedBound` | src/addrman.h:129-133 | in every consistent state at most 512 tried entries belong to one group of addresses |
| `AddrGroups.RunTriedBound` | src/addrman.h:113-133 | so in every state of every run |
| `AddrGroups.AddConfined` | src/addrman.cpp:27-40 | an announcement changes only slots of the 64 buckets of its source's group |
| `AddrGroups.AnnouncementsBound` | src/addrman.h:113-124 | however much one group of sources announces, it reaches at most 4096 of the 65536 slots and no tried entry loses its place |
| `AddrLoad.LoadsConsistent` | src/addrman.h:350-452 | an accepted dump without repeated addresses loads into a consistent manager if and only if its two counts are not negative, which is never checked |
| `AddrLoad.OtherFormat` | src/addrman.h:377-446 | from a dump of another version or bucket count an untried entry survives if and only if it is the first for the slot of its own source, a tried one if and only if it is the first for its slot, and both as saved |
| `AddrLoad.TriedSurvive` | src/addrman.h:288-296 | a consistent manager read back from another format is consistent and keeps every tried address |
| `AddrLoad.RefusedExactly` | src/addrman.h:358-375 | a complete dump is refused if and only if its key size is not 32 or it has more than 65536 untried or 16384 tried entries |
| `AddrLoad.HeaderIs` | src/addrman.h:306-315 | what is written says version 1, key size 32 and 1024 buckets with bit 30 flipped |
| `AddrManager.AddrMan.constructor` | src/addrman.h:456-478 | starts cleared and consistent |
| `AddrManager.AddrMan.Clear` | src/addrman.h:456-478 | resets to the cleared manager |
| `AddrManager.AddrMan.Find` | src/addrman.cpp:83-94 | finds the id of an address, if known |
| `AddrManager.AddrMan.Create` | src/addrman.cpp:96-106 | updates the three indexes as the specification says |
| `AddrManager.AddrMan.SwapRandom` | src/addrman.cpp:108-126 | updates the order and both positions as the specification says |
| `AddrManager.AddrMan.Delete` | src/addrman.cpp:128-140 | carries out the specified deletion |
| `AddrManager.AddrMan.ClearNew` | src/addrman.cpp:142-155 | carries out the specified clearing |
| `AddrManager.AddrMan.MakeTried` | src/addrman.cpp:157-203 | carries out the specified move to "tried", by the loop over all "new" buckets |
| `AddrManager.AddrMan.Good` | src/addrman.cpp:205-255 | carries out the specified operation, including the search for a bucket |
| `AddrManager.AddrMan.Add` | src/addrman.cpp:257-328 | carries out the specified operation and keeps the invariant |
| `AddrManager.AddrMan.Attempt` | src/addrman.cpp:330-350 | carries out the specified operation and keeps the invariant |
| `AddrManager.AddrMan.GetAddr` | src/addrman.cpp:481-500 | returns the specified sample while shuffling the order in place |
| `AddrManager.AddrMan.Check` | src/addrman.cpp:404-478 | returns zero if and only if nothing is wrong, by the loop over the entries and the two sweeps, and -7 if and only if the counts differ; the index gains only addresses of entries that it lacked, with id 0, and on success only that of entry 0 |
| `AddrManager.AddrMan.CheckEntries` | src/addrman.cpp:412-436 | zero if and only if every entry passes; collects the tried entries and the reference counts, and leaves the index with the addresses looked up |
| `AddrManager.AddrMan.CheckEntry` | src/addrman.cpp:413-435 | zero if and only if the entry passes, for the index as it was; its address is in the index afterwards |
| `AddrManager.AddrMan.CheckTried` | src/addrman.cpp:443-455 | zero if and only if every "tried" slot passes; strikes out the entries found |
| `AddrManager.AddrMan.CheckNew` | src/addrman.cpp:457-468 | zero if and only if every "new" slot passes and no reference is too many; counts the references off |
| `AddrManager.AddrMan.Connected` | src/addrman.cpp:502-520 | carries out the specified operation and keeps the invariant |
| `AddrManager.AddrMan.SetServices` | src/addrman.cpp:522-538 | carries out the specified operation and keeps the invariant |
| `AddrManager.AddrMan.Serialize` | src/addrman.h:300-348 | writes the dump of the specification by loops over entries and buckets |
| `AddrManager.AddrMan.Unserialize` | src/addrman.h:350-454 | rebuilds the tables of the specification by loops over the dump, or refuses it |
| `AddrManager.AddrMan.Prune` | src/addrman.h:438-448 | removes the entries that are neither tried nor referenced |
| `CoinViews.GetCoinSound` | src/coins.cpp:57-64 | a lookup changes no level's contents and answers with exactly the unspent coin the view shows |
| `CoinViews.FetchSound` | src/coins.cpp:40-55 | filling a cache on the way changes no level's contents and leaves the flags truthful |
| `CoinViews.AddCoinSound` | src/coins.cpp:66-85 | under the caller's contract no logic_error is reachable and the view becomes the map with the coin added; unspendable coins are ignored |
| `CoinViews.SpendCoinSound` | src/coins.cpp:98-112 | the view becomes the map without the coin, and an unspent coin is moved out; a returned coin may already have been spent |
| `CoinViews.SpendReports` | src/coins.cpp:98-112 | SpendCoin reports success if and only if the coin is unspent or a spent one is held in the cache, or pruned in a database right under it |
| `CoinViews.SpendTellsUnspent` | src/coins.cpp:98-112 | so its answer says whether the coin was unspent if and only if no spent one is held there |
| `CoinViews.SpentTwice` | src/coins.cpp:98-112 | spending a coin of the database twice through one cache succeeds both times |
| `CoinViews.UncacheSound` | src/coins.cpp:210-217 | dropping an unmodified entry changes no contents |
| `CoinViews.MergeSound` | src/coins.cpp:145-201 | one child entry never hits the "FRESH flag misapplied" error, and the merged entry shows what the child showed with truthful flags |
| `CoinViews.MergeAllSound` | src/coins.cpp:145-201 | merging a whole child cache makes the parent show what the child showed |
| `CoinViews.WriteDbSound` | src/txdb.cpp:84-120 | writing only dirty entries makes the database show what the cache showed |
| `CoinViews.BatchWriteSound` | src/coins.cpp:145-201 | a batch write into a cache or database shows the child's view and throws nothing |
| `CoinViews.FlushSound` | src/coins.cpp:203-208 | after a flush of any level the parent's view is the child's, and no level's view above changes |
| `CoinViews.UncacheAtSound` | src/coins.cpp:210-217 | uncaching at any depth changes no level |
| `CoinViews.ApplySound` | src/coins.cpp:40-217 | every operation does to the stack what it does to plain maps: lookups, additions and spends at the top, flushes and uncaching at any level |
| `CoinViews.RunRefinesPlainMaps` | src/coins.h:103-120 | over every run, on a stack of any depth, each level's view equals a plain map under the same operations |
| `CoinFlags.AddCoinExact` | src/coins.cpp:66-85 | adding a coin keeps FRESH exact, set if and only if the base shows no such coin, if and only if it is not an unseen overwrite of a coin the base does not show |
| `CoinFlags.ApplyExact` | src/coins.cpp:40-217 | every other operation at every level keeps it exact |
| `CoinFlags.RunExact` | src/coins.cpp:40-217 | so it is exact on every level over every run without such an overwrite |
| `CoinFlags.NothingSent` | src/coins.cpp:145-208 | then a flush tells the base nothing of a coin that neither shows, and every deletion it sends is of a coin the base shows |
| `CoinFlags.AddedAndSpent` | src/coins.cpp:80-112 | adding a coin that was nowhere and spending it gives back the very same caches, so a second spend reports none unless a pruned coin stands in a database right under the cache |
| `CoinFlags.FlushedBetween` | src/coins.cpp:203-208 | a coin added and spent between two flushes sends the base an empty batch |
| `CoinFlags.UncacheUndoesFetch` | src/coins.cpp:210-217 | uncaching undoes the filling by a lookup if and only if the lookup met no pruned coin in a database right under the cache |
| `CoinFlags.AddedIfSpendable` | src/coins.cpp:66-68 | a coin is added if its script is at most 10000 bytes and does not begin with 0x6a, and else nothing changes |
| `CoinFlags.RunSpendable` | src/script/script.h:659-662 | no level of any run shows a coin that nobody can spend, if none did at first |
| `CoinCaches.CoinsView.Database` | src/txdb.cpp:84-120 | a database view |
| `CoinCaches.CoinsView.OnTop` | src/coins.cpp:34 | an empty cache over a base |
| `CoinCaches.CoinsView.FetchCoin` | src/coins.cpp:40-55 | fills the cache as specified, through the base objects |
| `CoinCaches.CoinsView.GetCoin` | src/coins.cpp:57-64 | answers and fills as specified |
| `CoinCaches.CoinsView.HaveCoin` | src/coins.cpp:125-128 | true exactly if the view shows an unspent coin |
| `CoinCaches.CoinsView.AddCoin` | src/coins.cpp:66-85 | the specified update of the cache |
| `CoinCaches.CoinsView.SpendCoin` | src/coins.cpp:98-112 | the specified update of the cache |
| `CoinCaches.CoinsView.Uncache` | src/coins.cpp:210-217 | the specified update of the cache |
| `CoinCaches.CoinsView.BatchWrite` | src/coins.cpp:145-201 | the specified merge, by a loop that empties the child map |
| `CoinCaches.CoinsView.Flush` | src/coins.cpp:203-208 | the specified flush; the cache is empty afterwards |
| `MerkleTree.WidthIsCalcTreeWidth` | src/merkleblock.h:66-68 | the shifted expression for a level's width is the level-by-level halving, rounded up |
| `MerkleTree.ExtractSound` | src/merkleblock.cpp:78-114 | if a subtree extracts to its true hash, every match found below it is the block's own txid at its own index, in order |
| `MerkleTree.MatchesAreGenuine` | src/merkleblock.cpp:132-163 | for any bits and hashes, a successful extraction with the block's root reports only genuine txids, at strictly increasing indexes |
| `MerkleTree.ExtractBuilt` | src/merkleblock.cpp:60-114 | extracting what was built below a node gives its hash and exactly the matched txids, consuming exactly what was built |
| `MerkleAccepted.ReadsBack` | src/merkleblock.cpp:78-114 | reading a flattened partial tree gives its root and matches, and finds fault exactly if two siblings are equal |
| `MerkleAccepted.ReadIsTree` | src/merkleblock.cpp:78-114 | whatever is read without fault is a flattened partial tree |
| `MerkleAccepted.HashesFit` | src/merkleblock.cpp:141-146 | such a tree has at most one hash for each transaction and one bit for each hash, so the early tests refuse nothing else |
| `MerkleAccepted.AcceptedExactly` | src/merkleblock.cpp:132-163 | a proof is accepted if and only if it is a flattened tree of the right shape without equal siblings, padded to a byte; root and matches are those of the tree |
| `MerkleAccepted.ExtraHashes` | src/merkleblock.cpp:159-161 | an accepted proof with any hash added is refused |
| `MerkleAccepted.MissingHashes` | src/merkleblock.cpp:86-91 | and so with any hash dropped from its end |
| `MerkleAccepted.ExtraBits` | src/merkleblock.cpp:156-158 | with flags added it is accepted if and only if they are padding of its last byte, and then means the same |
| `MerkleAccepted.TwinsRefused` | src/merkleblock.cpp:103-107 | a tree of the right shape with two equal siblings is refused, whatever follows it |
| `MerkleProofs.LowBitFirst` | src/merkleblock.h:91-104 | bit p stands in byte p / 8, the lowest bit of a byte first |
| `MerkleProofs.PackRoundTrip` | src/merkleblock.h:88-105 | unpacking packed bits gives the bits, padded with zeros to whole bytes |
| `MerkleProofs.RootMatches` | src/merkleblock.cpp:60-76 | the matches below the root are all matches of the mask |
| `MerkleProofs.HashesPerLeaf` | src/merkleblock.h:38-39 | a subtree stores at most one hash per transaction |
| `MerkleProofs.HashesPerMatch` | src/merkleblock.h:38-40 | a subtree stores at most one hash more than matches times height |
| `MerkleProofs.BitsExact` | src/merkleblock.h:46-47 | there are exactly two bits per hash, less one, plus one for each visited node with a single child |
| `MerkleProofs.SinglesBound` | src/merkleblock.h:46-47 | at most one such node per level |
| `MerkleProofs.SizeBounds` | src/merkleblock.h:35-47 | the bounds on hashes hold, and the bits number at most 2N-1 plus the height |
| `MerkleProofs.PromisedBitsExactly` | src/merkleblock.h:47 | the promised 2N-1 bits hold if and only if no level of odd width has its last node visited |
| `MerkleProofs.PromisedBitsCounterexample` | src/merkleblock.h:47 | three transactions with the last matched break the promised bit count |
| `MerkleProofs.CountsExact` | src/merkleblock.cpp:60-76 | the numbers of hashes and bits follow from the mask and the shape of the tree alone |
| `MerkleProofs.PromisedSizeExactly` | src/merkleblock.h:34 | the promised total size holds if and only if the flag bytes, counted from the mask, need a one-byte length or stay within a quarter of the hashes, counted likewise |
| `MerkleProofs.PromisedSizeCounterexample` | src/merkleblock.h:34 | 8193 matched transactions take one byte more than promised |
| `MerkleProofs.RoundTrip` | src/merkleblock.cpp:60-163 | build, pack, unpack and extract returns the root and exactly the matched txids |
| `MerkleBlock.PartialMerkleTree.FromBlock` | src/merkleblock.cpp:116-128 | holds the bits and hashes of the specification, built by recursion that appends |
| `MerkleBlock.PartialMerkleTree.FromWire` | src/merkleblock.h:92-98 | unpacks the bits in a loop |
| `MerkleBlock.PartialMerkleTree.Bytes` | src/merkleblock.h:99-104 | packs the bits in a loop |
| `MerkleBlock.PartialMerkleTree.TraverseAndBuild` | src/merkleblock.cpp:60-76 | appends the specified bits and hashes |
| `MerkleBlock.PartialMerkleTree.TraverseAndExtract` | src/merkleblock.cpp:78-114 | returns the specified hash, advances both cursors and appends the specified matches, or sets the bad flag |
| `MerkleBlock.PartialMerkleTree.ExtractMatches` | src/merkleblock.cpp:132-163 | the specified result, with every sanity check |
| `Framing.HeaderRoundTrip` | src/protocol.h:27-60 | parsing a written header gives the magic, command, size and checksum written |
| `Framing.Le32RoundTrip` | src/protocol.h:27-60 | a 32-bit field survives its four little-endian bytes |
| `Framing.HeaderLayout` | src/protocol.h:45-54 | the header is the four start bytes, the command padded to twelve, the size little-endian in bytes 16 to 19, and the checksum |
| `Framing.RefusesExactly` | src/net.cpp:776-779 | the header of a message makes the receiver give up if and only if the payload exceeds 4000000 bytes |
| `Framing.ReceivesUpToOversized` | src/net.cpp:750-800 | of any stream exactly the messages before the first over 4000000 bytes are received, and the receiver gives up exactly if there is one |
| `Connection.WillingSocket` | src/net.cpp:899-936 | sending stops only where the socket takes less than is offered |
| `Framing.FeedConcat` | src/net.cpp:750-800 | receiving two chunks is receiving their concatenation: fragmentation does not matter |
| `Framing.FeedMessage` | src/net.cpp:750-800 | a whole serialized message completes exactly that message |
| `Framing.FeedMessagePart` | src/net.cpp:750-800 | a proper prefix of a message completes nothing and fails nothing |
| `Framing.FeedWire` | src/net.cpp:750-800 | the bytes of any messages complete exactly those messages |
| `Framing.EndToEnd` | src/net.cpp:750-944 | whatever prefix of the sender's bytes has arrived, the completed messages are exactly those whose last byte has arrived, in order, and nothing has failed |
| `Connection.SendSome` | src/net.cpp:894-944 | a partial send keeps the queue, offset, size and pause flag consistent with the bytes sent |
| `Connection.PushSends` | src/net.cpp:2816-2852 | queueing a message adds its bytes to what will be sent; the size is the bytes queued and the pause flag is set when it exceeds the limit |
| `Connection.Delivered` | src/net.cpp:750-944 | after any further part of the sent bytes the received messages are exactly those that have arrived whole |
| `Connection.Sender.constructor` | src/net.h:608-612 | an empty queue with nothing sent |
| `Connection.Sender.SocketSendData` | src/net.cpp:894-944 | for any socket behaviour the queue stays consistent with what was sent, sending stops only where the socket takes less than is offered, and a drained queue has offset and size zero |
| `Connection.Sender.PushMessage` | src/net.cpp:2816-2852 | appends header and payload, and sends at once if the queue was empty |
| `Connection.ReadHeader` | src/net.cpp:829-857 | copies what fits of the header and, once whole, parses it and refuses oversized payloads |
| `Connection.ReadData` | src/net.cpp:859-875 | copies exactly the payload bytes still missing or available |
| `Connection.Absorb` | src/net.cpp:757-782 | one round of the receive loop |
| `Connection.Receiver.constructor` | src/net.h:556-597 | nothing received |
| `Connection.Receiver.ReceiveMsgBytes` | src/net.cpp:750-800 | the messages are those of the byte-by-byte parser, for any chunk |
| `Connection.Exchange` | src/net.cpp:750-944 | over any sequence of pushes, partial sends and partial receives the receiver holds exactly the messages whose last byte is among those delivered |
| `CheckQueue.SettleHeld` | src/checkqueue.h:76-86 | the clean-up of a finished batch keeps counters and verdict exact while the thread holds the lock |
| `CheckQueue.RelockHeld` | src/checkqueue.h:98-100 | so does waking up from the wait |
| `CheckQueue.SeekReturn` | src/checkqueue.h:88-97 | when the master returns nothing of the round is queued or in flight, so its answer is exact and the next round starts clean |
| `CheckQueue.SeekWait` | src/checkqueue.h:88-101 | a thread that goes to wait keeps the invariant |
| `CheckQueue.SeekTake` | src/checkqueue.h:102-116 | taking a batch, however many, keeps the invariant |
| `CheckQueue.ExecuteKeeps` | src/checkqueue.h:118-122 | running a batch, skipping after a failure, keeps the invariant |
| `CheckQueue.AddKeeps` | src/checkqueue.h:146-158 | adding checks and notifying one or all workers keeps the invariant |
| `CheckQueue.StepKeeps` | src/checkqueue.h:66-158 | every step of every thread keeps the invariant, and no counter goes negative |
| `CheckQueue.RunKeepsInv` | src/checkqueue.h:66-158 | every state of every interleaving has nTodo equal to the queue plus all batches in flight, and truthful verdicts |
| `CheckQueue.WaitTellsTheTruth` | src/checkqueue.h:140-143 | each Wait returns true exactly when every check added since the last one passes, and rounds do not leak into each other |
| `CheckQueue.BlockedMasterHasWork` | src/checkqueue.h:76-101 | a blocked master always has another thread with an unreported batch |
| `CheckQueue.FairShare` | src/checkqueue.h:102-107 | a batch is one check or else the most that both the limit and an equal share among all threads and one more allow |
| `CheckQueue.TakesFromEnd` | src/checkqueue.h:108-114 | it is taken from the end of the queue, the last check first |
| `CheckQueue.NoNeedlessWork` | src/checkqueue.h:115-121 | once a failure is recorded nothing taken afterwards is run |
| `CheckQueue.RunsUpToFailure` | src/checkqueue.h:118-121 | a batch is run up to and including its first failure and fails exactly if there is one |
| `CheckQueue.AddWakes` | src/checkqueue.h:146-158 | adding several checks leaves no worker asleep |
| `CheckProgress.NeverStuck` | src/checkqueue.h:66-128 | while the master is in Wait some thread can enter the locked section or finish its batch |
| `CheckProgress.SeekPays` | src/checkqueue.h:88-116 | looking for work uses up at least what it took to get there |
| `CheckProgress.StepPays` | src/checkqueue.h:66-158 | every step on the work there is uses some of it up, and any other adds no more than its allowance |
| `CheckProgress.RunIsBounded` | src/checkqueue.h:66-158 | over any run the steps taken are at most the work at the start plus two per thread entering, one per spurious wake-up, three per check added and one per thread woken |
| `CheckProgress.WaitReturns` | src/checkqueue.h:140-143 | without new work only so many steps can be taken, and while Wait has not returned there is another |
| `MemPool.AncestorsCountLess` | src/miner.h:91-103 | an ancestor has a smaller ancestor count than its descendant |
| `PackageFigures.FiguresChargedMore` | src/miner.cpp:247-272 | charging the descendants of one more included transaction accumulates, for sizes and signature costs |
| `PackageFigures.FiguresAdded` | src/miner.cpp:247-272 | once the descendants of an added package are charged, package sizes and signature costs again never fall short of what is left to add, and are exact for transactions that never failed |
| `PackageFigures.RemainingSplit` | src/miner.cpp:190-201 | what remains of a package shrinks by exactly the ancestors added |
| `PackageFigures.PoolCovers` | src/miner.cpp:370-377 | the pool's cached figures never fall short either |
| `PackageFees.InOrder` | src/miner.cpp:247-272 | charging in any order: plain fees for entries that were there; a new entry gives up the adjusted fee of its first ancestor in that order and the plain fees of the others |
| `PackageFees.FirstIsLeast` | src/txmempool.h:488-493 | in the order of transaction sets, that of identifiers, the first ancestor is the least |
| `PackageFees.FeesAdded` | src/miner.cpp:247-272 | after a round the fees of an entry that never failed are those of what is left plus the adjustments of its included ancestors, all but the one it was made for |
| `PackageFees.TracksAdded` | src/miner.cpp:247-272 | the same for all figures together |
| `PackageFees.TracksErase` | src/miner.cpp:384-391 | giving up on an entry keeps the figures sound |
| `PackageFees.FeesExactly` | src/miner.h:123-132 | the fees are exact if and only if the adjustments of the included ancestors other than the recorded one that the entry was made for cancel out, and off by just these otherwise |
| `PackageFees.WhicheverItWas` | src/miner.h:123-132 | they cancel out whichever ancestor that is if and only if there is one included ancestor only or none is adjusted |
| `PackageFees.FeesSafe` | src/miner.cpp:247-272 | so the fees are exact, in whatever order ancestors were added and charged, if one ancestor is included or no included one is adjusted |
| `PackageFees.EveryOrder` | src/miner.cpp:247-272 | the fees of an entry that a round makes are exact in every order of charging if and only if the round adds one of its ancestors only or no adjusted one |
| `PackageFees.PoolFeesExact` | src/miner.cpp:370-377 | the pool's fees are exact for a transaction that has neither failed nor been modified |
| `PackageFees.BestIsOne` | src/txmempool.h:273-311 | in a chain of three whose second is raised by more than 30 the package of the second is the best in the pool |
| `PackageFees.OverstatedFees` | src/miner.cpp:251-269 | the round that adds it credits the third with the whole of that raise when the first is charged first, and with nothing too much when the second is |
| `Ranking.RatesTransitive` | src/txmempool.h:284-291 | comparing fee rates by products orders them like the fractions they stand for |
| `Ranking.PrecedesTransitive` | src/txmempool.h:277-292 | the order by score, then identifier, is transitive |
| `Ranking.ScoreIsLower` | src/txmempool.h:296-310 | the score is the lower of the rates of a transaction and of its package |
| `Ranking.SomeForemost` | src/miner.h:111-116 | of any entries one comes before all others |
| `Selection.PaysExactly` | src/policy/feerate.cpp:23-38 | meeting the fee asked is paying at least the rate times the size, less the rounded fraction, and something wherever the rate asks anything |
| `Selection.AddedWith` | src/miner.cpp:379-438 | whatever a run adds comes with a package that was taken, and so paid the rate, stayed clear of the limits and may be mined as a whole |
| `Selection.EachAttempt` | src/miner.cpp:322-438 | every attempt of a run is on the preferred package of that moment, which pays the rate, and it is taken exactly if it fits and may be mined |
| `Selection.NoneRefused` | src/miner.cpp:379-421 | where nothing in the pool is adjusted, unfit or underpaid, and all fits, no attempt of any run fails |
| `Selection.EverythingIncluded` | src/miner.cpp:310-438 | and every run ends with the whole pool in the block |
| `Selection.LeftOutPaysLess` | src/miner.cpp:379-382 | without adjustments, whatever a run leaves out without trying it pays less than the rate by itself or with what remains of its ancestors, unless the block was nearly full |
| `Selection.PayingPackageLeftOut` | src/miner.cpp:379-382 | a pool whose run ends at once although the package of one transaction pays the rate |
| `Miner.SortedIsValidOrder` | src/miner.cpp:289-298 | in a package sorted by ancestor count every ancestor is in the block already or earlier in the package |
| `Miner.AddedLimits` | src/miner.cpp:203-212 | adding what remains of a package costs at most four times its size in weight and exactly its signature costs |
| `Miner.SortForBlock` | src/miner.cpp:289-298 | orders a package by ancestor count and then by identifier, losing and repeating nothing |
| `Miner.ChargeDescendants` | src/miner.cpp:251-270 | charges every descendant outside the package, with the two different fee subtractions |
| `Miner.UpdatePackagesForAdded` | src/miner.cpp:247-272 | charges every descendant for each member of the package in turn, in ascending order of identifiers |
| `Miner.RoundTracks` | src/miner.cpp:247-272 | a round leaves every figure as it should be; entries that were there keep the ancestor they were made for, new ones were made for the least of their ancestors added |
| `Miner.BlockAssembler.constructor` | src/miner.cpp:67-72 | takes the rate and the weight limit, the latter moved into 4000 to 3996000 |
| `Miner.BlockAssembler.ResetBlock` | src/miner.cpp:92-104 | an empty block with the coinbase reserve |
| `Miner.BlockAssembler.TestPackage` | src/miner.cpp:203-212 | true exactly if both limits stay clear |
| `Miner.BlockAssembler.TestPackageTransactions` | src/miner.cpp:217-226 | true exactly if every transaction is final and has no premature witness |
| `Miner.BlockAssembler.AddToBlock` | src/miner.cpp:228-245 | appends the transaction and keeps all totals equal to the sums over the block |
| `Miner.BlockAssembler.AddPackage` | src/miner.cpp:423-431 | adds exactly the package, in a valid order and within the limits, and drops its modified entries |
| `Miner.BlockAssembler.TakePackage` | src/miner.cpp:423-436 | adds a package, makes the figures right for the larger block and says which ancestor each entry was made for |
| `Miner.BlockAssembler.Consider` | src/miner.cpp:340-377 | the candidate is the one of highest score among all that are neither in the block nor refused, and its figures are sound |
| `Miner.BlockAssembler.TryPackage` | src/miner.cpp:384-436 | a package is too big exactly if it reaches a limit, and taken exactly if it does not and all of it may be mined; nothing changes otherwise |
| `Miner.BlockAssembler.AddPackageTxs` | src/miner.cpp:310-438 | terminates with a duplicate-free block, ancestors first, within the limits, with fees the sum of those recorded; it is a run in the sense of Selection, which ends for one of the three reasons of Stops; a pool that is welcome as a whole ends up in the block as a whole |
| `Miner.BlockAssembler.CreateNewBlock` | src/miner.cpp:106-160 | the same for a block assembled from scratch: if no transaction is adjusted, unfit or pays less than the rate, and all fit, the block is the whole pool |
| `SchedulerClient.StepKeeps` | src/scheduler.cpp:149-198 | every step of every thread keeps order, mutual exclusion and the commitment to look again |
| `SchedulerClient.StepCosts` | src/scheduler.cpp:149-198 | every step the client takes by itself uses up some of a bounded effort |
| `SchedulerClient.RunKeepsInv` | src/scheduler.cpp:149-198 | the invariant holds in every state of every interleaving, with callbacks that add callbacks or throw |
| `SchedulerClient.StartedInOrder` | src/scheduler.cpp:161-173 | callbacks are begun in the order added, each once and none skipped |
| `SchedulerClient.NeverOverlap` | src/scheduler.h:87-92 | no two callbacks are ever in progress at once |
| `SchedulerClient.NeverStranded` | src/scheduler.cpp:149-198 | when all threads are idle and nothing is scheduled, every callback has been begun |
| `SchedulerClient.NeverStuck` | src/scheduler.cpp:149-198 | while callbacks are pending some thread can take a step |
| `SchedulerClient.RunIsBounded` | src/scheduler.cpp:149-198 | the client cannot spin: its own steps are at most eleven per callback added and one per drain call |
| `CuckooCache.ComputeHashes` | src/cuckoocache.h:249-259 | eight candidate slots, all inside the table |
| `CuckooCache.Bucket` | src/cuckoocache.h:249-259 | scaling a 32-bit hash by the table size stays inside the table |
| `CuckooCache.CandidateExactly` | src/cuckoocache.h:249-259 | the k-th candidate is slot b if and only if the k-th hash lies in the b-th of as many equal parts as there are slots |
| `CuckooCache.StraightIn` | src/cuckoocache.h:414-421 | with a free candidate and some depth the element goes to its first free candidate and nothing moves |
| `CuckooCache.ErasedIsFound` | src/cuckoocache.h:452-466 | giving up a slot hides nothing: what was found and erased is found again |
| `CuckooCache.AgedCounts` | src/cuckoocache.h:311-317 | ageing leaves no recent entry and turns exactly the recent ones into the old ones |
| `CuckooCache.FirstDisplaced` | src/cuckoocache.h:425-436 | the first displacement takes the second candidate |
| `CuckooCache.BackAtOnce` | src/cuckoocache.h:427-436 | the element just placed is displaced at once if and only if its slot is two candidates in a row of the displaced one, where it first occurs |
| `CuckooCache.NotBackAtOnce` | src/cuckoocache.h:427-436 | with eight different candidates the element just placed is not displaced at once |
| `CuckooCache.Swap` | src/cuckoocache.h:436-444 | one displacement rearranges the table and the element in hand, and keeps every live element where it hashes to |
| `CuckooCache.PlaceInto` | src/cuckoocache.h:414-421 | placing into a slot up for collection ends the insertion with nothing live lost |
| `CuckooCache.AllButOneKept` | src/cuckoocache.h:393-396 | after an insertion every live element and the new one are live, except at most one |
| `CuckooCache.Cache.constructor` | src/cuckoocache.h:346-359 | all slots up for collection |
| `CuckooCache.Cache.LiveBound` | src/cuckoocache.h:295-327 | live recent entries never exceed the epoch size plus max(1, epoch size / 16), and all live entries never twice that |
| `CuckooCache.Cache.EpochCheck` | src/cuckoocache.h:295-327 | ages exactly when a scan finds a full epoch, and schedules the next scan in time but not before a sixteenth of an epoch |
| `CuckooCache.Cache.Insert` | src/cuckoocache.h:398-446 | keeps the bounds and the placement; an element that is there stays, and any other goes in by a chain that ends at a free candidate or at the depth limit |
| `CuckooCache.Cache.Displace` | src/cuckoocache.h:412-445 | each displacement is made because every candidate was taken, and the chain ends at the first free candidate, or after as many as the depth limit with the element in hand dropped; it loses nothing else |
| `CuckooCache.Cache.Contains` | src/cuckoocache.h:473-483 | true exactly if a candidate slot holds the element, collected or not; erasing only sets the flag of one such slot |
| `Limbs.Add` | src/arith_uint256.h:141-151 | addition modulo 2 to the width, also of a number to itself |
| `Limbs.Increment` | src/arith_uint256.h:179-186 | plus one modulo 2 to the width |
| `Limbs.Decrement` | src/arith_uint256.h:196-203 | minus one modulo 2 to the width |
| `Limbs.Complement` | src/arith_uint256.h:75-81 | the largest value minus the number |
| `Limbs.Negate` | src/arith_uint256.h:83-90 | negation modulo 2 to the width |
| `Limbs.Subtract` | src/arith_uint256.h:153-157 | subtraction modulo 2 to the width |
| `Products.MulSmall` | src/arith_uint256.cpp:58-67 | multiplication by a 32-bit number modulo 2 to the width |
| `Products.Multiply` | src/arith_uint256.cpp:70-83 | multiplication modulo 2 to the width, and zero when the argument is the receiver itself |
| `Shifts.ShiftLeft` | src/arith_uint256.cpp:24-38 | multiplication by a power of two modulo 2 to the width, for any shift |
| `Shifts.ShiftRight` | src/arith_uint256.cpp:41-55 | division by a power of two, for any shift |
| `Division.CompareTo` | src/arith_uint256.cpp:112-121 | the order of the values |
| `Division.Bits` | src/arith_uint256.cpp:174-186 | the bit length |
| `Division.SetBit` | src/arith_uint256.cpp:102-102 | adds that power of two |
| `Division.Divide` | src/arith_uint256.cpp:86-109 | the floor quotient for every nonzero divisor; zero is refused, with the receiver already zeroed |
| `Difficulty.RoundTrip` | src/arith_uint256.cpp:206-247 | decoding an encoded value clears its low bytes and nothing else |
| `Difficulty.RoundTripError` | src/arith_uint256.cpp:226-247 | the compact form rounds down by less than one part in 2^15 |
| `Difficulty.RoundTripExact` | src/arith_uint256.cpp:206-247 | a value that a compact form stands for survives encoding and decoding |
| `Difficulty.EncodedParts` | src/arith_uint256.cpp:236-246 | the two asserts of the encoder hold, and the parts of the result are the byte length and the leading bytes |
| `Targets.EqualTo` | src/arith_uint256.cpp:124-136 | equality with a 64-bit number |
| `Targets.GetLow64` | src/arith_uint256.h:251-255 | the value, when it is below 2^64 |
| `Targets.SetCompact` | src/arith_uint256.cpp:206-224 | mantissa times 256^(exponent-3) modulo 2^256; the overflow flag is set if and only if that product is 2^256 or more |
| `Targets.Overflow` | src/arith_uint256.cpp:219-222 | the three-way size test is exactly that comparison |
| `Targets.GetCompact` | src/arith_uint256.cpp:226-247 | the byte length and leading bytes, with the sign bit kept clear unless asked for |
| `Targets.GetBlockProof` | src/chain.cpp:121-134 | floor(2^256 / (target + 1)) for every valid target, zero for the others |
| `Targets.BelowTop` | src/chain.cpp:129-133 | one more than a target never wraps |
| `Targets.CalculateNextWorkRequired` | src/pow.cpp:13-36 | the compact form of the scaled and capped target, with the span cut to 32 bits and the product to 256; while nothing is cut, the exact formula over the time taken in three cases |
| `Targets.NextTargetExact` | src/pow.cpp:19-33 | while nothing is cut, that is exactly min(limit, floor(old * span / timespan)), at most four times the old target |
| `Targets.RetargetBounds` | src/pow.cpp:32-35 | what is stored decodes to at most the limit and at most four times the old target |
| `Difficulty.StoredMonotone` | src/arith_uint256.cpp:226-246 | what is stored for a larger number stands for no less |
| `Difficulty.CompactExamples` | src/test/arith_uint256_tests.cpp:483-531 | the numbers that known compact forms stand for |
| `Targets.ClampNearest` | src/pow.cpp:19-23 | the clamped span is the only one of a quarter to four times the timespan that is nearest to the real one; it is the real one exactly if that is allowed, and grows with it |
| `Targets.ThreeCases` | src/pow.cpp:18-36 | while nothing is cut, the stored target is the old one times a quarter of the timespan, the time taken, or four times the timespan, over the timespan and capped, in three cases |
| `Targets.LongerIsEasier` | src/pow.cpp:18-36 | while nothing is cut, blocks that took longer give no smaller target and no smaller stored one |
| `ActiveChain.LocatorShort` | src/chain.cpp:23-49 | a locator lists the first eleven blocks one by one, grows with the logarithm of the height, and fits the 32 entries reserved up to height 2^21 |
| `SkipHeights.GetSkipHeight` | src/chain.cpp:70-81 | strictly below the height |
| `SkipHeights.LowestShifted` | src/chain.cpp:70-70 | clearing the lowest set bit leaves what stands above a run of low bits alone |
| `SkipHeights.FromOdd` | src/chain.cpp:91-106 | from an odd height the skip is taken whenever it does not pass the target |
| `SkipHeights.FromEven` | src/chain.cpp:91-106 | from an even height it is, unless the skip of the parent is better |
| `SkipHeights.TwoBelow` | src/chain.cpp:96-98 | where the skip of the parent is better, it clears no fewer bits |
| `SkipHeights.ExitAny` | src/chain.cpp:83-108 | from the upper half of an aligned block of heights the walk to a target in the lower half leaves the upper one in a few steps per set bit |
| `SkipHeights.BlockSteps` | src/chain.cpp:83-108 | the walk within an aligned block of 2^b heights |
| `SkipHeights.StepsAtMost` | src/chain.cpp:72-81 | from a height below 2^b any ancestor is at most b(b + 1) / 2 steps away |
| `BlockTree.WalkWalk` | src/chain.cpp:83-108 | walking to an ancestor of an ancestor is walking |
| `BlockTree.GetAncestor` | src/chain.cpp:83-108 | the ancestor that following parents alone would reach, and null outside the range; with every skip pointer set, in at most b(b + 1) / 2 steps from a height below 2^b |
| `BlockTree.LastCommonAncestor` | src/chain.cpp:155-170 | the highest common ancestor of two blocks of one tree |
| `BlockTree.BlockIndex.constructor` | src/chain.h:170-240 | an empty index is well formed |
| `BlockTree.BlockIndex.AddBlock` | src/chain.cpp:115-119 | appending a block with its skip pointer keeps the tree well formed and every skip pointer set |
| `ActiveChain.ChainGrows` | src/chain.h:435-492 | a chain stays the tip's ancestry as the tree grows |
| `ActiveChain.ContainsMeans` | src/chain.h:463-466 | membership means being the tip's ancestor |
| `ActiveChain.Chain.SetTip` | src/chain.cpp:11-21 | although it stops at the first block in place, the result is exactly the tip's ancestor chain |
| `ActiveChain.Chain.FindFork` | src/chain.cpp:51-60 | the highest common ancestor with the tip, or null when there is none |
| `ActiveChain.Chain.GetLocator` | src/chain.cpp:23-49 | entry n lies at max(0, H-n) up to n = 10 and entry 10+j at max(0, H-9-2^j), ending at height zero and nowhere before |
| `ActiveChain.Chain.Jump` | src/chain.cpp:37-43 | the index and the skip list give the same block |
| `Bech32Word.PackedWords` | src/bech32.cpp:87-91 | the five remainders used by a step, packed, are the words of the code |
| `Bech32Word.PackedShift` | src/bech32.cpp:83-84 | masking, shifting and adding a symbol moves every coefficient up |
| `Bech32Word.PackedXor` | src/bech32.cpp:86-91 | exclusive or of words is the sum of remainders |
| `Bech32Word.Unpacking` | src/bech32.cpp:132-138 | the six groups of five bits of a word are its coefficients |
| `Bech32Word.PolyMod` | src/bech32.cpp:37-94 | the loop on 32-bit words computes the packed remainder |
| `Bech32Field.FoldIsProduct` | src/bech32.cpp:76-91 | what a step adds is the leading coefficient times x^6 modulo the generator, with products in GF(32) |
| `Bech32Field.WordsAreMultiples` | src/bech32.cpp:87-91 | the other words are 2, 4, 8 and 16 times the first |
| `Bech32Field.MulExample` | src/bech32.cpp:55-57 | the product in the description |
| `Bech32Field.MulCommutes` | src/bech32.cpp:51-57 | products in GF(32) commute |
| `Bech32Field.MulDistributes` | src/bech32.cpp:51-57 | they distribute over sums |
| `Bech32Field.MulAssociates` | src/bech32.cpp:51-57 | they associate |
| `Bech32Field.Division` | src/bech32.cpp:39-46 | every polynomial is a quotient times the generator plus its checksum |
| `Bech32Field.CombineRemainder` | src/bech32.cpp:39-46 | whatever the quotient, the remainder of degree below six is the one computed |
| `Bech32Field.PolyModIsRemainder` | src/bech32.cpp:39-46 | the checksum of a list is the one remainder of the polynomial with an implicit one in front on division by the generator |
| `Bech32Word.Advance` | src/bech32.cpp:80-91 | one round on the word is one step of the remainder |
| `Bech32Checksum.StepLinear` | src/bech32.cpp:80-91 | the step is linear |
| `Bech32Checksum.StepKeepsNonzero` | src/bech32.cpp:80-91 | the step loses no difference |
| `Bech32Checksum.RemainderLinear` | src/bech32.cpp:37-94 | the remainder of a sum is the sum of the remainders |
| `Bech32Checksum.SixSymbols` | src/bech32.cpp:34-36 | six symbols after a zero remainder are the remainder |
| `Bech32Checksum.DetectsBurst` | src/bech32.cpp:37-94 | two lists of any length that differ only within six consecutive symbols have different remainders |
| `Bech32.ReverseCharset` | src/bech32.cpp:12-25 | decoding an encoding letter gives the symbol; such letters are printable, lower case and not the separator |
| `Bech32.CharsetReverse` | src/bech32.cpp:12-25 | encoding a decoded letter gives it in lower case |
| `Bech32.ExpandHrp` | src/bech32.cpp:103-115 | high bits, zero, low bits |
| `Bech32.VerifyChecksum` | src/bech32.cpp:118-125 | true exactly if the remainder is one, by comparing the word |
| `Bech32.CreateChecksum` | src/bech32.cpp:128-139 | the specified six symbols, read from the word |
| `Bech32.ChecksumIs` | src/bech32.cpp:118-139 | a list checks if and only if its last six symbols are the created checksum |
| `Bech32.Encode` | src/bech32.cpp:147-156 | readable part, separator, letters of data and checksum |
| `Bech32.Decode` | src/bech32.cpp:159-189 | the specified result, with every rejection |
| `Bech32.RoundTrip` | src/bech32.cpp:147-189 | decoding an encoding gives back the readable part and the data |
| `Bech32.AcceptedIsEncoded` | src/bech32.cpp:147-189 | an accepted string is, in lower case, the encoding of what it decodes to |
| `Bech32Checksum.RemainderInjective` | src/bech32.cpp:37-94 | different remainders stay different however many equal symbols follow |
| `Bech32Corruption.SymbolBurst` | src/bech32.cpp:118-125 | two symbol lists that both check cannot differ only within six consecutive positions |
| `Bech32Corruption.SameSeparator` | src/bech32.cpp:159-189 | two accepted strings with the same readable part and separator do not differ, apart from case, only within six consecutive characters |
| `Bech32Corruption.BurstRejected` | src/bech32.cpp:159-189 | corrupting up to six consecutive data characters of an accepted string gets it rejected, as long as no separator is written |
| `Bech32Extension.TimesAssociates` | src/bech32.cpp:46-48 | products in GF(1024), the extension of GF(32) by a root of x^2 + {9}x + {23}, associate |
| `Bech32Extension.TimesCommutes` | src/bech32.cpp:46-48 | and commute |
| `Bech32Extension.FixedDivisor` | src/bech32.cpp:46-48 | what two powers of that root fix, that of a common divisor of the exponents fixes |
| `Bech32Extension.AlphaMoves` | src/bech32.cpp:46-48 | no power of it below the 1023rd fixes anything but zero |
| `Bech32Errors.RootOfChecked` | src/bech32.cpp:44-48 | a root of the generator is a root of every list with remainder zero |
| `Bech32Errors.Eliminate` | src/bech32.cpp:46-48 | three consecutive powers leave no solution for three errors but none |
| `Bech32Errors.ThreePlaces` | src/bech32.cpp:46-48 | up to three errors within 1023 symbols leave a zero remainder only if there are none |
| `Bech32Errors.DetectsThree` | src/bech32.cpp:46-48 | two lists that differ in at most three places within a window of 1023 have different remainders |
| `Bech32Errors.ThreeRejected` | src/bech32.cpp:159-189 | up to three mistyped characters anywhere in the data part of an accepted string get it rejected, as long as no separator is written |
| `Bech32Corruption.SeparatorMoved` | src/bech32.cpp:174-186 | whatever is done to an accepted string before some place beyond both separators, the result is accepted if and only if it is well shaped, has letters only from its separator to there, and has reached the same remainder there |
| `Bech32Corruption.SeparatorCounterexample` | src/bech32.cpp:174-186 | one data character changed to the separator turns an accepted string into another accepted one |
| `Bech32.AcceptedExactly` | src/bech32.cpp:158-191 | accepted is exactly a string of at most 90 characters, not mixing cases, whose lower-case form is the encoding of something with a readable part of codes 33 to 126 |
| `Bech32.CaseIgnored` | src/bech32.cpp:158-191 | a string in one case is decoded like its lower-case form |
| `Bech32.AlphabetIs` | src/bech32.cpp:13-13 | the letter of a symbol is the one at its place in the character set |
| `Bech32.EncodedExample` | src/test/bech32_tests.cpp:28-29 | the shortest valid string of the tests is the encoding of its parts |
| `Base58.AcceptedExactly` | src/base58.cpp:24-72 | accepted is exactly a word of the alphabet, possibly empty, with blanks around it at most |
| `Base58.AlphabetIs` | src/base58.cpp:22-22 | the letter of a digit is the one at its place in the alphabet |
| `RollingBloom.CellExactly` | src/bloom.cpp:266-275 | a cell belongs to a key exactly if its hash says so: the low six bits name the bit and the rest, modulo the table, one of the two words |
| `Base58.EncodeRoom` | src/base58.cpp:84-84 | the 138/100 buffer holds every number of that many bytes |
| `Base58.DecodeRoom` | src/base58.cpp:37-37 | the 733/1000 buffer holds every number of that many digits |
| `Base58.MulAdd` | src/base58.cpp:45-54 | multiplies the buffer and adds, in place from the right, and no carry is left |
| `Base58.Stripped` | src/base58.cpp:62-65 | the digits without leading zeros |
| `Base58.Encode` | src/base58.cpp:74-112 | a one per leading zero byte, then the digits of the number |
| `Base58.Decode` | src/base58.cpp:24-72 | a zero byte per leading one, then the bytes of the number; refuses other characters and inner spaces |
| `Base58.DigitLetter` | src/base58.cpp:22-22 | a digit's letter reads back as the digit |
| `Base58.LetterDigit` | src/base58.cpp:22-22 | a readable letter is its digit's letter |
| `Base58.RoundTrip` | src/base58.cpp:24-112 | decoding an encoding gives back the bytes, for every byte string |
| `Base58.AcceptedIsEncoded` | src/base58.cpp:24-112 | an accepted string is the encoding of what it decodes to, apart from surrounding spaces |
| `RollingBloom.Wipe` | src/bloom.cpp:256-264 | the word masks clear exactly the cells of the reused generation |
| `RollingBloom.WriteCell` | src/bloom.cpp:272-275 | writing a cell sets its generation and no other cell's |
| `RollingBloom.MarkedAges` | src/bloom.cpp:250-265 | starting a generation ages every key by one and loses none that was at most one old |
| `RollingBloom.RememberRoll` | src/bloom.cpp:250-265 | a full generation becomes the previous one |
| `RollingBloom.Filter.constructor` | src/bloom.cpp:216-241 | an empty filter whose two generations hold nElements |
| `RollingBloom.BackedRoll` | src/bloom.cpp:250-265 | starting a generation forgets what only the reused one had set |
| `RollingBloom.BackedWrite` | src/bloom.cpp:268-275 | the cells written for a key are its own |
| `RollingBloom.SetExactly` | src/bloom.cpp:248-296 | a cell is set if and only if it is a cell of one of the last 2 * perGeneration + entries keys |
| `RollingBloom.Filter.Reset` | src/bloom.cpp:304-312 | an empty filter under a new tweak |
| `RollingBloom.Filter.Insert` | src/bloom.cpp:248-276 | remembers the key and everything still guaranteed, and nothing older |
| `RollingBloom.Filter.Contains` | src/bloom.cpp:284-296 | true if and only if every cell of the key is one of the last 2 * perGeneration + entries keys', and so always for these keys, hence for the last nElements |

## Left out

- Sockets, DNS, RPC, initialisation, logging and files: plumbing; sends and receives take any number of bytes.
- Cryptographic hashes and signature checks: arbitrary functions.
- Floating point: Bloom sizing, selection chance and the depth limit of the cuckoo cache are parameters; fee rates are compared exactly, without the rounding of the code.
- Address manager selection (`Select_`): a random search that changes nothing.
- Byte layout of the address manager's dump: the dump is a record of the values written, in order.
- Best-block hashes, memory-usage counters, `AddCoins` and `AccessCoin` of the coin caches: they would add only easy members.
- Crash recovery and partial batches of the coin database: a batch write is one step.
- Integer overflow in Merkle tree shifts and locator steps: transaction counts and heights stay far below it.
- Task timing of the scheduler itself: the client is modelled on any scheduler that runs each task once.
- Interrupting check queue threads, and their group at shutdown.
- RollingBloom.Filter.constructor: table size and number of hash functions are arguments, because the code computes them in floating point.
- CuckooCache.Cache.constructor: the depth limit is an argument, because the code computes it in floating point.
- AddrManager.AddrMan.Serialize: states the values written and their order, not their bytes.
- Statistics and logging of block assembly, and the coinbase transaction.
- `GetNextWorkRequired`, `CheckProofOfWork`, work-to-time conversion and `FindEarliestAtLeast`: easy members over what is proved here.
- Detection of a fourth scattered error within 89 characters by the Bech32 checksum: it was found by searching generators, and does not follow from the algebra; three within 1023 and bursts of six are proved.
- The figure of 110 steps in `src/chain.cpp:77-79`: it comes from simulation; what is proved for heights below 2^18 is 171.
- Checksummed Base58 and address types: they rest on hashes.
- The plain Bloom filter, compact blocks, compression, key stores and chain parameters.
