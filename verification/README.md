# A verified model of the data structures of a Gulden node

The project models the parts of the node in which several structures must agree with each other,
or in which a compact or fast form must mean the same as a plain one, and proves that they do.
Every core has a value-level model (datatypes, functions, lemmas) and, where the source updates
things in place, classes and loops whose contracts say that they compute that model.

| area | files |
|---|---|
| layered coin caches, their position index, the witness sibling | `CoinsModel`, `CoinsWitness`, `CoinsIndex`, `CoinsBatch`, `CoinsCache` |
| peer address manager, its check, its file | `AddrModel`, `AddrOps`, `AddrEffects`, `AddrMan`, `AddrCheck`, `AddrPeersModel`, `AddrPeersProof`, `AddrPeers` |
| parallel check queue | `CheckQueue` |
| cuckoo cache | `CuckooModel`, `CuckooCache`, `BitPacking` |
| partial Merkle trees | `MerkleModel`, `MerkleBlock`, `BitPacking` |
| block filters | `BitStrings`, `BitStreams`, `CompactSize`, `GcsModel`, `GcsValues`, `GcsFilter` |
| rolling Bloom filter | `BitWords`, `BloomModel`, `RollingBloom` |
| compact blocks | `PartialBlockModel`, `PartialBlock` |
| block index and chain | `Chain` |
| 256-bit arithmetic, compact targets, block proof | `Words`, `WordShifts`, `ArithUint`, `CompactModel`, `Compact` |
| Base 58 | `Radix`, `Base58Model`, `Base58` |
| shared facts about numbers, optional values | `Numbers`, `Wrappers` |

`dafny verify dfyconfig.toml` checks everything.

## Conventions

- Randomness, clocks and hash functions are parameters. SHA-256, SipHash and MurmurHash are
  arbitrary functions; where a theorem needs more of them (a collision-free pair hash, unambiguous
  short ids) it says so in its `requires`.
- Integers are unbounded. Where the width matters it is written out: 32-bit words with carries,
  64-bit wrap-around of decoded numbers, 16-bit positions, the 32-bit product in the cuckoo setup.
- An exception or a failed assertion of the source is a result (`Option`, a status, a flag) or a
  condition that is proved to hold.
- Bit operations are functions on naturals (`Numbers.Or`, `Numbers.And`, `BitWords.Xor`,
  `Numbers.HighBits`, `Numbers.LowBits`); `bv8` is used where bytes pack flags.

## Where the code does less than its comments suggest

- `src/merkleblock.h:54` says that a tree has at most 2N-1 bits for N hashes. A node with one child
  only breaks this; `MerkleModel.BitsRemark` gives the exact condition and
  `MerkleModel.BitsRemarkFails` a tree of three transactions.
- The filter reader refuses filters that the builder makes from more than 0x02000000 elements,
  because sizes above that limit are refused by `ReadCompactSize`.
  `GcsFilter.BuiltIsAcceptable` states this as an equivalence, `GcsFilter.TooManyElements` has the bytes.
- `x *= x` on the same object of `base_uint` gives zero, because the factor is cleared together with
  the result. `ArithUint.BaseUint.MulWith` states both cases, `ArithUint.SquareOfOne` squares one.
- `CChain::SetTip` equals a rebuild exactly when no entries are left over below the first block of
  the new tip's tree (`Chain.RefillIsRebuild`; `Chain.LeftOverSlot` leaves one); within one tree that
  is always so (`Chain.TipByTip`).
- The closing assertion of `LastCommonAncestor` holds exactly for trees that start at the same height
  (`Chain.LastCommonAncestor`); `Chain.RootsApart` has two that do not.
- Positions of short ids are 16 bits wide: that is exact for blocks of at most 65536 transactions and
  for no larger ones (`PartialBlockModel.PositionsFitIff`; `PartialBlockModel.PositionsWrap` has 65537).
- The comment on the displacement loop of the cuckoo cache says that the first element displaced is at
  the first location; with no previous location the code takes the second
  (`CuckooModel.FirstDisplaced`), which can differ (`CuckooModel.FirstDisplacedDiffers`).
- `CAddrMan::Add_` reports every new address. It keeps it exactly when it may have its slot
  (`AddrOps.AddKeeps`); `AddrOps.AddReportsDeleted` has one that is reported and not kept.
- `AddCoin` without overwrite keeps the cache coherent exactly when no unspent coin is visible below
  (`CoinsModel.AddKeeps`); where one is, spending brings it back (`CoinsModel.AddBreaks`).
- The position index of a cache is exact after a batch just when no two entries share a position and no
  entry that was there was moved (`CoinsBatch.MergedIndexIff`). A transaction that is mined again
  elsewhere is moved, and its coin then has no key (`CoinsBatch.MovedOutpoint`), so that the assertions
  of a spend fail for it (`CoinsCache.CoinsViewCache.SpendCoin` says when they do).
- The comment in `CCoinsViewDB::BatchWrite` says that erasing first keeps the coin database consistent.
  Its index is exact after a batch just when the condition of `CoinsBatch.StoredIndexIff` holds. A
  transaction that is mined again elsewhere arrives dirty and unspent, so nothing erases the key of its
  old position (`CoinsBatch.MovedInDatabase`).
- A filter of a peer may hold numbers out of order, since running sums wrap at 64 bits. A query then finds
  exactly the numbers that no earlier one exceeds (`GcsFilter.MatchInternal`) and can miss others
  (`GcsValues.NotReached`).

## Model

| member | source | states |
|---|---|---|
| CoinsModel.LookupIsVisible | src/coins.cpp:228-239 | a lookup through any number of layers finds an unspent coin exactly when the one plain map has it, and finds that coin |
| CoinsModel.VisibleUnspent | src/coins.h:183-200 | the plain map of a coherent stack holds unspent coins only |
| CoinsModel.FetchKeeps | src/coins.cpp:152-226 | pulling a coin up through the layers changes no level's map, keeps every flag true and caches what the lookup answers |
| CoinsModel.FetchCopies | src/coins.cpp:189-225 | a fetched entry is a clean copy, fresh if the coin is spent; other entries stay |
| CoinsModel.AddKeeps | src/coins.cpp:241-285 | an add neither throws nor breaks coherence exactly when the coin is unspendable, overwrite is allowed or no unspent coin is visible; the map then gains the coin, at whatever position |
| CoinsModel.AddLeaves | src/coins.cpp:267-284 | the entry, its flags, and that no other entry changes |
| CoinsModel.AddBreaks | src/coins.cpp:274-283 | an add over an unspent coin below is not thrown out, counts as fresh, and spending it brings the coin below back |
| CoinsModel.SpendKeeps | src/coins.cpp:299-339 | a spend removes the coin from the map of the top level and from no other level |
| CoinsModel.SpendLeaves | src/coins.cpp:314-338 | other entries stay; with fresh entries kept a lookup finds the coin as a spent one; otherwise its entry is gone just when it was fresh, and is else spent and dirty |
| CoinsModel.AddSpendIsNothing | src/coins.cpp:267-338 | a coin added and spent in one cache leaves it as it was |
| CoinsModel.AddFlushSpendIsNothing | src/coins.cpp:267-504 | so does one added in a child, flushed and spent in the parent |
| CoinsModel.UncacheKeeps | src/coins.cpp:506-548 | dropping a clean entry changes nothing visible |
| CoinsModel.UncacheDrops | src/coins.cpp:530-547 | a clean entry is gone, every other one is left as it was |
| CoinsModel.NeverMisapplied | src/coins.cpp:380-492 | the "FRESH flag misapplied" error cannot be reached from coherent layers |
| CoinsModel.FlushKeeps | src/coins.cpp:494-504 | after a flush the base shows exactly what the child showed, and stays coherent |
| CoinsModel.FlushAtPoint | src/coins.cpp:380-492 | the merge of a batch at one outpoint: same visibility, same coin, flags true again |
| CoinsModel.MergedEntry | src/coins.cpp:386-458 | what a batch leaves of every entry, flags included |
| CoinsModel.AtLevelKeeps | src/coins.cpp:494-548 | fetching, uncaching or flushing at any level of the stack does to the list of maps what a plain list operation does |
| CoinsModel.StepRefines | src/coins.cpp:152-548 | every operation on a stack of any depth refines one operation on plain maps, without a throw |
| CoinsModel.RunRefines | src/coins.cpp:152-548 | after any legal run over a stack of any depth every level shows the map the plain run ends in; coins may come back at other positions, as after a reorganisation |
| CoinsWitness.PlainStepRestricts | src/coins.cpp:243-256 | restricting to witness outputs commutes with every forwarded operation |
| CoinsWitness.BothStep | src/coins.cpp:243-339 | one operation on the main view and the forwarded one on the sibling keep them in step |
| CoinsWitness.SiblingIsRestriction | src/coins.cpp:51-55 | over any run, with stacked children, the sibling view equals the main view restricted to witness outputs |
| CoinsIndex.InverseIsUnique | src/coins.cpp:263-267 | the cached coins determine the position index |
| CoinsIndex.IndexExistsIffUnique | src/coins.cpp:263-267 | an exact position index exists just when no two cached outpoints share a position |
| CoinsIndex.RefsFollowPlacement | src/coins.cpp:152-226 | a position is indexed exactly when the outpoint placed there has a coin, and leads to it |
| CoinsIndex.InversePut | src/coins.cpp:263-267 | caching a coin and indexing its position keeps the index the exact inverse |
| CoinsIndex.PutIndexIff | src/coins.cpp:263-284 | wherever the coin goes, the index is exact after a put just when no two coins share a position and the coin did not leave one |
| CoinsIndex.InverseRemove | src/coins.cpp:323-333 | erasing both keeps the index the exact inverse |
| CoinsBatch.MergeAllStep | src/coins.cpp:380-492 | merging a batch entry by entry does not depend on the order of visits |
| CoinsBatch.MergedIndexIff | src/coins.cpp:380-492 | for every order of visits the index of a cache is exact after a batch just when no two of its entries share a position and none that it already had was moved |
| CoinsBatch.MergedIndexPlaced | src/coins.cpp:380-492 | while outpoints keep their positions it always is |
| CoinsBatch.MovedOutpoint | src/coins.cpp:441-453 | a coin that comes back at another position over its spent entry is not indexed there |
| CoinsBatch.StoreAllStep | src/txdb.cpp:223-264 | neither does writing it to the database |
| CoinsBatch.StoredIndexIff | src/txdb.cpp:223-264 | batches may hand positions from coin to coin: the index of the database is exact afterwards just when the stored coins have positions of their own, no key is left over and none is lost |
| CoinsBatch.MovedInDatabase | src/txdb.cpp:228-257 | a coin stored again at another position leaves a key of the old one that leads to it |
| CoinsBatch.StoredIndexPlaced | src/txdb.cpp:223-264 | while outpoints keep their positions it always is |
| CoinsCache.CoinsDb.GetCoin | src/txdb.cpp:133-153 | the coin stored under a hash, or under the outpoint that the index has for a position |
| CoinsCache.CoinsDb.BatchWrite | src/txdb.cpp:223-264 | for every order of visits: dirty entries replace or erase the stored coins, all keys are erased before any is written, and the index is exact if outpoints keep their positions |
| CoinsCache.CoinsViewCache.OnDb | src/coins.cpp:45-49 | an empty cache on a database |
| CoinsCache.CoinsViewCache.OnCache | src/coins.cpp:51-55 | a child cache whose sibling is a child of its parent's sibling |
| CoinsCache.CoinsViewCache.PlacedSettled | src/coins.cpp:175-216 | while outpoints keep their positions the index of a stack of any depth finds the outpoint placed at a position if any view has it, and the assertion on the way holds |
| CoinsCache.CoinsViewCache.ByPositionIsByHash | src/coins.cpp:152-226 | looking up, fetching, spending or uncaching by position is then the same as by hash |
| CoinsCache.CoinsViewCache.FindLocal | src/coins.cpp:152-175 | the entry under a hash or under the outpoint of the index, and the key of the index for it |
| CoinsCache.CoinsViewCache.FetchCoin | src/coins.cpp:152-226 | the entry found is the one the layered model fetches for the outpoint named by hash or by the index of the first view that has the position; index and coherence are kept |
| CoinsCache.CoinsViewCache.GetCoin | src/coins.cpp:228-239 | the answer is that of the layered model for that outpoint, whether or not positions are fixed |
| CoinsCache.CoinsViewCache.HaveCoin | src/coins.cpp:356-360 | true exactly when the plain map has the coin of that outpoint; nothing visible changes |
| CoinsCache.CoinsViewCache.AddCoin | src/coins.cpp:241-285 | fails exactly when the model throws for the view or its sibling; otherwise both change as the model says, and an exact index stays exact just when the coin gets a position of its own and does not leave one |
| CoinsCache.CoinsViewCache.SpendCoin | src/coins.cpp:299-339 | by hash it fails exactly when the index lacks the position of the entry, by position never; otherwise the coin moved out is the one visible, and view and sibling change as the model says |
| CoinsCache.CoinsViewCache.Uncache | src/coins.cpp:506-548 | only a clean entry is dropped, with its index entry, also when it is named by position |
| CoinsCache.CoinsViewCache.MergeIn | src/coins.cpp:385-458 | one entry of a batch: refused exactly for a fresh entry over an unspent one, otherwise merged, with the keys it erases and whether it is to be indexed |
| CoinsCache.CoinsViewCache.BatchWrite | src/coins.cpp:380-492 | for every order of visits the coins are the merge of the model, wherever they have moved; erasures, spent and then unspent entries make the new index, so an unspent entry gets a contested position; exact if outpoints keep their positions |
| CoinsCache.CoinsViewCache.Flush | src/coins.cpp:494-504 | never fails from a sound state, and flushes view and sibling as the model says |
| CoinsCache.CoinsViewCache.GetAllCoins | src/coins.h:394-412 | the map returned is the plain map of the whole stack |
| AddrModel.SwapLinked | src/addrman.cpp:100-118 | swapping two positions keeps both maps and the vector consistent; its asserts hold |
| AddrModel.DeleteKeeps | src/addrman.cpp:120-132 | deleting an unreferenced entry keeps everything else and the counters exact |
| AddrModel.ClearKeeps | src/addrman.cpp:134-147 | clearing a slot drops one reference, deletes an entry that has none left, and keeps the rest |
| AddrModel.DropRefsKeeps | src/addrman.cpp:151-161 | the search over all buckets finds every reference of an entry |
| AddrModel.UntryKeeps | src/addrman.cpp:168-177 | taking an entry out of its tried slot leaves it unreferenced and the counters off by exactly one |
| AddrModel.RefKeeps | src/addrman.cpp:309-313 | one more reference in a free slot keeps reference counts and slots in step |
| AddrModel.EvictKeeps | src/addrman.cpp:168-189 | the entry that held the tried slot goes to its new slot; no assert fails |
| AddrModel.MakeTriedKeeps | src/addrman.cpp:149-195 | moving an entry to the tried table keeps the manager consistent and puts it in its own slot |
| AddrOps.PlaceKeeps | src/addrman.cpp:298-319 | placing an entry keeps consistency, and an entry that disappears had this slot as its only reference and was overwritable |
| AddrOps.EnterKeeps | src/addrman.cpp:291-296 | an unknown address enters linked and unreferenced |
| AddrOps.AddKeeps | src/addrman.cpp:249-320 | Add keeps consistency and the tried table, reports a new entry exactly for a routable unknown address, and keeps it exactly when it may have its slot |
| AddrOps.PlaceStoresIff | src/addrman.cpp:298-319 | an entry without references is kept, and found by its address, exactly when it may have its slot |
| AddrOps.AddReportsDeleted | src/addrman.cpp:291-319 | two addresses of one slot: both are reported, the second is not kept |
| AddrEffects.AddUnknownDoes | src/addrman.cpp:291-319 | a new address gets the slot of bucket newHash mod 1024 for its source if that is free, or its entry terrible or referenced elsewhere; no other slot changes, and the record is the one given |
| AddrEffects.AddKnownDoes | src/addrman.cpp:263-319 | a known address gets time and services, and one more slot, of the bucket for this source, exactly under the conditions listed |
| AddrEffects.TerribleIff | src/addrman.cpp:40-58 | when an entry is worth keeping, in seconds |
| AddrOps.NeverLost | src/addrman.cpp:226-241 | the "something bad happened" exit of Good is dead |
| AddrOps.GoodKeeps | src/addrman.cpp:197-247 | a service marked good always ends up in its own tried slot, the manager stays consistent |
| AddrEffects.GoodDoes | src/addrman.cpp:149-247 | the service is a success without failures in the tried slot of its hashes; the entry that was there goes to the new slot for its own source |
| AddrOps.MarksKeep | src/addrman.cpp:322-342 | Attempt, Connected and SetServices keep consistency |
| AddrEffects.AttemptDoes | src/addrman.cpp:322-342 | the entry of the service notes the attempt; nothing else changes |
| AddrEffects.AttemptsCountOnce | src/addrman.cpp:336-341 | two failures without a success between them count as one |
| AddrEffects.ConnectedDoes | src/addrman.cpp:490-508 | the time moves up when it is older by more than twenty minutes; nothing else changes |
| AddrEffects.ServicesDo | src/addrman.cpp:510-526 | the services are replaced; nothing else changes |
| AddrEffects.UnknownServices | src/addrman.cpp:322-335 | an unknown service, or another port, changes nothing |
| AddrOps.SelectKeeps | src/addrman.cpp:469-488 | the selection keeps consistency, respects the quota and returns distinct entries that are not terrible |
| AddrEffects.SelectAll | src/addrman.cpp:475-487 | unless the quota is reached every good entry is selected |
| AddrEffects.QuotaIs | src/addrman.cpp:471-473 | the quota is 23 in a hundred, at most 2500 |
| AddrOps.StepKeeps | src/addrman.cpp:249-526 | every operation keeps all conditions of the check |
| AddrOps.RunKeeps | src/addrman.cpp:249-526 | so does every run |
| AddrCheck.ConsistentPasses | src/addrman.cpp:392-466 | consistency implies every condition that Check_ tests, apart from the key, which must not be null |
| AddrCheck.RunPasses | src/addrman.cpp:392-466 | after every run from a fresh manager the check reports nothing, or error -16 if the key is null |
| AddrMan.BucketTable.Set | src/addrman.h:456-475 | the grid of slots with -1 for empty is the map of occupied slots |
| AddrMan.AddrMan.SwapRandom | src/addrman.cpp:100-118 | changes the manager as the model says |
| AddrMan.AddrMan.Delete | src/addrman.cpp:120-132 | changes the manager as the model says |
| AddrMan.AddrMan.ClearNew | src/addrman.cpp:134-147 | changes the manager as the model says |
| AddrMan.AddrMan.DropRefs | src/addrman.cpp:152-159 | the loop over 1024 buckets removes exactly the references of the entry |
| AddrMan.AddrMan.Evict | src/addrman.cpp:168-189 | changes the manager as the model says |
| AddrMan.AddrMan.MakeTried | src/addrman.cpp:149-195 | changes the manager as the model says |
| AddrMan.AddrMan.FindBucket | src/addrman.cpp:226-236 | from any starting bucket the search finds a bucket that holds the entry, if there is one |
| AddrMan.AddrMan.Promote | src/addrman.cpp:226-247 | the search never fails and the move is that of the model |
| AddrMan.AddrMan.Good | src/addrman.cpp:197-247 | keeps consistency and changes the manager as the model says |
| AddrMan.AddrMan.Attempt | src/addrman.cpp:322-342 | keeps consistency and changes the manager as the model says |
| AddrMan.AddrMan.Connected | src/addrman.cpp:490-508 | keeps consistency and changes the manager as the model says |
| AddrMan.AddrMan.SetServices | src/addrman.cpp:510-526 | keeps consistency and changes the manager as the model says |
| AddrMan.AddrMan.PassesTest | src/addrman.cpp:285-290 | the loop that doubles the factor passes a draw exactly when it is a multiple of the power of two |
| AddrMan.AddrMan.Add | src/addrman.cpp:249-320 | keeps consistency and changes the manager as the model says |
| AddrMan.AddrMan.GetAddr | src/addrman.cpp:469-488 | the addresses returned are those of distinct good entries, at most the quota |
| AddrPeersModel.NumberIsPlace | src/addrman.h:313-324 | the number written for an id is its place among the records |
| AddrPeersModel.TriedCounted | src/addrman.h:399-418 | for any file: tried records that take no slot are counted as lost |
| AddrPeersModel.BucketsBounded | src/addrman.h:420-436 | for any file: no entry gets more than eight references and no slot a second entry |
| AddrPeersProof.ListedSizes | src/addrman.h:313-333 | as many new and tried entries are written as the counters say |
| AddrPeersProof.NewAreRead | src/addrman.h:379-397 | the new entries come back under their numbers |
| AddrPeersProof.TriedAreRead | src/addrman.h:399-418 | no tried entry is lost to a collision |
| AddrPeersProof.EnterSlotKeeps | src/addrman.h:427-434 | every listed entry gets back the slot it was listed for |
| AddrPeersProof.BucketsAreRead | src/addrman.h:420-436 | all slots of the new table come back and no others |
| AddrPeersProof.NothingPruned | src/addrman.h:438-448 | a consistent manager loses nothing in the last loop |
| AddrPeersProof.PruneRemoves | src/addrman.h:438-448 | in any linked manager it removes exactly the entries neither tried nor referenced |
| AddrPeersProof.NeverTooMany | src/addrman.h:371-377 | the counters of a consistent manager fit the tables, so the reader refuses nothing that was written |
| AddrPeersProof.LoadSave | src/addrman.h:300-454 | what a consistent manager wrote is read without a refusal and gives a consistent manager with the same record in every slot and under every address |
| AddrPeers.WriteRecords | src/addrman.h:313-333 | the loops write the records of the model and their asserts on the counters hold |
| AddrPeers.Serialize | src/addrman.h:300-348 | writes what the model says |
| AddrPeers.ReadTriedRecord | src/addrman.h:402-416 | an entry takes its own slot or is counted as lost |
| AddrPeers.ReadSlot | src/addrman.h:427-434 | a listed number is used if it is in range, its slot is free and it may have one more reference |
| AddrPeers.Unserialize | src/addrman.h:350-454 | refuses counters beyond the tables; otherwise a fresh manager is filled as the model says |
| AddrPeers.Restart | src/addrman.h:300-454 | writing and reading into a fresh object keeps every slot, record and reference count |
| CheckQueue.CleanUpInv | src/checkqueue.h:80-89 | handing a batch in keeps the invariant |
| CheckQueue.NothingPending | src/checkqueue.h:91-100 | with an empty queue and nothing left to do the flag says whether all checks added were true |
| CheckQueue.BatchFits | src/checkqueue.h:105-117 | the batch is the largest that is at most the batch size and a fair share of the queue, but at least one check |
| CheckQueue.SettleInv | src/checkqueue.h:91-120 | returning, waiting or taking a batch keeps the invariant |
| CheckQueue.SettleDoes | src/checkqueue.h:91-120 | which of the three it is, and that a batch is the last checks of the queue, backwards |
| CheckQueue.AddInv | src/checkqueue.h:151-163 | adding checks keeps the invariant |
| CheckQueue.AddNotifies | src/checkqueue.h:151-163 | one check notifies one worker, more notify every waiting worker, and nobody else is touched |
| CheckQueue.ExecuteInv | src/checkqueue.h:121-127 | running a check outside the lock keeps it |
| CheckQueue.StepInv | src/checkqueue.h:69-163 | every step of every thread keeps the invariant |
| CheckQueue.QueueIsCorrect | src/checkqueue.h:69-163 | in every interleaving the count is queued plus in-flight checks, every Wait answers whether all checks since the last one were true, and a waiting master without a wake-up has a worker in flight |
| CheckQueue.NeverStuck | src/checkqueue.h:69-129 | while the master has not returned some thread can move on its own |
| CheckQueue.ProgressShrinks | src/checkqueue.h:69-129 | every such move lowers a measure |
| CheckQueue.ProgressEnds | src/checkqueue.h:145-148 | from any reachable state the threads can move on their own only so often |
| CheckQueue.WaitReturns | src/checkqueue.h:69-148 | after any run, when the threads have moved until none can any more, the master is outside, and the Wait it was in has said whether all checks added are true |
| CuckooModel.Locations | src/cuckoocache.h:212-222 | eight locations within the table |
| CuckooModel.LocationIs | src/cuckoocache.h:212-222 | each in proportion to its 32-bit hash |
| CuckooModel.PutHome | src/cuckoocache.h:361-409 | a stored element stays at one of its eight locations and no element is live twice |
| CuckooModel.PutLive | src/cuckoocache.h:361-409 | storing replaces exactly the live element at the location |
| CuckooModel.DisplaceKeeps | src/cuckoocache.h:379-409 | the chain of displacements drops at most one element |
| CuckooModel.FirstDisplaced | src/cuckoocache.h:385-400 | the first element displaced is at the second location, for every table size |
| CuckooModel.FirstDisplacedDiffers | src/cuckoocache.h:385-400 | a hash for which that is not the first location |
| CuckooModel.NextDisplaced | src/cuckoocache.h:399 | after that the one after the last one used, in turn |
| CuckooModel.DroppedIffCrowded | src/cuckoocache.h:375-408 | an element is dropped exactly when every turn found the eight locations of the element in hand taken |
| CuckooModel.EpochCheckKeeps | src/cuckoocache.h:258-290 | what is live after the scan: everything, or the recent elements exactly when a scan is due and finds the epoch full; both bounds hold again, and no scan is due before the epoch can be full |
| CuckooModel.InsertKeeps | src/cuckoocache.h:361-409 | an insert adds its element and loses, of what survives the scan, at most one, which it names, and only when every turn found all locations taken; locations, uniqueness and bounds are kept |
| CuckooModel.InsertStores | src/cuckoocache.h:366-384 | with a location free the element is stored and found, and nothing is dropped |
| CuckooModel.InsertRecents | src/cuckoocache.h:361-409 | the element belongs to the current epoch, and apart from ageing no other changes its epoch |
| CuckooModel.EraseKeeps | src/cuckoocache.h:436-446 | erasing on lookup removes exactly that element from the live ones, which stays findable |
| CuckooModel.RunKeeps | src/cuckoocache.h:361-446 | every run keeps all of this |
| CuckooModel.SetupKeeps | src/cuckoocache.h:309-322 | a fresh cache of any size has it; all of it is free, and an epoch is 45 in a hundred of its size |
| CuckooModel.LoadBound | src/cuckoocache.h:258-322 | in every run recent live entries are at most epoch_size + max(1, epoch_size/16), all live ones at most twice that, and every live element is found at its place |
| CuckooCache.BitFlags.Set | src/cuckoocache.h:92-95 | a bit of a byte array is one flag; no other flag changes |
| CuckooCache.BitFlags.Unset | src/cuckoocache.h:103-106 | the same for clearing |
| BitPacking.MaskIs | src/cuckoocache.h:92-106 | flags fill a byte from its lowest bit |
| CuckooCache.CuckooCache.constructor | src/cuckoocache.h:309-322 | sets the cache up as the model says |
| CuckooCache.CuckooCache.EpochCheck | src/cuckoocache.h:258-290 | ages the cache as the model says |
| CuckooCache.CuckooCache.Insert | src/cuckoocache.h:361-409 | inserts as the model says and keeps the invariants |
| CuckooCache.CuckooCache.Contains | src/cuckoocache.h:436-446 | finds exactly what is at one of the eight locations, and erases only that |
| MerkleModel.WidthIsInTree | src/merkleblock.h:73-75 | the width formula counts the nodes of a level |
| MerkleModel.NodesDiffer | src/merkleblock.cpp:35-50 | with a collision-free hash and distinct txids the nodes of a level differ |
| MerkleModel.ExtractBuild | src/merkleblock.cpp:52-106 | traversing the code of any subtree gives its hash, its matches and the right number of bits and hashes |
| MerkleModel.NoClash | src/merkleblock.cpp:93-99 | then the check against equal siblings never fires |
| MerkleModel.ExtractAuthentic | src/merkleblock.cpp:70-106 | for any subtree of any code, a matching hash makes every reported pair true |
| MerkleModel.CodeSize | src/merkleblock.cpp:52-68 | a subtree stores at most one hash per leaf, and 2h-1 bits plus one for every node with one child above a match |
| MerkleModel.HashesPerMatch | src/merkleblock.h:46-47 | at most one hash more than matches times height |
| MerkleModel.RoundTrip | src/merkleblock.cpp:108-155 | extraction from a built tree returns all matches in order, and the root unless equal siblings occur; trailing padding bits do not matter |
| MerkleModel.RoundTripDistinct | src/merkleblock.cpp:108-155 | for distinct txids and a collision-free hash it returns the true root, which is defined level by level |
| MerkleModel.RootIsTop | src/merkleblock.cpp:35-50 | the hash of the top node is what is left when neighbours are hashed in pairs, left before right and a last one with itself, until there is one |
| MerkleModel.Authentic | src/merkleblock.cpp:124-155 | for an arbitrary partial tree with the true non-null root every reported (txid, index) is in the block |
| MerkleModel.AcceptedIs | src/merkleblock.cpp:126-153 | an accepted tree is of a possible size and leaves nothing unused but padding |
| MerkleModel.BitsRemark | src/merkleblock.h:54 | at most 2N-1 bits for N hashes exactly when no node above a match has a single child |
| MerkleModel.BitsRemarkFails | src/merkleblock.h:54 | a tree of three transactions with four bits and two hashes |
| MerkleBlock.PartialMerkleTree.constructor | src/merkleblock.cpp:108-120 | builds the tree of the model |
| MerkleBlock.PartialMerkleTree.TraverseAndBuild | src/merkleblock.cpp:52-68 | appends the bits and hashes of the subtree |
| MerkleBlock.PartialMerkleTree.TraverseAndExtract | src/merkleblock.cpp:70-106 | returns the hash and matches of the model and advances both counters, with the same failures |
| MerkleBlock.PartialMerkleTree.ExtractMatches | src/merkleblock.cpp:124-155 | returns root and matches of the model, including every refusal |
| MerkleBlock.PartialMerkleTree.WriteBits | src/merkleblock.h:95-112 | bits packed into bytes with zero padding |
| MerkleBlock.PartialMerkleTree.ReadBits | src/merkleblock.h:95-112 | bytes read back as bits |
| MerkleBlock.BuildSendExtract | src/merkleblock.cpp:108-155 | built, packed, unpacked and extracted: the root of the levels and exactly the matched txids |
| GcsModel.MapIntoRangeIs | src/blockfilter.cpp:71-95 | the sum of 32-bit pieces is the upper half of the 128-bit product, below the range |
| GcsModel.ReadRice | src/blockfilter.cpp:36-64 | reading a Golomb-Rice code gives its number and leaves what follows |
| GcsModel.RiceIs | src/blockfilter.cpp:36-50 | the code bit by bit: quotient in ones, a zero, remainder from its highest bit |
| GcsModel.SkipAllCodes | src/blockfilter.cpp:130-141 | the codes of a list are exactly as many as its elements |
| GcsValues.ReadDifferences | src/blockfilter.cpp:163-187 | the running sums of the codes of the differences are the values |
| GcsValues.ReachesSorted | src/blockfilter.cpp:183-203 | in a sorted list one pass finds every common number |
| GcsValues.NotReached | src/blockfilter.cpp:183-203 | out of order a number can be missed |
| BitStreams.ChunkIs | src/streams.h:607-622 | the two 64-bit shifts select the next bits of the number for the free part of the byte |
| BitStreams.PieceIs | src/streams.h:559-578 | the 8-bit shifts select the next bits of the byte |
| BitStreams.BitStreamWriter.Write | src/streams.h:607-622 | the bits written grow by exactly the lowest n bits of the number |
| BitStreams.BitStreamWriter.Flush | src/streams.h:627-635 | the last byte is padded with zeros |
| BitStreams.BitStreamReader.Read | src/streams.h:559-578 | the next n bits as a number, or a failure exactly when fewer are left |
| BitStrings.BitAt | src/streams.h:607-622 | the bits of a number from the one worth most |
| BitStrings.ByteBitAt | src/streams.h:559-578 | bytes from their highest bit |
| CompactSize.ReadWriteSize | src/serialize.h:234-289 | a size is read back exactly when it is not above MAX_SIZE |
| CompactSize.WriteSizeIs | src/serialize.h:234-257 | one, three or five bytes, the lowest first |
| CompactSize.ReadIsWritten | src/serialize.h:259-289 | whatever is read is the shortest form of a number within the limit |
| GcsFilter.GolombRiceEncode | src/blockfilter.cpp:36-50 | writes the code of the number |
| GcsFilter.GolombRiceDecode | src/blockfilter.cpp:53-64 | reads a code from any stream, or fails exactly when it is cut short |
| GcsFilter.BuildHashedSet | src/blockfilter.cpp:105-114 | sorted, one value per element, and exactly the hashes of the elements |
| GcsFilter.HashToRangeIs | src/blockfilter.cpp:97-103 | hashes are mapped to the range in proportion |
| GcsFilter.Build | src/blockfilter.cpp:143-171 | the bytes are the size and the codes of the differences of the sorted hashes |
| GcsFilter.Load | src/blockfilter.cpp:120-141 | accepts exactly bytes with a readable size, that many codes and less than a byte more |
| GcsFilter.BuiltIsAcceptable | src/blockfilter.cpp:120-171 | what was built is accepted exactly when it has at most MAX_SIZE elements |
| GcsFilter.TooManyElements | src/serialize.h:286-287 | the size bytes of one element more are refused whatever follows |
| GcsFilter.BuiltIsUsable | src/blockfilter.cpp:143-187 | a built filter of readable size holds the values it was built from |
| GcsFilter.MatchInternal | src/blockfilter.cpp:173-203 | for every filter that was built or accepted: true exactly when a query is a number of the filter that no earlier one exceeds |
| GcsFilter.MatchAny | src/blockfilter.cpp:211-215 | the same for the hashes of elements |
| GcsFilter.ReceiveMatch | src/blockfilter.cpp:120-215 | any bytes: an answer exactly for acceptable ones, by the running sums of their codes |
| GcsFilter.BuildSendMatch | src/blockfilter.cpp:120-215 | built, sent, read and queried: the same, for every set within the size limit |
| GcsFilter.NoFalseNegative | src/blockfilter.cpp:205-215 | a member among the queries is always found |
| BloomModel.MarkRotates | src/bloom.cpp:172-187 | beginning a generation erases exactly the marks with its number |
| BloomModel.MarkGrows | src/bloom.cpp:188-197 | a key writes the generation into its cells and no others |
| BloomModel.MarkedIff | src/bloom.cpp:206-218 | a cell is marked exactly when a key of the last three generations uses it |
| RollingBloom.MarkedIsSeen | src/bloom.cpp:192-213 | the cell of a hash is marked exactly when some hash of such a key has the same bit and the same pair of words |
| BloomModel.RecentIn | src/bloom.h:115-116 | the most recent keys are in the last full generations and the current one |
| RollingBloom.WipeBit | src/bloom.cpp:182-185 | the mask clears both bits of a cell exactly when they hold the generation |
| RollingBloom.WithBitIs | src/bloom.cpp:195-196 | the expression changes one bit of a word and no other |
| RollingBloom.RollingBloomFilter.constructor | src/bloom.cpp:138-163 | an empty filter; a generation is half the number of elements, rounded up |
| RollingBloom.RollingBloomFilter.Reset | src/bloom.cpp:226-234 | forgets everything under a new tweak |
| RollingBloom.RollingBloomFilter.Wipe | src/bloom.cpp:181-186 | the loop erases the cells of a generation and no others |
| RollingBloom.RollingBloomFilter.Insert | src/bloom.cpp:170-198 | every cell holds what the history says, and the history grows by the key |
| RollingBloom.RollingBloomFilter.Contains | src/bloom.cpp:206-218 | true exactly when every hash of the key has the place of some hash of some key of the last three generations, and always for each of the last nElements keys |
| PartialBlockModel.FreePositions | src/blockencodings.cpp:68-83 | for every accepted prefilled list there are as many free positions as short ids |
| PartialBlockModel.PositionsBack | src/blockencodings.cpp:68-74 | skips taken between rising positions give the positions back |
| PartialBlockModel.PlacedThere | src/blockencodings.cpp:82 | every prefilled transaction is at its position |
| PartialBlockModel.PositionsFitIff | src/blockencodings.cpp:90-95 | 16-bit positions lose nothing exactly for at most 65536 transactions |
| PartialBlockModel.PositionsWrap | src/blockencodings.cpp:90-95 | with 65537 short ids the last position wraps to the first |
| PartialBlockModel.IdMapSize | src/blockencodings.cpp:109-112 | the size test detects exactly repeated short ids |
| PartialBlockModel.IdMapAt | src/blockencodings.cpp:92-95 | the i-th short id leads to the i-th free position |
| PartialBlockModel.FillRebuilds | src/blockencodings.cpp:196-204 | correct slots and the missing transactions in order make up the block |
| PartialBlockModel.FillNeeds | src/blockencodings.cpp:196-211 | filling works with exactly as many transactions as there are free positions |
| PartialBlock.PartiallyDownloadedBlock.PlacePrefilled | src/blockencodings.cpp:68-83 | accepts exactly well-formed lists and never leaves the slots |
| PartialBlock.PartiallyDownloadedBlock.MapIds | src/blockencodings.cpp:90-108 | builds that map; the inner loop never leaves the slots |
| PartialBlock.PartiallyDownloadedBlock.Offer | src/blockencodings.cpp:118-173 | a position holds nothing or a transaction with its short id, prefilled ones stay, and a free position had nothing offered for it or two that clash |
| PartialBlock.PartiallyDownloadedBlock.InitData | src/blockencodings.cpp:58-178 | the status for every message, and for an accepted one what every slot holds; a free slot had nothing offered for it or two that clash |
| PartialBlock.PartiallyDownloadedBlock.FillBlock | src/blockencodings.cpp:186-232 | the block of the model, or a refusal exactly when too few or too many transactions are sent |
| PartialBlock.HonestIsFaithful | src/blockencodings.cpp:28-38 | with unambiguous short ids the slots of an honest message hold nothing but the block |
| PartialBlock.SendCompact | src/blockencodings.cpp:28-232 | an honest compact block is rebuilt exactly, and is only refused for repeated short ids or a crowded bucket |
| Chain.InvertsLowestOne | src/chain.cpp:215 | clears the lowest set bit |
| Chain.SkipGoesBack | src/chain.cpp:218-226 | the skip height is below the height and not negative |
| Chain.SkipFromEven | src/chain.cpp:218-226 | an even height skips to itself without its lowest set bit |
| Chain.SkipFromOdd | src/chain.cpp:218-226 | an odd one to one more than the even one below it without its two lowest |
| Chain.BlockIndex.GetAncestor | src/chain.cpp:228-255 | equals the plain walk over parents, and is null exactly when that does not reach the height |
| Chain.BlockIndex.BuildSkip | src/chain.cpp:262-266 | the pointer leads to the ancestor at the skip height, and all pointers stay right |
| Chain.LastCommonAncestor | src/chain.cpp:283-303 | the assertion holds exactly for trees that start at one height; the result is then the highest common block |
| Chain.RootsApart | src/chain.cpp:283-303 | two roots of different height: the assertion fails |
| Chain.RefillIsRebuild | src/chain.cpp:359-375 | setting a tip equals a rebuild exactly when nothing is left over below the tree |
| Chain.LeftOverSlot | src/chain.cpp:359-375 | a tip of a tree that starts higher leaves the old slot |
| Chain.TipByTip | src/chain.cpp:18-29 | within one tree it always does |
| Chain.PartialChain.ContainsAncestors | src/chain.h:698-700 | the chain of a tip contains its ancestors from the offset up, no more |
| Chain.PartialChain.SetTip | src/chain.cpp:359-375 | the walk that stops early leaves the vector that writing every slot would leave |
| Chain.PartialChain.FindFork | src/chain.cpp:87-96 | the highest block of the chain on the way to the root, or none |
| Words.LeftIsTimes | src/arith_uint256.cpp:22-36 | word and bit shifting multiplies modulo the size |
| Words.RightIsHigh | src/arith_uint256.cpp:39-53 | it divides |
| WordShifts.LeftOn | src/arith_uint256.cpp:29-34 | one step of the loop, whose or adds because the bits are disjoint |
| WordShifts.RightOn | src/arith_uint256.cpp:46-51 | the same to the right |
| ArithUint.BaseUint.Not | src/arith_uint256.h:69-75 | the complement |
| ArithUint.BaseUint.Increment | src/arith_uint256.h:173-180 | plus one modulo the size |
| ArithUint.BaseUint.Negate | src/arith_uint256.h:77-84 | the negative modulo the size |
| ArithUint.BaseUint.AddWith | src/arith_uint256.h:135-145 | the sum modulo the size, also of an object with itself |
| ArithUint.BaseUint.SubWith | src/arith_uint256.h:147-151 | the difference modulo the size |
| ArithUint.MulAdd | src/arith_uint256.cpp:75 | a product of words and two more fit 64 bits |
| ArithUint.BaseUint.MulWord | src/arith_uint256.cpp:56-65 | the product by a word modulo the size |
| ArithUint.BaseUint.MulWith | src/arith_uint256.cpp:68-81 | the product modulo the size, and zero for an object times itself |
| ArithUint.SquareOfOne | src/arith_uint256.cpp:68-81 | one times itself in place is zero |
| ArithUint.BaseUint.ShiftLeft | src/arith_uint256.cpp:22-36 | the product by a power of two modulo the size |
| ArithUint.BaseUint.ShiftRight | src/arith_uint256.cpp:39-53 | the integer quotient by the power of two |
| ArithUint.BaseUint.CompareTo | src/arith_uint256.cpp:110-119 | the sign of the difference |
| ArithUint.BaseUint.Bits | src/arith_uint256.cpp:172-184 | one more than the highest bit that is set |
| ArithUint.BaseUint.DivWith | src/arith_uint256.cpp:84-107 | the integer quotient for every divisor but zero, which is refused |
| ArithUint.BaseUint.DivideBits | src/arith_uint256.cpp:96-104 | the loop leaves quotient and remainder |
| CompactModel.OverflowIff | src/arith_uint256.cpp:204-222 | the overflow flag is set exactly when mantissa times 256^(size-3) does not fit 256 bits; otherwise the value is that number |
| CompactModel.RoundTrip | src/arith_uint256.cpp:204-245 | a number written and read back keeps its sign, never overflows, and is what its mantissa keeps of it |
| CompactModel.Precision | src/arith_uint256.cpp:224-245 | that is not above the number, and the loss is less than one part in 2^15 |
| CompactModel.Canonical | src/arith_uint256.cpp:224-245 | it has the same compact form as the number |
| CompactModel.MantissaByBytes | src/arith_uint256.cpp:226-240 | the two branches and the sign correction give the byte count with sign bit and the top 23 bits |
| Compact.SetCompact | src/arith_uint256.cpp:204-222 | value and both flags of the model |
| Compact.GetCompact | src/arith_uint256.cpp:224-245 | the compact form of the model; the asserts hold |
| Compact.TargetBelow | src/chain.cpp:268-281 | a target that fits leaves room for one more, so the divisor never wraps to zero |
| Compact.ProofFromComplement | src/chain.cpp:276-280 | the quotient of the complement plus one is the quotient of two to the 256th |
| Compact.GetBlockProof | src/chain.cpp:268-281 | the integer quotient of 2^256 by the target plus one, and zero for a negative, overflowing or zero target |
| Radix.EncodeRoom | src/base58.cpp:88 | 138/100 of the bytes plus one base 58 digits always suffice |
| Radix.DecodeRoom | src/base58.cpp:41 | 733/1000 of the characters plus one bytes always suffice |
| Radix.DigitsUnique | src/base58.cpp:106-108 | digits without a leading zero are the digits of their number |
| Base58Model.CharIs | src/base58.cpp:26 | the alphabet |
| Base58Model.SpaceIs | src/base58.cpp:31 | the characters skipped around a text |
| Base58Model.EncodeByte | src/base58.cpp:78-116 | the higher digit comes first, and a zero byte is a one |
| Base58Model.DecodeEncode | src/base58.cpp:28-116 | decoding what was encoded gives the bytes back, for every byte sequence |
| Base58Model.DecodesIff | src/base58.cpp:28-76 | a string decodes exactly when it is a base 58 text between spaces |
| Base58Model.EncodeDecode | src/base58.cpp:28-116 | encoding what was decoded gives the text without the spaces around it |
| Base58.Append | src/base58.cpp:50-58 | one digit more in the buffer; the carry at the end is zero |
| Base58.Convert | src/base58.cpp:87-108 | the buffer ends with exactly the digits of the number |
| Base58.EncodeBase58 | src/base58.cpp:78-116 | the text of the model |
| Base58.DecodeBase58 | src/base58.cpp:28-76 | the bytes of the model, or a refusal exactly when the model refuses |

## Left out

- Coins: memory accounting, `hashBlock`, `SetBackend`, `SetSiblingView`, access helpers and the debug check of the index; the database is a map with a position index and cannot fail.
- CoinsCache.CoinsViewCache.FetchCoin: a position must be settled, which it always is while outpoints keep their positions: the view whose index has it must have the entry, as the source asserts, and no view above may hold that entry without the key. Where a moved outpoint breaks the latter the source keeps the entry it has and may change its flags, which is not modelled. The same holds for GetCoin, HaveCoin and SpendCoin; nothing like it is needed by hash.
- Address manager: `GetChance` and `Select_` (floating point and random walks), locking, how the key is drawn; a time of last success is positive when `Good` is called, as its callers pass the current time.
- AddrPeers.Unserialize: reads files of the current version and bucket count only, and takes the framing of the byte stream as given; files with another bucket count, whose entries are placed anew, are not modelled, and the conditions that `Delete` asserts are part of the pruning test.
- Check queue: `fQuit` is part of the state but nothing in the source sets it; the control object and thread creation are left out, and a check is an arbitrary pure test.
- Cuckoo cache: memory sizing from bytes and the floating-point logarithm behind the depth limit, which is a parameter of at least one; the atomic order of the flags.
- Merkle trees: transactions and block headers; the network framing around bits and hashes.
- Filters: `BasicFilterElements`, ranged filters and header chains; SipHash is an arbitrary function to 64 bits, and the coding parameter is below 64 as the shift demands.
- Rolling Bloom filter: the floating-point sizing; the number of words is a positive even parameter.
- PartialBlock.PartiallyDownloadedBlock.InitData: says nothing about blocks of more than 65536 transactions, where 16-bit positions wrap (see `PositionsFitIff`); the bucket-size test is an arbitrary outcome, the limit on transactions a parameter, and `extra_count`, which is only logged, is left out.
- PartialBlock.PartiallyDownloadedBlock.FillBlock: `CheckBlock` is an arbitrary outcome for the filled block.
- Chain: locators, median times, clone chains and validity flags; a null root of the chain vector is kept as null.
- Arithmetic: decrement, xor and bitwise operators on whole numbers, hexadecimal text and conversion to floating point.
- Base 58: checksummed addresses; a string is the characters before the terminating zero, and the white space is that of the C locale.
- Everything else of the node: networking, wallet, scripts, validation, storage and the user interface.
