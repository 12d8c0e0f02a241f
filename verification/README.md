# Verified models of the 2x2Coin node

Dafny 4.11 models of the parts of the node whose correctness does not show from reading one function,
with proofs over all inputs, all runs or all reachable states. `dafny verify dfyconfig.toml` checks
everything. Each component has a specification on values, the in-place code as classes, arrays and
loops proved equal to it, and theorems about the specification.

| component | files |
|---|---|
| address manager | AddrManState, AddrManProofs, AddrManRuns, AddrManRecords, AddrMan, AddrManSerial, AddrManStreams |
| shared | Basics, Powers |
| block assembler | Mempool, PackageTable, Miner |
| coins cache stack and coin records | Coins, CoinsCache, CoinsView, CoinsCodec, Compressor, AmountWords |
| script check queue | CheckQueue |
| 256-bit arithmetic, compact targets, retarget | Limbs, Arith, ArithShift, ArithDivide, Compact, Retarget |
| block index and active chain | ChainIndex, SkipWalk |
| partial Merkle trees | MerkleTree, MerkleProofs, MerkleBlock, BitPack |
| rolling Bloom filter | RollingBloom |
| Base58 and cashaddr text | Radix, Base58, Base58Codec, CashAddrCode, CashAddrField, Field20, CashAddrErrors, CashAddr |
| message framing | NetMessage |

## How things are modelled

- Hash functions are parameters. Only the pair hash of Merkle trees is assumed injective, and only where a lemma says so.
- Clocks and randomness are parameters; the order in which a hash table or a priority queue hands out elements is arbitrary.
- The check queue is a state machine whose steps are the regions between two releases of the mutex. Thread 0 is the master.
- The address tables are two-dimensional arrays whose abstraction is a map from slots to ids. A stream of the address manager is a sequence of numbers and records, not bytes.
- The mempool is a finite graph whose cached ancestor totals are right. Fees, finality and priorities are arbitrary.
- The stack of coin caches is one object with a database and a list of caches. A cursor over an unordered map becomes a loop that takes any remaining element.
- Integers are unbounded; wrap-around is written out where the code relies on it or is exposed to it (limbs, 32-bit multiplier of the retarget, 64-bit amounts, 32-bit times of addresses).
- Bytes are small numbers. Bitwise operations are bit-vector operations in the Bloom filter and the cashaddr checksum, and arithmetic elsewhere. The field of 2^20 elements behind that checksum is words of 20 bits.

## Where the code and its documentation differ

- src/merkleblock.h:47 promises at most 2N - 1 flag bits for N hashes and src/merkleblock.h:34 a size of at most 10 + ceil(32.25 N). Nodes with an only child break both. `DocumentedBitsIff` and `DocumentedSizeIff` give the exact conditions, `DocumentedSizeFails` a block, `SizeBound` a bound that holds.
- src/chainparams.cpp:140 configures a cashaddr prefix with digits, which Decode refuses (src/cashaddr.cpp:265): `MainPrefixFails`, and `RoundTripIff` for the exact condition.
- src/pow.cpp:74 multiplies by a 64-bit number, but the operator that is chosen takes 32 bits: `ExactIff` says when nothing is lost, `EveryStepExact` that along a chain with sane constants nothing is.
- src/pow.cpp:33 uses the last block before it is compared with NULL at line 36: `GetNextTargetRequired` has a result if and only if there is one.
- Long multiplication of a number by itself in place leaves zero (src/arith_uint256.cpp:70-71): `Mul` states both cases.
- src/checkqueue.h:184-191 asserts that the queue is idle; `AssertIff` says exactly which calls make that certain, `AssertCanFail` gives a run where it fails.
- src/miner.h:125 takes the plain fee off a row, where src/miner.cpp:336 took the modified one off when it made the row: `FeesRightIff` says exactly when the row's fee is right, `OrderShows` gives a pool where it is not.
- src/coins.h:201-267 stores a version and a height as numbers that are not negative, although both are signed, as src/main.cpp:2366-2372 remarks for the version: `RoundTrip` of CoinsCodec says exactly what comes back, `NegativeVersion` gives a record.
- src/compressor.cpp:142-185 is written for amounts of money; `RoundTripIff` of AmountWords says for which 64-bit words it is one to one.
- src/cashaddr.cpp:323 drops eight values without a test that there are eight: `UndefinedIff` says exactly for which texts there are not.
- src/coins.cpp:99-122 hands out what is left of a spent record: `ModifyIsPlainIff` says exactly when that shows, `SpentRecordShows` that it can.
- src/chain.cpp:72-74 reports at most 110 steps for 2^18 blocks from simulation; `WalkIsShort` proves at most b * b for heights of b bits.
- src/coins.h:58-77 documents a record with code 9; the code counts mask bytes from bit 4 on (src/coins.h:208), since bit 3 marks a coinstake, and writes 17: `StoredSparseOutputs`.
- src/coins.h:465-474 restricts ModifyNewCoins; `ModifyNewAgreesIff` shows the restriction is exactly right.

## Model

| member | source | states |
|---|---|---|
| AddrManRuns.CheckAlwaysPasses | src/addrman.cpp:387-462 | In every run of Add_, Good_, Attempt_, Connected_, SetServices_ and GetAddr_ from a fresh manager, with positive times, every test of Check_ passes after the run |
| AddrManRuns.ConsistentPassesCheck | src/addrman.cpp:387-462 | The invariant kept (maps inverse, positions right, counters exact, reference count equal to the number of slots held and within 1..8, every entry at its hashed slot) implies every test of Check_ |
| AddrManRuns.ApplyKeeps | src/addrman.cpp:197-315 | Every single operation keeps the invariant |
| AddrManRuns.FreshIsConsistent | src/addrman.h:453-478 | A new manager satisfies the invariant |
| AddrManProofs.DeleteKeeps | src/addrman.cpp:120-132 | Deleting an entry out of the tables keeps tables and counters right for all others |
| AddrManProofs.ClearNewKeeps | src/addrman.cpp:134-147 | Clearing a new slot removes exactly that slot, and the entry with its last reference, and keeps everything right |
| AddrManProofs.MakeRoomKeeps | src/addrman.cpp:149-190 | Leaving the new table and sending back the occupant of the tried slot leaves the slot free and everything else right, so the assertions of MakeTried hold |
| AddrManProofs.MakeTriedKeeps | src/addrman.cpp:149-195 | Moving an entry to the tried table keeps index, tables and counters right |
| AddrManProofs.GoodKeeps | src/addrman.cpp:197-247 | Good_ keeps the invariant, and its search for a bucket always finds one |
| AddrManProofs.AddKeeps | src/addrman.cpp:249-315 | Add_ keeps the invariant for every address, source, penalty, time and random draw |
| AddrManProofs.AnnotateKeeps | src/addrman.cpp:317-337 | Attempt_, Connected_ and SetServices_ keep the invariant |
| AddrManRuns.MakeTriedEffect | src/addrman.cpp:149-195 | The entry gets the tried slot its address selects and no new slot; the displaced one gets the one new slot its source selects; nothing else changes but the occupant of that slot |
| AddrManRuns.GoodEffect | src/addrman.cpp:197-247 | After Good_ on a known service the entry is tried with the success recorded, and only the displaced entries differ |
| AddrManRuns.AddUnknownEffect | src/addrman.cpp:249-315 | An unknown address ends with one reference in the slot its source selects, or nowhere when the occupant stays; only an occupant that gives way is affected |
| AddrManRuns.AddKnownEffect | src/addrman.cpp:249-315 | A known address is refreshed, and gains exactly the one slot, under exactly the condition that it wants it, does not hold it and the occupant is terrible or absent |
| AddrManRuns.GetAddrResult | src/addrman.cpp:464-483 | GetAddr_ returns distinct, non-terrible addresses, as many as there are up to 23 percent of the table and 2500, and changes nothing but the random order |
| AddrManRecords.AnnotateEffect | src/addrman.cpp:317-337 | Attempt_ always sets the time of the last try, and adds exactly one to the attempts, with its time, if it counts and the manager had a success since the last that did; Connected_ sets only a time more than 20 minutes older, SetServices_ only the services; every other entry is untouched, and an unknown service changes nothing |
| AddrManRecords.HistoryKept | src/addrman.cpp:149-337 | In every run, the tries, attempts and successes of an address still known at the end are those a counter of its own calls gives, whatever moved in the tables meanwhile |
| AddrManRecords.TriesCount | src/addrman.cpp:317-337 | k counted tries, each after a newer success elsewhere, add exactly k attempts |
| AddrManRecords.FailuresMakeTerrible | src/addrman.cpp:33-51 | Ten of them make an address without a success in the last week terrible a minute after the last |
| AddrManRecords.TerribleIff | src/addrman.cpp:33-51 | When an address is terrible, by the numbers |
| AddrManRecords.RefreshMovesForward | src/addrman.cpp:258-268 | Add_ on a known address adds services and never turns its time back; the time moves by more than an hour, a day for one not heard of today, or not at all |
| AddrManRecords.WantsAnotherIff | src/addrman.cpp:270-287 | One more bucket for newer information only, with chance 1 in 2^k for an entry in k buckets and never for a tried one or one in eight |
| AddrManRecords.GetAddrLimitIs | src/addrman.cpp:466-468 | The largest number that is at most 2500 and at most 23 in a hundred |
| AddrManRecords.GetAddrGives | src/addrman.cpp:464-483 | What is given away are the service, services and time of known entries that are not terrible |
| AddrManRecords.GroupShareOfTried | src/addrman.h:112-137 | In every consistent state the addresses of one group hold at most 512 slots in at most 8 of the 256 tried buckets |
| AddrManRecords.GroupShareOfNew | src/addrman.h:112-137 | All that sources of one group announce goes to at most 64 of the 1024 new buckets |
| AddrMan.Manager.FindId | src/addrman.cpp:75-86 | Looks an address up exactly as the specification does |
| AddrMan.Manager.CreateEntry | src/addrman.cpp:88-98 | In-place creation equals the specification |
| AddrMan.Manager.Swap | src/addrman.cpp:100-118 | In-place swap of two random positions equals the specification |
| AddrMan.Manager.DeleteEntry | src/addrman.cpp:120-132 | In-place deletion equals the specification |
| AddrMan.Manager.ClearSlot | src/addrman.cpp:134-147 | In-place clearing of a slot equals the specification |
| AddrMan.Manager.WithdrawEntry | src/addrman.cpp:151-161 | The loop over all buckets removes every new slot of the entry |
| AddrMan.Manager.DisplaceEntry | src/addrman.cpp:167-189 | The occupant of the tried slot moves to its new slot, as specified |
| AddrMan.Manager.MakeEntryTried | src/addrman.cpp:149-195 | The whole of MakeTried on the two arrays equals the specification |
| AddrMan.Manager.FindBucket | src/addrman.cpp:226-236 | The search from a random bucket finds a bucket that holds the entry |
| AddrMan.Manager.MarkGood | src/addrman.cpp:197-247 | Good_ in place equals the specification and keeps the invariant |
| AddrMan.Manager.PlaceEntry | src/addrman.cpp:293-313 | Placing an entry in its new slot equals the specification |
| AddrMan.Manager.Refresh | src/addrman.cpp:258-313 | Refreshing a known address equals the specification |
| AddrMan.Manager.AddAddress | src/addrman.cpp:249-315 | Add_ in place equals the specification and keeps the invariant |
| AddrMan.Manager.Jot | src/addrman.cpp:485-521 | Attempt_, Connected_ and SetServices_ in place equal the specification, of which AnnotateEffect says what it changes |
| AddrMan.Manager.GetAddr | src/addrman.cpp:464-483 | The shuffling loop in place equals the specification |
| AddrManSerial.RoundTrip | src/addrman.h:293-446 | Writing a consistent manager and reading it into a fresh one loses no entry and gives a consistent manager equal to the old one up to renaming of ids |
| AddrManStreams.AnyStreamConsistent | src/addrman.h:342-446 | Whatever the buckets of a stream say, and however its entries collide, what is read from a stream with a key, no negative count and records such as Check_ accepts is consistent, so that Check_ passes; only version 1 with a key of 32 bytes and 1024 buckets is read |
| AddrManStreams.IndexRead | src/addrman.h:416-432 | Any bucket index keeps the tables right while reading: no slot is taken from its holder and no entry gets a ninth |
| AddrManStreams.TriedRead | src/addrman.h:396-414 | A tried record whose slot is taken is lost and counted as lost, any other is entered |
| AddrManStreams.Pruned | src/addrman.h:434-443 | Pruning leaves exactly the entries that have a place, with the counters right |
| AddrManSerial.StreamIs | src/addrman.h:293-340 | The stream token by token: version, key length, key, counts, 1024 buckets with bit 30 turned over, then the new and the tried records in order of id |
| AddrManSerial.CountersFit | src/addrman.h:363-369 | The counters of a consistent manager pass the limits Unserialize checks |
| AddrManSerial.OrderIsListing | src/addrman.h:306-325 | The order in which entries are written lists every id exactly once, new ones first |
| AddrManSerial.Write | src/addrman.h:293-340 | The writing loops produce the specified stream; the counters asserted on are never exceeded |
| AddrManSerial.ReadNewEntries | src/addrman.h:371-389 | The first reading loop enters the records as specified |
| AddrManSerial.ReadTriedEntries | src/addrman.h:391-410 | The second reading loop enters the tried records as specified |
| AddrManSerial.FillBuckets | src/addrman.h:412-428 | Reading back the buckets that were written fills the new table as it was |
| Miner.BlockAssembler.SelectTransactions | src/miner.cpp:129-205 | For every pool, configuration and choice on the way: no repeats, every transaction after all its in-pool parents, size, sigops, fees and count exact, limits kept; the list is a priority part, of which PriorityPhase says what is in it and why it ended, followed by final transactions each in a package that paid the relay fee; at the end everything is in the block or cannot be added with what it depends on, or a candidate paid too little; and with no priority part and nothing that pays, the block is empty |
| Miner.BlockAssembler.constructor | src/miner.cpp:104-111 | The configured size, cut to an unsigned word, is limited to 1000..999000, so a negative one becomes 999000 |
| Miner.BlockAssembler.AddPackageTxs | src/miner.cpp:384-492 | The package loop terminates, keeps the block closed, ordered and within limits, under the default size once it has added anything; everything it adds is final and in the package of some transaction of the block whose totals, without ancestors already in the block, pay the relay fee; and it leaves nothing addable behind unless it ends at a candidate whose own totals, as the table or the pool states them, pay too little |
| Miner.BlockAssembler.AddPriorityTxs | src/miner.cpp:494-569 | The priority loop terminates, keeps the block closed, ordered and within limits; all it adds is final and not too new, all but the last free and within the share; it stops only at a full block, a share used up or a transaction that is not free, and otherwise every transaction is in the block or has a reason not to be |
| Miner.ExcusedMeans | src/miner.cpp:494-569 | The reasons, each by the numbers: too new for a staked block, a parent missing, too large, too many signature operations, not final |
| Miner.FreeIsUnpaid | src/miner.cpp:384-492 | In a pool of parentless transactions that do not pay the relay fee nothing is ever paid for |
| Mempool.TotalsOfOne | src/miner.cpp:297-308 | The totals of a block of one transaction are its size, signature operations and fees |
| Miner.BlockAssembler.TryPriority | src/miner.cpp:525-548 | One turn keeps the record of who was tried and who waits |
| Miner.BlockAssembler.WakeChildren | src/miner.cpp:556-566 | Exactly the waiting children of the added transaction return to the queue |
| Miner.BlockAssembler.AddPackage | src/miner.cpp:479-490 | A package is added whole, in order, and the table stays right for the new block |
| Miner.BlockAssembler.AddToBlock | src/miner.cpp:297-320 | One transaction is appended and accounted for |
| Miner.BlockAssembler.IsStillDependent | src/miner.cpp:207-216 | True exactly when some in-pool parent is not in the block |
| Miner.BlockAssembler.OnlyUnconfirmed | src/miner.cpp:218-229 | Leaves exactly the transactions that are not in the block |
| Miner.BlockAssembler.TestPackageTransactions | src/miner.cpp:244-256 | True exactly when all are final and the running size stays under the limit |
| Miner.FinalAndFits | src/miner.cpp:244-256 | The loop, in any order, decides exactly that |
| Miner.BlockAssembler.TestForBlock | src/miner.cpp:258-295 | True exactly when the transaction fits and is final, with the finished flag and the count of last tries set exactly as the thresholds say |
| Miner.SortForBlock | src/miner.cpp:363-372 | The package as a list without repeats in order of ancestor count |
| Miner.SortedIsInOrder | src/miner.cpp:363-372 | Sorted that way, everything a transaction still needs precedes it |
| Miner.UnfitStays | src/miner.cpp:384-492 | A package that did not fit never fits later: what the package loses the block gains |
| PackageTable.UpdatePackagesForAdded | src/miner.cpp:322-346 | The two nested loops subtract from every descendant exactly the size and sigops of its added ancestors, and the modified fee of the first subtracted from a new row and the plain fee of every other |
| PackageTable.UpdateKeepsTable | src/miner.cpp:322-346 | Every row holds the exact size, sigops and fees of the package without some ancestors in the block, without all of them for what never failed, where the fees keep the deltas of all ancestors subtracted after the first; no row is for a transaction in the block |
| PackageTable.RowBase | src/miner.cpp:322-346 | With or without a row, the totals the assembler uses are of that kind |
| PackageTable.ToldCovers | src/miner.cpp:322-346 | Such totals never under-estimate what is left of a package and are exact for what never failed |
| PackageTable.FailedKeepsTable | src/miner.cpp:451-460 | Dropping the row of a failed transaction keeps the table right |
| PackageTable.Subtract | src/miner.h:119-131 | One subtraction from a row: the first starts from the cached totals and takes off the modified fee, a later one the plain fee |
| PackageTable.OrderedFees | src/miner.h:119-131 | After subtracting ancestors in any order the fees are those of what is left plus the deltas of all but the first |
| PackageTable.FeesRightIff | src/miner.h:119-131 | The fees are those of what is left in every order of subtraction if and only if one ancestor was subtracted or none of them has a delta |
| PackageTable.OrderShows | src/miner.h:119-131 | A pool in which one order leaves five too much and the other does not |
| Mempool.AncestorCounts | src/miner.h:90-101 | An ancestor has a smaller ancestor count, which is why sorting by it orders a package |
| Mempool.ParentsSuffice | src/miner.cpp:207-216 | Once all parents are in the block all ancestors are |
| CoinsCache.RunAgrees | src/coins.cpp:72-227 | At any depth and for any run whose callers keep their promise (a record new to a view that is not a coinbase's is absent from the base, a change of what has nothing unspent treats a spent record as an empty one, the lowest cache stays), every view of the stack equals a plain map updated directly and the flags stay right |
| CoinsCache.StartAgrees | src/coins.cpp:61-66 | A run starts from one empty cache over a database of clean records |
| CoinsCache.FetchKeeps | src/coins.cpp:72-88 | Fetching changes no answer at any level and keeps clean entries equal to the base and FRESH entries absent from it |
| CoinsCache.HaveIffUnspent | src/coins.cpp:144-151 | HaveCoins, which looks at the length of the output list, is true exactly of transactions with an unspent output |
| CoinsCache.ModifyAgrees | src/coins.cpp:99-122 | A modification changes the view as it changes the record handed out |
| CoinsCache.ModifyIsPlainIff | src/coins.cpp:99-122 | It is the plain map operation if and only if the map has the record or the change leaves of the record handed out what it leaves of an empty one |
| CoinsCache.ModifyIsPlain | src/coins.cpp:99-122 | It is the plain map operation for every unspent record, and for others when the change does to a cleaned spent record what it does to an empty one |
| CoinsCache.SpentRecordShows | src/coins.cpp:99-122 | A state reached by one operation and a change for which it is not |
| CoinsCache.ModifyNewAgreesIff | src/coins.h:465-474 | ModifyNewCoins agrees with the plain map if and only if it is for a coinbase or the base has nothing unspent under the id |
| CoinsCache.UncacheAgrees | src/coins.cpp:220-227 | Uncache changes no view |
| CoinsCache.UncacheEffect | src/coins.cpp:220-227 | It takes an entry without flags out of the topmost cache, keeps one with a flag, and touches nothing else |
| CoinsCache.FetchEffect | src/coins.cpp:72-88 | Fetching leaves what it found in the cache, clean and FRESH exactly if nothing is unspent, and changes no entry that was there |
| CoinsCache.FlushEffect | src/coins.cpp:213-218 | Flush leaves the topmost cache empty and changes only the level below it |
| CoinsCache.ModifyEffect | src/coins.cpp:99-122 | A modifier leaves its entry dirty and cleaned up, or gone, and the other entries of its cache alone |
| CoinsCache.FlushAgrees | src/coins.cpp:213-218 | Flush moves the topmost view unchanged to its base and no other view changes |
| CoinsCache.PushAgrees | src/coins.cpp:61 | A new cache on top shows the same view |
| CoinsCache.PopAgrees | src/coins.cpp:63-66 | Dropping a cache leaves the views below |
| CoinsView.MergeOne | src/coins.cpp:168-211 | One entry of the child is merged as its flags require |
| CoinsView.MergeInto | src/coins.cpp:168-211 | The loop of BatchWrite, in any order, gives the specified cache |
| CoinsView.CacheStack.FetchCoins | src/coins.cpp:72-88 | The recursive fetch in place equals the specification at every level |
| CoinsView.CacheStack.HaveCoins | src/coins.cpp:144-151 | In place equal to the specification |
| CoinsView.CacheStack.ModifyCoins | src/coins.cpp:99-122 | ModifyCoins, the change and the modifier destructor in place equal the specification |
| CoinsView.CacheStack.ModifyNewCoins | src/coins.cpp:124-133 | ModifyNewCoins and the modifier destructor in place equal the specification |
| CoinsView.CacheStack.EndModify | src/coins.cpp:285-302 | The modifier destructor cleans the record and drops it when it is FRESH and pruned |
| CoinsView.CacheStack.UncacheCoins | src/coins.cpp:220-227 | In place equal to the specification |
| CoinsView.CacheStack.FlushCache | src/coins.cpp:213-218 | In place equal to the specification |
| Coins.Cleanup | src/coins.h:126-131 | Every unspent output stays in its place, only spent ones at the end go, no other field changes, and the result ends in an unspent output or is empty |
| Coins.TrimLoop | src/coins.h:126-131 | The popping loop gives the cleaned record |
| Coins.Spend | src/coins.cpp:35-42 | Exactly the given output becomes spent, or the call fails and changes nothing |
| Coins.CleanPruned | src/coins.h:279-284 | A clean record is pruned exactly when it has no outputs |
| CheckQueue.RunFacts | src/checkqueue.h:69-168 | In every interleaving of any number of threads: nTodo counts queued and in-flight checks, every Wait has returned exactly the conjunction of the checks since the one before, a sleeping master with nothing left has been notified, and queued checks never leave all sleepers unnotified |
| CheckQueue.StepKeeps | src/checkqueue.h:69-168 | Every step of every thread keeps the invariant |
| CheckQueue.WaitProgresses | src/checkqueue.h:69-144 | A master inside Wait is notified or some thread is at work |
| CheckQueue.WorkDecreases | src/checkqueue.h:69-131 | Every step that does work brings the end nearer and none but Add moves it away |
| CheckQueue.WorkEnds | src/checkqueue.h:69-144 | In a stretch of any run without Add at most as many steps work as there was work, and when that many have, a master in Wait has been notified |
| CheckQueue.TakesShare | src/checkqueue.h:69-144 | A batch is the end of the queue, last check first, as many as an equal share among all workers and once more the idle ones, at most the batch size and at least one |
| CheckQueue.IdleIff | src/checkqueue.h:164-168 | The queue is idle exactly when nothing is left and everything added so far was good |
| CheckQueue.AddedIsPending | src/checkqueue.h:177-214 | In every run, outside Wait, the checks the queue knows of are exactly those added since the last Wait was entered |
| CheckQueue.AssertHolds | src/checkqueue.h:184-191 | In every run with no controller and nothing added since the last Wait the queue is idle and the next controller may be constructed |
| CheckQueue.AssertIff | src/checkqueue.h:177-214 | The assertion of the next controller holds in every schedule of the same calls if and only if these calls added nothing after the last Wait |
| CheckQueue.AddedLate | src/checkqueue.h:177-214 | After any run past its Wait, adding anything and destroying the controller leaves the queue busy, so the next construction fails |
| CheckQueue.AssertCanFail | src/checkqueue.h:184-214 | For example one check added after Wait |
| Arith.Add | src/arith_uint256.h:135-145 | Limb addition with carry is addition modulo 2^(32*width), also of a number to itself |
| Arith.Complement | src/arith_uint256.h:69-75 | Inverting the limbs gives 2^(32*width) - 1 - v |
| Arith.Increment | src/arith_uint256.h:173-180 | The carry loop adds one, wrapping |
| Arith.Negate | src/arith_uint256.h:77-84 | Complement and increment give the negative modulo 2^(32*width) |
| Arith.Sub | src/arith_uint256.h:147-151 | Adding the negation subtracts |
| Arith.MulLimb | src/arith_uint256.cpp:55-65 | Multiplication by one limb modulo 2^(32*width); the accumulator stays below 2^64 |
| Arith.MulRow | src/arith_uint256.cpp:72-79 | One row of the long multiplication, with what falls off the top accounted for |
| Arith.Mul | src/arith_uint256.cpp:67-81 | Long multiplication modulo 2^(32*width) when the operand is another object, and zero when it is the same |
| ArithShift.ShiftLeft | src/arith_uint256.cpp:21-36 | Shifting left multiplies by 2^shift modulo 2^(32*width), for every shift |
| ArithShift.ShiftRight | src/arith_uint256.cpp:38-53 | Shifting right is the floor of division by 2^shift, for every shift |
| ArithShift.CompareTo | src/arith_uint256.cpp:109-119 | The sign of the difference of the values |
| ArithShift.Bits | src/arith_uint256.cpp:171-184 | The position of the highest set bit plus one, or zero for zero |
| ArithDivide.Divide | src/arith_uint256.cpp:83-107 | The shift-and-subtract loop gives floor(a / b) for every nonzero b and fails exactly on zero |
| ArithDivide.DivideTurn | src/arith_uint256.cpp:97-104 | One turn keeps a == num + q * 2^(shift+1) * b with num below b * 2^(shift+1) |
| ArithDivide.SetBit | src/arith_uint256.cpp:100 | Setting a quotient bit adds its power of two |
| Compact.OverflowIff | src/arith_uint256.cpp:217-219 | The overflow test is exact: true if and only if mantissa * 256^(size-3) has more than 256 bits |
| Compact.SetCompact | src/arith_uint256.cpp:204-222 | Decoding gives the denoted number modulo 2^256 with sign and overflow reported exactly |
| Compact.GetCompact | src/arith_uint256.cpp:224-245 | Encoding never trips its assertions and gives the canonical word |
| Compact.DecodeEncode | src/arith_uint256.cpp:204-245 | Decoding an encoding clears the low bytes: never larger, zero only for zero, off by at most one part in 2^15 |
| Compact.EncodeDecode | src/arith_uint256.cpp:204-245 | Encoding a decoded word gives it back if and only if it is canonical |
| Compact.DecodedTable | src/test/arith_uint256_tests.cpp:421-531 | What the tests decode |
| Compact.EncodedTable | src/test/arith_uint256_tests.cpp:417-531 | What the tests encode |
| Retarget.GetBlockProof | src/chain.cpp:122-135 | floor(2^256 / (target + 1)) for every valid target and zero for the others; the division never fails |
| Retarget.CheckProofOfWork | src/pow.cpp:83-100 | True exactly when the denoted target is unsigned and in 1..limit and the hash does not exceed it |
| Retarget.CalculateNextTargetRequired | src/pow.cpp:50-81 | The in-place computation equals the specified retarget, 32-bit multiplier and 256-bit wrap included; MultiplierByTimes and LimitByTime say what goes into it |
| Retarget.GetNextTargetRequired | src/pow.cpp:31-48 | The required word for the next block of a kind, first and second block included; without a last block there is no defined result |
| Retarget.ExactIff | src/pow.cpp:74 | The product is exact if and only if the multiplier fits 32 bits and the product 256 |
| Retarget.NegativeSpacing | src/pow.cpp:60-75 | A block dated back before the limits are in force gives the multiplier -2, which scales no target exactly |
| Retarget.LimitsSteady | src/pow.cpp:60-67 | The counted spacing is in 0..10S if and only if each of the two protocol limits is in force or not needed |
| Retarget.MultiplierByTimes | src/pow.cpp:60-75 | The factor in terms of the two block times: (I-1)S + 2d over (I+1)S for a gap of d, one for a negative gap once that is fixed, (I+19)/(I+1) for more than 10S once that is limited |
| Retarget.LimitByTime | src/pow.cpp:15-29 | The limit by kind and, for staked blocks, by protocol version |
| Retarget.RetargetExact | src/pow.cpp:50-81 | With a counted spacing in 0..10S and sane constants the new target is exactly floor(old*((I-1)S+2A)/((I+1)S)), or the limit, and encodes to a word that decodes into (0, limit] without sign |
| Retarget.StepBounded | src/pow.cpp:69-75 | One such retarget moves the target by at most (I+19)/(I+1) up and (I-1)/(I+1) down |
| Retarget.TargetsInRange | src/pow.cpp:31-81 | Along every chain that follows the rule with counted spacings in 0..10S every target decodes without sign or overflow into (0, ceiling] |
| Retarget.EveryStepExact | src/pow.cpp:31-81 | Along every such chain every retarget is exact: the word of each block is that of the exact new target after the two blocks of its kind before it |
| Retarget.EveryStepTimed | src/pow.cpp:31-81 | The same in block times alone: the target times (I-1)S + 2d over (I+1)S, rounded down, or the limit for zero or above it |
| Retarget.MainIsSane | src/chainparams.cpp:74-93 | The main network constants satisfy the condition |
| Retarget.MainStep | src/pow.cpp:50-81 | On the main network after its last change: the target times 3480 + 2d over 3720, with d the gap in seconds, 120 for a negative one and at most 1200 |
| Retarget.MainIsSteady | src/pow.cpp:60-67 | After that change no block times make a step of the main network unsteady |
| ChainIndex.LowestOneCleared | src/chain.cpp:64-65 | n & (n - 1) clears exactly the lowest one bit |
| ChainIndex.GetSkipHeight | src/chain.cpp:67-76 | The skip height is strictly lower |
| ChainIndex.GetAncestor | src/chain.cpp:78-102 | The skip-list walk finds exactly the block the pprev walk finds, NULL outside the range, never lacks a predecessor, and takes the specified number of turns where every block has its skip pointer |
| SkipWalk.WalkIsShort | src/chain.cpp:78-102 | Between heights of b bits that number is at most b * b |
| SkipWalk.SkipOdd | src/chain.cpp:67-76 | The skip pointer of an odd height clears the two lowest one bits above the last |
| ChainIndex.BuildSkip | src/chain.cpp:109-113 | Sets the skip pointer to the ancestor at the skip height and keeps the whole index right |
| ChainIndex.AddToIndex | src/main.cpp:3399-3421 | A block tree grown block by block keeps every skip pointer right and set |
| ChainIndex.ActiveChain.SetTip | src/chain.cpp:13-23 | Afterwards the chain is exactly the new tip's ancestors, though the loop stops at the fork |
| ChainIndex.ActiveChain.FindFork | src/chain.cpp:53-62 | The highest block common to the chain and the given block's history; everything below it is common, nothing above |
| ChainIndex.ActiveChain.GetLocator | src/chain.cpp:25-51 | Starts at the block, steps back by the doubling rule through ancestors and ends at the first block |
| ChainIndex.LocatorIsShort | src/chain.cpp:25-51 | A locator has at most twelve entries more than the height has bits |
| ChainIndex.GetLastBlockIndex | src/chain.cpp:115-120 | The loop finds the most recent block of the kind, or the first block |
| ChainIndex.NoneSince | src/chain.cpp:115-120 | No later block is of the kind |
| MerkleTree.InLevel | src/merkleblock.h:66-68 | A position is within the computed width exactly when it covers a leaf |
| MerkleTree.RoundTrip | src/merkleblock.cpp:80-134 | Extracting what was built for a node gives its hash and its matched leaves in order, consumes exactly its data, and flags exactly a pair of equal siblings |
| MerkleTree.MatchedIff | src/merkleblock.cpp:80-96 | The reference list has exactly the matched leaves, in increasing order |
| MerkleBlock.ExtractsBuilt | src/merkleblock.cpp:136-183 | Built, padded to whole bytes and extracted: true root, matched ids and positions, if and only if the block is not too large and no visited siblings are equal |
| MerkleBlock.ExtractsSound | src/merkleblock.cpp:98-183 | For arbitrary data with the true transaction count: if the true root comes out, every reported id is the block's id at the reported position |
| MerkleBlock.ExtractsStored | src/merkleblock.h:87-105 | Built, packed into bytes, unpacked and extracted: true root, matched ids and positions, under the same condition |
| MerkleProofs.Sound | src/merkleblock.cpp:98-134 | The same for every node, given an injective pair hash |
| MerkleProofs.IdsDistinct | src/merkleblock.cpp:123-127 | Different transaction ids never trip the sibling check |
| MerkleProofs.HashesPerLeaf | src/merkleblock.h:39 | At most one stored hash for every transaction |
| MerkleProofs.HashesPerMatch | src/merkleblock.h:40 | At most one more stored hash than matches times height |
| MerkleProofs.BitCount | src/merkleblock.h:47 | Flag bits are 2N - 1 plus one for every visited node with an only child |
| MerkleProofs.SinglesAtMost | src/merkleblock.h:47 | There are at most as many of those as levels, all on the right edge |
| MerkleProofs.DocumentedBitsIff | src/merkleblock.h:47 | The documented bound of 2N - 1 holds if and only if there is none |
| MerkleProofs.SizeBound | src/merkleblock.h:31-48 | A size bound that does hold for every accepted tree |
| MerkleProofs.DocumentedSizeIff | src/merkleblock.h:34 | The documented size limit holds if and only if the packed bits need a one-byte count or the visited nodes with an only child are few enough for the last byte |
| MerkleProofs.DocumentedSizeFails | src/merkleblock.h:34 | A block of 4097 matched transactions exceeds the documented size by one byte |
| MerkleBlock.ParentOfMatch | src/merkleblock.cpp:81-84 | The loop decides whether a node covers a matched leaf |
| MerkleBlock.TreeHeight | src/merkleblock.cpp:141-144 | The loop finds the first level of at most one node |
| MerkleBlock.PartialMerkleTree.TraverseAndBuild | src/merkleblock.cpp:80-96 | Appends exactly the specified bits and hashes |
| MerkleBlock.PartialMerkleTree.constructor | src/merkleblock.cpp:136-148 | Builds the tree of the right height |
| MerkleBlock.PartialMerkleTree.TraverseAndExtract | src/merkleblock.cpp:98-134 | Consumes, finds and flags exactly as specified, for arbitrary data |
| MerkleBlock.PartialMerkleTree.ExtractMatches | src/merkleblock.cpp:152-183 | The root and matches when every check passes, zero otherwise |
| BitPack.Pack | src/merkleblock.h:100-102 | Packs eight bits a byte, least significant first |
| BitPack.Unpack | src/merkleblock.h:93-97 | Reads bit p from byte p / 8 |
| BitPack.UnpackPacked | src/merkleblock.h:87-105 | Unpacking the packed bits gives them back, padded with clear bits to whole bytes |
| RollingBloom.Filter.Insert | src/bloom.cpp:251-279 | After an insert every cell holds exactly the generation of the last surviving insert that touched it |
| RollingBloom.Filter.Turn | src/bloom.cpp:253-268 | Starting a generation drops exactly the cells of the generation three back |
| RollingBloom.Filter.Wipe | src/bloom.cpp:259-267 | The word-wise mask clears exactly the cells with the reused number |
| RollingBloom.Filter.Mark | src/bloom.cpp:271-278 | Every cell of the key gets the current generation, no other changes |
| RollingBloom.Filter.Contains | src/bloom.cpp:287-299 | True exactly when every hash of the key points to the same bit of the same pair of words as some hash of one of the last 2*perGeneration + thisGeneration inserts; so always for those inserts, hence for the last nElements, and false for a key with a hash that differs from all of theirs |
| RollingBloom.SameCell | src/bloom.cpp:271-278 | Two hashes share a cell exactly when they agree on the bit and on the pair of words |
| RollingBloom.EveryCellReached | src/bloom.cpp:271-278 | Every cell is the place of some hash |
| RollingBloom.Survives | src/bloom.h:113-114 | The inserts of the generations kept are exactly the last 2*perGeneration + thisGeneration |
| RollingBloom.LastInsertsKept | src/bloom.h:113-114 | Each of the last 2*perGeneration + thisGeneration inserts still has all its cells touched by a surviving insert |
| RollingBloom.Wiped | src/bloom.cpp:264-266 | The bit-vector fact behind the wipe |
| RollingBloom.Filter.Reset | src/bloom.cpp:307-315 | Empties the filter and changes the tweak |
| RollingBloom.Filter.constructor | src/bloom.cpp:219-244 | Generations of (nElements + 1) / 2, starting empty |
| Base58.DecodeEncode | src/base58.cpp:22-106 | Every byte string comes back from its text |
| Base58.EncodeDecode | src/base58.cpp:22-106 | A text that decodes is, but for surrounding spaces, the text of what it decodes to |
| Base58.AlphabetIs | src/base58.cpp:20 | The alphabet is the alphanumeric characters without 0, I, O and l, in increasing order |
| Base58.SpacesAre | src/base58.cpp:24-30 | The characters skipped around a text: space, tab, line feed, vertical tab, form feed and carriage return |
| Base58.EncodeRoom | src/base58.cpp:78 | 256^n < 58^(n*138/100+1) for every n: the encoding buffer is large enough |
| Base58.DecodeRoom | src/base58.cpp:34 | 58^n < 256^(n*733/1000+1) for every n: the decoding buffer is large enough |
| Radix.MulAdd | src/base58.cpp:41-49 | The in-place carry loop multiplies and adds, early stop included, and leaves no carry |
| Base58Codec.ToBase58 | src/base58.cpp:77-99 | The encoding loops compute the base 58 digits of the value |
| Base58Codec.EncodeBase58 | src/base58.cpp:68-106 | Encoding equals the specified text |
| Base58Codec.FromBase58 | src/base58.cpp:33-50 | The decoding loop reads up to a space or the end, or fails at a character outside the alphabet |
| Base58Codec.DecodeBase58 | src/base58.cpp:22-66 | Decoding succeeds exactly on texts with a meaning and gives it |
| Base58Codec.CheckRoundTrip | src/base58.cpp:118-142 | With checksum every byte string comes back |
| Base58Codec.CheckAccepts | src/base58.cpp:127-142 | Only the text of a correctly checksummed byte string is accepted |
| CashAddrCode.PolyModLoop | src/cashaddr.cpp:40-145 | The loop, with the value put in before the folding, computes the step recursion |
| CashAddrField.IsRemainder | src/cashaddr.cpp:40-145 | That value is the remainder over GF(32): one, followed by the values, is a multiple of g(x) plus it, coefficient by coefficient |
| CashAddrField.CoefficientNext | src/cashaddr.cpp:79-141 | One step multiplies by x and adds the value modulo g(x) |
| CashAddrField.Constants | src/cashaddr.cpp:104-141 | The five constants are k(x) times 1, a, a^2, a^3 and a^4 |
| CashAddrCode.NextLinear | src/cashaddr.cpp:101-141 | The step is linear over xor |
| CashAddrCode.Append | src/cashaddr.cpp:192-207 | Up to eight appended values enter the remainder unchanged |
| CashAddrCode.ChecksumIff | src/cashaddr.cpp:174-207 | Eight values verify if and only if they are the checksum |
| CashAddrCode.ShortIff | src/cashaddr.cpp:174-190 | Up to eight values verify after a prefix if and only if what the prefix leaves for them fits that many and they are it |
| CashAddrCode.CreateChecksum | src/cashaddr.cpp:192-207 | The loops compute the specified checksum |
| CashAddrCode.BurstDetected | src/cashaddr.cpp:57 | Any change confined to eight consecutive values is detected |
| CashAddrErrors.FourDetected | src/cashaddr.cpp:52-54 | Any one to four changed values within a window of 1025, wherever they are, change the remainder |
| CashAddrErrors.FewTerms | src/cashaddr.cpp:52-54 | No polynomial over GF(32) with one to four terms within 1025 places is a multiple of the generator |
| CashAddrErrors.FourSolved | src/cashaddr.cpp:52-54 | Four terms that vanish at two progressions of three powers of an element of order 1025 are all zero |
| CashAddrErrors.Roots | src/cashaddr.cpp:50-54 | The generator has six such roots in the field of 2^20 elements |
| CashAddrErrors.EvRemainder | src/cashaddr.cpp:63-74 | At a root a polynomial has the value of its remainder |
| Field20.OnlyZeroFixed | src/cashaddr.cpp:52-54 | No smaller power of that element fixes anything but zero |
| Field20.Cycle | src/cashaddr.cpp:52-54 | Its 1025th power is one |
| Field20.ScaledMul | src/cashaddr.cpp:58-66 | GF(32) acts on that field as its multiplication says |
| CashAddr.RoundTripIff | src/cashaddr.cpp:216-324 | Decoding gives back what was encoded if and only if the prefix is a nonempty word of lower-case letters |
| CashAddr.DigitInPrefix | src/cashaddr.cpp:254-268 | With a digit in the prefix every encoded address is refused |
| CashAddr.MainPrefixFails | src/chainparams.cpp:140 | This is so for the configured main network prefix |
| CashAddr.EncodeDecode | src/cashaddr.cpp:216-324 | What decodes is, but for case and an omitted prefix, the encoding of what it decodes to |
| CashAddr.CharsetIs | src/cashaddr.cpp:15 | The characters are those of the one literal set, each at its value and with that value |
| CashAddr.CharsetOnly | src/cashaddr.cpp:20-24 | A lower-case character outside the set has no value |
| CashAddr.VectorDecodes | src/test/cashaddr_tests.cpp:46-62 | The first test vector decodes to its prefix and no data |
| CashAddr.UndefinedIff | src/cashaddr.cpp:303-323 | Decoding has no defined result if and only if the text is well shaped with fewer than eight values and these are what the prefix leaves for that many; with eight or more it always has one |
| CashAddr.EmptyPayload | src/cashaddr.cpp:303-323 | There is such a text: a prefix and a separator alone |
| CashAddr.Encode | src/cashaddr.cpp:216-229 | The loop gives the specified text |
| CashAddr.Scan | src/cashaddr.cpp:236-282 | The sanity checks accept exactly the well-shaped texts and find the prefix |
| CashAddr.Decode | src/cashaddr.cpp:234-324 | Decoding equals the specified meaning: refused, accepted with prefix and values, or without a defined result |
| CoinsCodec.RoundTrip | src/coins.h:201-267 | For every record with an unspent output, given an invertible output codec, reading stops right after the record and gives it back without its trailing spent outputs if and only if neither version nor height is negative; every other field comes back in any case |
| CoinsCodec.StoredSecondOutput | src/coins.h:42-55 | The first documented record has the documented bytes, followed by the four of its time |
| CoinsCodec.StoredSparseOutputs | src/coins.h:58-77 | The second has them too, but for the code, which is 17 |
| CoinsCodec.ReadsStored | src/coins.h:201-267 | What comes back in general: version and height in their stored form |
| CoinsCodec.NegativeVersion | src/coins.h:201-267 | A record of version -1 comes back with version 127 |
| CoinsCodec.VersionPutBack | src/main.cpp:2366-2372 | Putting back a negative version from the block makes the stored record equal to that of the block |
| CoinsCodec.SizeIs | src/coins.h:176-199 | The size computed in advance is the number of bytes written |
| CoinsCodec.AnyUnspentIff | src/coins.h:207 | The assertion before writing holds exactly for records that are not pruned |
| CoinsCodec.ReadMaskBack | src/coins.h:244-255 | A mask that ends in a nonzero byte is read back whole and no further |
| CoinsCodec.FlagsTell | src/coins.h:239-255 | Header flags and mask together tell every unspent output |
| CoinsCodec.CalcMaskSize | src/coins.cpp:17-33 | The loops compute the length of the mask and its number of nonzero bytes |
| CoinsCodec.WriteMask | src/coins.h:213-220 | The loops write the specified mask |
| CoinsCodec.ReadMaskLoop | src/coins.h:245-255 | The loop reads the mask as specified |
| Compressor.AmountRoundTrip | src/compressor.cpp:142-185 | Compression and decompression of amounts undo each other, for every number |
| Compressor.AmountTable | src/test/compress_tests.cpp:42-47 | The amounts and codes the tests list |
| Compressor.CompressAmount | src/compressor.cpp:142-159 | The loop computes the compressed amount modulo 2^64 |
| Compressor.DecompressAmount | src/compressor.cpp:161-185 | The loop computes the amount modulo 2^64 |
| Compressor.RoundTrip64 | src/compressor.cpp:142-185 | In 64 bits the round trip holds wherever the code fits a word |
| AmountWords.RoundTripIff | src/compressor.cpp:142-185 | In 64 bits an amount n comes back if and only if it has a factor of ten or 9n + n mod 10 - 9 fits a word |
| AmountWords.FitsIff | src/compressor.cpp:142-159 | That is exactly when the code fits |
| AmountWords.DecodeWrapped | src/compressor.cpp:161-185 | What a code that lost k words decodes to: the amount less one of two constants, with the exponent k decides |
| Compressor.SafeAmounts | src/compressor.cpp:142-185 | The code fits, and the round trip holds, for every amount up to a ninth of the range |
| AmountWords.LargestWordFails | src/compressor.cpp:142-185 | For example it fails for the largest 64-bit amount |
| Compressor.VarIntRoundTrip | src/serialize.h:343-372 | Reading a written number gives it back and stops right after it |
| Compressor.VarIntTable | src/serialize.h:322-327 | The documented numbers have the documented bytes |
| Compressor.SignedRoundTrip | src/serialize.h:343-372 | A signed number is read as its stored form, which is the number if and only if it is not negative |
| Compressor.WordRoundTrip | src/serialize.h:343-372 | A number written from a word is read back into one |
| Compressor.OneToOne | src/serialize.h:343-372 | Every terminated byte string is the one encoding of the number it reads as |
| Compressor.WriteVarInt | src/serialize.h:343-358 | The buffer loops write the specified bytes, for a negative number its low seven bits, and never overrun the buffer |
| Compressor.ReadVarIntLoop | src/serialize.h:360-372 | The loop, in an unsigned word of any size, reads what the bytes say modulo that size |
| NetMessage.Receiver.ReceiveMsgBytes | src/net.cpp:727-772 | A stretch of bytes, however it arrives cut, does to the messages what its bytes do one by one, with the same outcome (SentIsReceived says what that is for messages sent); when it is refused the complete messages are those of the longest part accepted |
| NetMessage.FedAllSplit | src/net.cpp:727-772 | Hence the result does not depend on the cutting |
| NetMessage.AcceptedSplit | src/net.cpp:727-772 | Cut in two, a stream is refused at the same byte |
| NetMessage.NothingLost | src/net.cpp:727-819 | The messages hold exactly the bytes that arrived, in order |
| NetMessage.CutApart | src/net.cpp:727-819 | Messages laid end to end are cut apart again where they were |
| NetMessage.SizeRead | src/protocol.h:47-61 | The size of a header is the number in its bytes 16 to 19, low byte first, for every 32-bit number |
| NetMessage.SentIsReceived | src/net.cpp:727-819 | Any messages of at most 2 MiB sent one after another arrive as exactly those messages, each complete with its header and data |
| NetMessage.TooLongIsRefused | src/net.cpp:748-751 | A header that declares more is refused with its last byte and not before |
| NetMessage.Absorb | src/net.cpp:738-754 | Each turn of the loop consumes at least one byte or refuses a header that declares too much |
| NetMessage.ReadHeader | src/net.cpp:774-803 | Copies exactly what fits of the header, and refuses exactly a complete one that declares more than MAX_SIZE |
| NetMessage.ReadData | src/net.cpp:805-819 | Copies what belongs to the message and never allocates more than 256 KiB ahead or beyond the declared size |
| NetMessage.CompleteBuffer | src/net.h:243-248 | A complete message has a buffer of exactly the declared length |

## Left out

- Sockets, threads of the operating system, HTTP and RPC, databases and files, logging, the wallet: plumbing.
- Select_ and GetChance of the address manager, sizing of Bloom filters, priorities and scores: floating point; choices they make are arbitrary here.
- Clear on a used address manager, and reading a stream of another version, other bucket counts or with two entries of one address.
- The bucket-reading loop and the pruning loop of the address manager's Unserialize are functions only, not loops.
- CompareModifiedEntry and the ancestor-score index: the walk over the pool is in any order, and whether the table or the pool has the better candidate is an arbitrary choice.
- Miner.BlockAssembler.SelectTransactions: does not model coinbase construction and block validation.
- CoinsView.CacheStack.ModifyCoins: does not model memory usage accounting and the best block hash; all caches are fields of one object, so aliasing between cache objects is not modelled.
- Script compression and the format of one output: an invertible codec is a parameter of the record codec.
- Retarget.TargetsInRange: speaks of chains whose counted spacings are in 0..10S; where a protocol limit is not in force the block times must provide that, as `LimitsSteady` says.
- MerkleBlock.PartialMerkleTree.constructor: does not model 32-bit wrap-around of positions, which needs more than 2^30 transactions, and takes at least one transaction, as reading past an empty list has no meaning in the source.
- Construction of a Merkle block from a Bloom filter, and CBloomFilter itself: only easy members.
- RollingBloom.Filter.constructor: takes the number of words and hash functions as parameters, because the source computes them in floating point, and takes at least one element: for zero the source makes a filter of no words, on which every later call divides by zero.
- Base58Codec.DecodeBase58: takes the text of a C string, without embedded NUL characters.
- CashAddrErrors.FourDetected: states four changes within 1025 values; that five within 160 and six within 126 are detected too was found by search (src/cashaddr.cpp:54-56).
- Packing of addresses into cashaddr values (src/cashaddrenc.cpp): only easy members.
- ChainIndex.ActiveChain.GetLocator: lists blocks instead of their hashes.
- NetMessage.Receiver.ReceiveMsgBytes: does not model counting of bytes per command, receive times and notification of the handler thread.
- Subtracting and comparing with 64-bit words, hexadecimal and floating point conversion of 256-bit numbers, proof equivalent time: only easy members.
- Compact blocks: commented out of the protocol.
- Proof-of-stake kernels, script evaluation and consensus checks of main.cpp: separate subjects.
