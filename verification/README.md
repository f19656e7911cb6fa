# Verified models of DeVault's core data structures

DeVault is a full node: it keeps a table of peer addresses, a layered cache of unspent coins, a tree of
block headers and a pool of transactions, and it exchanges addresses, proofs and filters with peers. This
project models the parts of the node where a small mistake is costly and proves what they promise.

- **Address manager** (`AddrTypes`, `AddrMan`, `AddrCheck`, `AddrRun`, `AddrSerial`, `AddrStream`,
  `AddrRestore`, `AddrLoad`, `AddrSpread`): the new and tried tables as in-place arrays with their indexes.
  Its own consistency check returns 0 between calls in every run; settling collisions never evicts a
  tried entry that connected within four hours; storing and loading loses no address, and for every other
  stream it is stated exactly when loading passes the check; one network group can hold only its share of
  the tried table.
- **Coins** (`Coins`, `CoinsRun`): caches stacked to any depth over a database refine a stack of plain
  maps; value is conserved and stays whole spocks.
- **Check queue** (`CheckQueue`): the thread pool of script checks as a state machine over its critical
  sections, with any number of workers, any interleaving and spurious wake-ups. Safety, absence of
  deadlock, no check lost or duplicated, workers awake for the queued checks, and a bound on every wait
  under every schedule.
- **Partial Merkle trees** (`Bits`, `Merkle`, `MerkleRoundTrip`): soundness of any received proof and the
  round trip of any built one, with the 32-bit width arithmetic of the original.
- **CashAddr** (`Words`, `CashAddr`, `CashAddrField`, `CashAddrCodec`, `CashAddrFaults`) and **Base58**
  (`Radix`, `Base58`): checksums as remainders over GF(32), round trips in both directions, exact
  conditions, detected typing errors, and fixed buffers that always suffice.
- **256-bit arithmetic** (`Limbs`, `Uint256`, `Arith256`) and **block chain index** (`Skips`, `Chain`): limb
  arithmetic against numbers, long division, the compact format, proof of work; skip pointers and how many
  steps they take, the active chain, forks and locators.
- **Block assembly** (`MinerTrace`, `Miner`): the backlog scheduler over the dependency graph of the
  mempool, with a record of its rounds that says what is considered when and when it stops, and a
  maximality result for what is left out.
- **Rolling bloom filter** (`Bloom`): which keys it must and which cells it may remember, exactly.

Code that changes state is modelled by classes, arrays and loops; each method's contract ties the new state
to functions of the old one, and lemmas about those functions carry the main results. Hash functions,
clocks and random choices are parameters or arbitrary values. Where a property holds only under a
condition, the condition is exact: `Coins.CoinsCache.AddCoin`, `MerkleRoundTrip.RootCoversAll`,
`CashAddrCodec.RoundTrip`, `Arith256.CanonicalFixed`, `AddrManager.AddrMan.SelectTriedCollision_`.

Four properties are false of the code. The first three have an input and an exact condition, the last a
family of inputs and a bound for all.

- Decoding a CashAddr string builds the payload from a range that ends eight symbols before the end,
  without testing that there are eight (`src/cashaddr.cpp:293`). The test of the prefix comes after the
  call (`src/cashaddrenc.cpp:104-106`). For `anutbtuna:` the checksum verifies with no symbols at all
  (`CashAddrFaults.StrayIsTooShort`); `CashAddrFaults.TooShortIff` says for which strings this happens and
  `CashAddrFaults.EightAreEnough` what a caller can test.
- Loading an accepted peers stream need not pass the manager's check: of two records with one address only
  the last is in the index, and pruning either of them removes the address (`src/addrman.h:486-572`).
  `AddrStream.RepeatedIsUnclean` gives the streams and `AddrStream.LoadedIff` the exact condition.
- Looking at a pending collision may create an entry under the invalid id (`src/addrman.cpp:717-719`):
  exactly when the pending entry's tried slot is empty (`AddrManager.AddrMan.SelectTriedCollision_`). Only
  clearing or loading a manager in use leads there, since both keep the pending collisions
  (`src/addrman.h:581-603`); runs without them never do (`AddrRun.Run`). `AddrRun.StrayEntry` is such a
  sequence of calls.
- Walking back along skip pointers is not logarithmic in the height, as `src/chain.cpp:45` has it, but
  quadratic in the logarithm: `Skips.Exactly` counts the steps of one family of walks,
  `Skips.NotLogarithmic` concludes that no linear bound holds, and `Skips.AtMost` bounds all walks.

The code differs from its own description in one place, and the model follows the code: the comment on
the tables says that an entry of a full bucket is chosen at random for removal, but the position that an
address takes in a bucket is determined by a hash (`src/addrman.h:147-157`, `src/addrman.cpp:45-51`).

`dafny verify dfyconfig.toml` checks the whole project.

## Model

| member | source | states |
|---|---|---|
| `AddrManager.AddrMan.SwapRandom` | src/addrman.cpp:131-149 | swapping two positions of vRandom keeps every entry's nRandomPos pointing back at it and changes nothing else |
| `AddrManager.AddrMan.Delete` | src/addrman.cpp:151-163 | deleting an unreferenced entry removes exactly its records from mapInfo, mapAddr and vRandom and leaves the random order consistent |
| `AddrManager.AddrMan.ClearNew` | src/addrman.cpp:165-177 | empties exactly one new slot; its entry loses one reference and is deleted with the last one; nNew stays equal to the number of new entries |
| `AddrManager.AddrMan.RemoveFromNew` | src/addrman.cpp:180-190 | takes an entry out of every new slot that holds it, however many, and leaves it unreferenced |
| `AddrManager.AddrMan.EvictTried` | src/addrman.cpp:196-221 | the occupant of the wanted tried slot goes back to the new slot its own source selects, displacing what is there, and the counters follow |
| `AddrManager.AddrMan.MakeTried` | src/addrman.cpp:179-227 | from a consistent manager: the entry ends in its own tried slot with no new references, the previous occupant in its new slot, and all nine consistency conditions hold again |
| `AddrManager.AddrMan.Promote` | src/addrman.cpp:261-298 | a reached entry moves to its tried slot and the occupant it displaces goes back to the new slot of its own source, or the collision is recorded and nothing moves |
| `AddrManager.AddrMan.Good_` | src/addrman.cpp:229-299 | unknown and re-ported addresses change no entry; a known one gets new success and try times and no attempts, and no other record changes; it ends in its tried slot, with the displaced occupant back in new, unless it was tried already or its collision is recorded instead; tried slots never become empty and pending collisions keep an occupied slot |
| `AddrManager.AddrMan.Create` | src/addrman.cpp:114-129 | a new id above all others is entered into mapInfo, mapAddr and the end of vRandom, with no reference yet |
| `AddrManager.AddrMan.AddToBucket` | src/addrman.cpp:358-380 | an address goes into the new slot its source selects exactly when that slot is free or its own, held by a terrible entry, or held by a multiply referenced one while this one has no reference; otherwise it is deleted if unreferenced; no record changes but for its places |
| `AddrManager.AddrMan.Add_` | src/addrman.cpp:301-382 | returns true exactly for a routable unknown address, which gets the next id and stays exactly if its new slot is free or its occupant is terrible or multiply referenced; a known entry gets the union of services, and a time that never moves back: to the announced one less the penalty, exactly if that is ahead by more than an hour for an announcement less than a day old, or else by more than a day, or if it had none; it takes a further slot exactly if the announcement is news, it has room, a draw out of 2^references is 0 and the slot may be taken; every other record stays, and no id is reused |
| `AddrManager.AddrMan.Refresh` | src/addrman.cpp:315-347 | the time, the services and the draw of a known entry, each as the announcement deserves |
| `AddrManager.AddrMan.Attempt_` | src/addrman.cpp:384-406 | changes the attempt fields of the named entry only, and counts a failure only when asked to and not counted since the last good connection |
| `AddrManager.AddrMan.Connected_` | src/addrman.cpp:582-603 | changes at most the time of the named entry, and only if it is more than twenty minutes old |
| `AddrManager.AddrMan.SetServices_` | src/addrman.cpp:605-623 | changes the services of the named entry only |
| `AddrManager.AddrMan.GetAddr_` | src/addrman.cpp:556-580 | returns at most the asked share of addresses, each non-terrible by its own reading of the clock and pairwise different, by permuting vRandom only; fewer come back only when the whole order was walked |
| `AddrManager.AddrMan.ResolveCollisions_` | src/addrman.cpp:625-691 | every tried entry that connected within four hours of the clock reading keeps its slot and its record; an id stays pending only if it is a valid entry whose slot's first occupant did not connect so recently; the manager stays consistent and no tried slot becomes empty |
| `AddrManager.AddrMan.ResolveCollision` | src/addrman.cpp:629-689 | each case with the clock readings: a missing or invalid entry and one whose slot holds an entry connected within four hours are dropped with nothing changed; one whose slot is free takes it; otherwise it takes the slot exactly when the occupant was tried within four hours but more than a minute ago, or was not tried and the test window is over, and then the occupant goes back to new; else it waits with nothing changed |
| `AddrManager.AddrMan.SelectTriedCollision_` | src/addrman.cpp:693-720 | returns the occupant of a pending entry's tried slot and changes nothing exactly when that slot is occupied; when it is empty, an empty entry under the invalid id read there is both stored and returned; a pending id without entry is dropped |
| `AddrManager.AddrMan.Clear` | src/addrman.h:581-603 | empties tables and indexes into a consistent manager; pending collisions stay |
| `AddrTypes.AddReference` | src/addrman.cpp:370-373 | one more reference from a free slot keeps every other entry's slots and counts consistent |
| `AddrTypes.DropReference` | src/addrman.cpp:165-177 | one reference less keeps every other entry's slots and counts consistent |
| `AddrTypes.EnterTried` | src/addrman.cpp:222-226 | an unreferenced entry may enter its own free tried slot without disturbing other slots |
| `AddrTypes.LeaveTried` | src/addrman.cpp:204-207 | an entry may leave the tried table for the loose state without disturbing other slots |
| `AddrTypes.TerribleIff` | src/addrman.cpp:53-80 | which entries are terrible: none tried within a minute; else those with a time more than ten minutes ahead, missing or over thirty days old, three failures and no success, or ten failures and no success for a week |
| `AddrTypes.Drawn` | src/addrman.cpp:20-51 | what the places of an address are drawn from: eight tried buckets of its network group by its own hash, 64 new buckets of its source's group by both groups, and a position by the table, the bucket and its bytes |
| `AddrTypes.KeysDiffer` | src/netaddress.cpp:936-941 | services that differ in address bytes or port are hashed differently |
| `AddrCheck.Check` | src/addrman.cpp:460-553 | the consistency check returns 0 exactly when all conditions it tests hold, for any state of the tables; every other code names a fault that is there |
| `AddrCheck.CheckEntries` | src/addrman.cpp:468-500 | the walk over entries accepts exactly when every entry's indexes, counters and flags agree, and otherwise gives the code of a fault of some entry |
| `AddrCheck.CheckTried` | src/addrman.cpp:509-524 | the walk over tried slots accepts exactly when each occupied slot holds a tried entry in its own bucket and position, none twice |
| `AddrCheck.CheckNew` | src/addrman.cpp:526-540 | the walk over new slots accepts exactly when each occupied slot holds a new entry in its own position, with references left |
| `AddrCheck.InvMeansCheckOk` | src/addrman.cpp:460-553 | the invariant that every operation keeps implies everything the check tests |
| `AddrCheck.CheckOkMeansInv` | src/addrman.cpp:460-553 | conversely, what the check tests, with the value conditions it does not look at, is the invariant |
| `AddrRun.Apply` | src/addrman.cpp:229-720 | each public operation keeps the invariant, the occupied tried slots and the collision condition, and moves the manager as Moved says: which records change and how, which tried slot is taken, which collisions are noted or dropped |
| `AddrRun.Run` | src/addrman.cpp:460-553 | over any run of any length of the public operations, the states are a chain of their moves, the check returns 0 between calls, tried slots stay occupied and pending collisions keep an occupied slot |
| `AddrRun.StrayEntry` | src/addrman.cpp:693-720 | a manager with a pending collision that is cleared and filled again, where looking at the collision stores an empty entry under an invalid id and the check then fails: runs without clearing never come there |
| `AddrSerial.Serialize` | src/addrman.h:377-435 | the stream lists new entries and then tried entries by increasing id, with counts equal to the counters, and each bucket's entries by index |
| `AddrSerial.WriteNew` | src/addrman.h:392-402 | every referenced entry is written once and indexed by its place in the stream |
| `AddrSerial.WriteTried` | src/addrman.h:403-411 | every tried entry is written once |
| `AddrSerial.WriteBuckets` | src/addrman.h:412-427 | bucket lists hold exactly the indices of the entries in each new bucket |
| `AddrSerial.NewOrderIs` | src/addrman.h:394-402 | the written order is strictly increasing and holds exactly the referenced ids |
| `AddrLoad.Unserialize` | src/addrman.h:438-579 | a stream is accepted exactly when its header and sizes are in range; every accepted stream loads to the state it stands for; if the stored buckets were made under another format, number or asmap, every new entry has the slot its own source selects or is missing because another holds it, and otherwise the same of the slot it was last listed in, with the other as second choice; the final check gives 0 exactly if every record that stays has sensible statistics and an address no other loaded record has; the manager is consistent exactly if these addresses are routable as well; a stream written from a consistent manager under the same asmap is restored without loss |
| `AddrLoad.ReadHeader` | src/addrman.h:443-484 | the header is accepted exactly if format, key size and counts are in range and the stream is long enough; the bucket count is unmasked from the second format on |
| `AddrLoad.LoadNew` | src/addrman.h:486-494 | the new records become entries 0, 1, ... without references |
| `AddrLoad.LoadTried` | src/addrman.h:496-514 | the loaded entries are the new records followed by exactly the tried records with a valid address whose slot no earlier one took; the others are counted as lost; each address leads to its last record |
| `AddrLoad.ReadBuckets` | src/addrman.h:516-529 | each new index leads to the last bucket that lists it, and indices out of range are ignored |
| `AddrLoad.PlaceNew` | src/addrman.h:541-561 | the new table is exactly the one that placing each record in turn gives: in its stored bucket if buckets can be trusted and the slot is free, else in the bucket of its source if that slot is free, else nowhere |
| `AddrLoad.Prune` | src/addrman.h:563-572 | exactly the entries without references that are not tried are deleted, and exactly their addresses leave the index |
| `AddrStream.LoadedIff` | src/addrman.h:486-578 | for every accepted stream: the check passes after loading exactly under the condition on its records, and the invariant holds exactly if the staying addresses are routable too |
| `AddrStream.LoadedPlaces` | src/addrman.h:531-561 | where each new record ends, from the fields of the stream alone, in both cases of usable and unusable buckets |
| `AddrStream.RepeatedIsUnclean` | src/addrman.h:486-494 | two leading new records of one address, whatever their ports and slots, make the check fail after loading |
| `AddrStream.TwiceTriedIsClean` | src/addrman.h:496-513 | a tried record stored twice is loaded once and the check passes |
| `AddrStream.SaneLoadsClean` | src/addrman.h:438-579 | a stream of routable addresses without repetition and with sensible statistics meets the condition, whatever its buckets say |
| `AddrRestore.WrittenIsClean` | src/addrman.h:377-579 | a stream written from a consistent manager is accepted and meets the exact condition for loading |
| `AddrRestore.Restored` | src/addrman.h:438-579 | what a stored manager looks like after loading: same records, flags and tried slots; every new entry keeps exactly one of its slots |
| `AddrSpread.RestoredAddresses` | src/addrman.h:377-435 | the sets of new and of tried addresses are the same before storing and after loading |
| `AddrSpread.SaveAndLoad` | src/addrman.h:377-579 | storing and loading into a fresh manager succeeds and loses and invents no address |
| `AddrSpread.GroupShare` | src/addrman.h:150-153 | in every consistent state one network group holds at most 8 * 64 tried entries |
| `AddrSpread.SourceShare` | src/addrman.h:150-153 | what the sources of one network group announce goes to at most 64 of the 1024 new buckets |
| `AddrSpread.GroupsChoose` | src/addrman.cpp:32-43 | the new bucket depends on address and source only through their network groups |
| `Coins.CoinsCache.FetchCoin` | src/coins.cpp:69-91 | loading into the cache changes no view at any level; found means a cached entry that is the visible coin, or a spent one |
| `Coins.CoinsCache.GetCoin` | src/coins.cpp:93-100 | finds exactly the coins visible through the cache and never returns a spent one |
| `Coins.CoinsCache.HaveCoin` | src/coins.cpp:179-182 | says exactly whether an unspent coin is visible |
| `Coins.CoinsCache.AddCoin` | src/coins.cpp:102-128 | throws exactly for a disallowed overwrite of a cached unspent coin; the cache stays truthful to the levels below exactly when overwriting was allowed for or nothing was visible |
| `Coins.CoinsCache.SpendCoin` | src/coins.cpp:151-167 | the coin disappears from the view, at no other level, whether it was cached, fresh or only below |
| `Coins.CoinsCache.Uncache` | src/coins.cpp:272-278 | drops only clean entries and changes no view |
| `Coins.CoinsCache.BatchWrite` | src/coins.cpp:200-263 | throws exactly on a misapplied fresh flag; for a child whose fresh flags are true of this view it never throws and this view becomes the child's |
| `Coins.CoinsCache.Flush` | src/coins.cpp:265-270 | never throws; the level below becomes what was visible here and the visible coins stay the same |
| `Coins.CoinsDB.GetCoin` | src/txdb.cpp:52-54 | finds exactly the stored records, which may include spent ones |
| `Coins.CoinsDB.BatchWrite` | src/txdb.cpp:76-115 | writing the dirty entries in any order applies the child to the stored view |
| `Coins.MergeStep` | src/coins.cpp:200-263 | merging one child entry keeps the flags truthful and changes the view at that outpoint only |
| `Coins.HonestCache` | src/coins.cpp:200-263 | a cache that is truthful to its base makes only true claims when it is flushed into it |
| `CoinsRun.SpockRoundsUp` | src/amount.h:161-168 | quantizing gives the least multiple of a spock that is not below the amount, keeps money in range and never gives the spent marker |
| `CoinsRun.AddCoins` | src/coins.cpp:130-149 | the view gains exactly the spendable outputs, each with its script, the height, the coinbase mark and its value rounded up to a whole spock; every other outpoint stays |
| `CoinsRun.Run` | src/coins.cpp:69-278 | for caches stacked to any depth over the database and any permitted run of adds, spends, reads, flushes, uncaches and new layers, every level shows what a plain map would and nothing throws |
| `CoinsRun.Apply` | src/coins.cpp:69-278 | one operation of such a run refines the same operation on a stack of plain maps |
| `CoinsRun.Conservation` | src/coins.cpp:130-167 | over any run the total of visible values changes only by what was added, spent or overwritten |
| `CoinsRun.RunKeepsSpocks` | src/coins.cpp:130-149 | from whole spocks in range, all visible coins stay whole spocks in range |
| `CoinsRun.RoundingGain` | src/amount.h:150-168 | quantizing gains each spendable output of a transaction less than one spock |
| `CoinsRun.RunMoves` | src/coins.cpp:102-167 | the cache's view follows any run of transactions, so conservation and whole spocks hold of the cache itself |
| `CheckQueue.StepKeepsInv` | src/checkqueue.h:67-137 | every critical section of every thread, in any interleaving and with spurious wake-ups, keeps the invariant |
| `CheckQueue.RunInv` | src/checkqueue.h:67-181 | the invariant holds in every state of every run with any number of workers |
| `CheckQueue.RunIsCorrect` | src/checkqueue.h:67-181 | in every reachable state nTodo counts exactly the queued and in-flight checks, each finished Wait returned true exactly when all checks of its round are true, and the master never sleeps with nothing left |
| `CheckQueue.HistoryGrows` | src/checkqueue.h:170-181 | the rounds and the open checks together grow by what is added, in order, and by nothing else |
| `CheckQueue.NothingLost` | src/checkqueue.h:67-181 | in every state of every run: the checks of all rounds and the open ones are those added, in order; each open check is queued, in one batch or dealt with, as often as it was added; and each finished wait dealt with exactly the checks of its round |
| `CheckQueue.StepAccounts` | src/checkqueue.h:67-137 | every critical section keeps that account: taking a batch, evaluating it, sleeping, waking and returning lose and duplicate no check |
| `CheckQueue.ReturnAccounts` | src/checkqueue.h:91-99 | when a wait returns, the checks dealt with are those of the round, as multisets |
| `CheckQueue.MayStep` | src/checkqueue.h:69-137 | in every state that meets the invariant, where a thread stands alone decides which step it may take: the share of a batch never divides by zero |
| `CheckQueue.NoDeadlock` | src/checkqueue.h:91-103 | while the master waits some thread can take a step |
| `CheckQueue.StepCloser` | src/checkqueue.h:67-137 | every step of a thread brings the wait strictly closer to its end or ends it |
| `CheckQueue.WaitEnds` | src/checkqueue.h:167 | from every reachable state with a waiting master, letting threads run ends the wait with the verdict on exactly the checks of the round |
| `CheckQueue.EveryWaitEnds` | src/checkqueue.h:67-167 | in every run, however scheduled: from a waiting master, any stretch longer than three steps for each open check, two for each thread and two for each spurious wake-up passes the end of the wait, with the verdict on exactly its round |
| `CheckQueue.WaitPays` | src/checkqueue.h:67-137 | while the master waits the round stays open, and a potential falls with every step of a thread and rises by one with a spurious wake-up |
| `CheckQueue.OwnStepRounds` | src/checkqueue.h:92-99 | a wait ends with the conjunction of the round's checks, and no other step touches rounds |
| `CheckQueue.BatchSize` | src/checkqueue.h:116-118 | the largest batch within the limit and within a thread's share of the queue, but at least one |
| `CheckQueue.WorkersFollow` | src/checkqueue.h:91-137 | in every state of every run: if some worker sleeps, at least as many workers are awake as there are checks in the queue |
| `CheckQueue.AddWakes` | src/checkqueue.h:170-181 | adding several checks leaves no worker asleep, and adding one wakes one of the sleeping |
| `Merkle.BitsToBytes` | src/merkleblock.cpp:13-19 | bit p of the flags is bit p % 8 of byte p / 8, and the padding bits are zero |
| `Merkle.BytesToBits` | src/merkleblock.cpp:21-27 | the inverse reading, eight flags for each byte |
| `Merkle.TreeHeight` | src/merkleblock.cpp:170-173 | finds the least height whose width, in 32-bit arithmetic, is at most one |
| `Merkle.WidthCovers` | src/merkleblock.h:73 | a node within the width has a transaction below it, also where the 32-bit sum wraps around, and conversely where it does not |
| `Merkle.PartialMerkleTree.NodeHash` | src/merkleblock.cpp:65-88 | the recursive hash of a node with the last one doubled |
| `Merkle.PartialMerkleTree.TraverseAndBuild` | src/merkleblock.cpp:90-112 | appends exactly the flags and hashes of the pruned depth-first walk |
| `Merkle.PartialMerkleTree.Build` | src/merkleblock.cpp:163-178 | the proof for a mask is the walk from the root at the tree's height |
| `Merkle.PartialMerkleTree.TraverseAndExtract` | src/merkleblock.cpp:114-161 | the reading walk over any bits and hashes: cursor movement, failure flags, equal-children rejection, and the matches in order |
| `Merkle.PartialMerkleTree.ExtractMatches` | src/merkleblock.cpp:182-233 | returns the root exactly when sizes fit and all bits and hashes are consumed, and the null hash otherwise |
| `Merkle.TraverseSound` | src/merkleblock.cpp:114-161 | with a collision-free combining hash, a walk that ends in a node's true hash found only true leaves at their true indices |
| `Merkle.ExtractSound` | src/merkleblock.cpp:182-233 | for every list of fewer than 2^32 transactions and every bits and hashes a peer may send: if the result is the true root, every extracted transaction is at its index |
| `Merkle.NothingToSpare` | src/merkleblock.cpp:218-230 | an accepted proof is not accepted with more hashes, nor with more flags than fill its last byte |
| `MerkleRoundTrip.BuildThenTraverse` | src/merkleblock.cpp:90-161 | reading back what was built at any node gives its hash, consumes exactly its part and finds exactly its matches |
| `MerkleRoundTrip.SiblingsDiffer` | src/merkleblock.cpp:147-154 | distinct transactions never trigger the equal-children rejection |
| `MerkleRoundTrip.StoredBounds` | src/merkleblock.cpp:194-203 | a built proof passes the size checks: no more hashes than transactions, nor than flags, nor than one plus matches times height |
| `MerkleRoundTrip.RoundTrip` | src/merkleblock.cpp:13-233 | for every mask over distinct transactions: build, pack, unpack and check returns the root and exactly the matches below it, all of them for up to 2^31 transactions |
| `MerkleRoundTrip.RootCoversAll` | src/merkleblock.h:73 | the root covers all transactions exactly when there are at most 2^31: above that the 32-bit width wraps around |
| `MerkleRoundTrip.HeightUnwrapped` | src/merkleblock.cpp:170-173 | the height is found before any width wraps around |
| `CashAddr.PolyMod` | src/cashaddr.cpp:39-144 | the loop over 40-bit states computes the checksum remainder |
| `CashAddr.StepLinear` | src/cashaddr.cpp:98-135 | one step is linear over exclusive or in state and symbol together |
| `CashAddr.FoldLinear` | src/cashaddr.cpp:39-144 | so is the remainder of whole strings of one length |
| `CashAddr.StepInjective` | src/cashaddr.cpp:98-135 | different 40-bit states stay different under the same symbol |
| `CashAddr.BurstDetected` | src/cashaddr.cpp:39-144 | two symbol strings of one length that differ only within eight neighbouring positions have different remainders unless equal, for every length |
| `CashAddrField.FoldIsRemainder` | src/cashaddr.cpp:40-72 | the state after any symbols is the remainder modulo g(x) over GF(32) of the polynomial with these coefficients and a leading one: dividing gives this quotient and remainder and no others |
| `CashAddrField.RemainderUnique` | src/cashaddr.cpp:48-50 | division by g(x) has one quotient and one remainder |
| `CashAddrCodec.CreateChecksum` | src/cashaddr.cpp:180-193 | the eight groups of the remainder over prefix, payload and eight zeros |
| `CashAddrCodec.ChecksumVerifies` | src/cashaddr.cpp:180-193 | appending the created checksum makes the remainder vanish |
| `CashAddrCodec.ChecksumUnique` | src/cashaddr.cpp:173-175 | eight symbols verify after a string exactly when they are its created checksum |
| `CashAddrCodec.Charset` | src/cashaddr.cpp:16 | the 32 characters in the order of their symbols |
| `CashAddrCodec.Encode` | src/cashaddr.cpp:202-213 | prefix, separator and the characters of payload and checksum |
| `CashAddrCodec.Scan` | src/cashaddr.cpp:221-260 | accepts exactly unmixed-case strings of letters and digits with at most one separator, not first and after no digit, and finds it |
| `CashAddrCodec.Decode` | src/cashaddr.cpp:218-294 | rejects exactly the ill-formed, mixed-case, out-of-alphabet and wrong-checksum strings; otherwise gives prefix and payload, except for the undefined case that CashAddrFaults.TooShortIff describes |
| `CashAddrCodec.RoundTrip` | src/cashaddr.cpp:202-294 | decoding an encoding gives back prefix and payload exactly when the prefix is a non-empty lower-case word and the payload values fit five bits |
| `CashAddrCodec.RoundTripUpper` | src/cashaddr.cpp:202-294 | the whole encoding in upper case decodes to the same prefix and payload |
| `CashAddrCodec.RoundTripDefault` | src/cashaddr.cpp:202-294 | the part after the separator decodes to the same under the default prefix, whatever that is |
| `CashAddrCodec.Canonical` | src/cashaddr.cpp:202-294 | every accepted string is, up to case and the written-out default prefix, the encoding of what it decodes to |
| `CashAddrFaults.TooShortIff` | src/cashaddr.cpp:287-293 | the payload range ends before it begins, which is undefined in the source, exactly for well-formed strings with fewer than eight symbols after the separator where the end of the prefix stands in for the rest of the checksum |
| `CashAddrFaults.EightAreEnough` | src/cashaddr.cpp:218-294 | no separator among the last eight characters is enough for a definite answer |
| `CashAddrFaults.StrayIsTooShort` | src/cashaddr.cpp:287-293 | the string anutbtuna: is such an input under every default prefix |
| `CashAddrFaults.TypoDetected` | src/cashaddr.cpp:218-294 | two accepted strings of one length, both with or both without a separator, that differ only within eight neighbouring characters are the same up to case, also across the separator |
| `Base58.MulAdd` | src/base58.cpp:66-74 | the carry loop replaces the buffer's value by value * m + c, uses no more places than needed and never ends with a carry |
| `Base58.AlphabetIs` | src/base58.cpp:20-21 | the alphabet is increasing and has exactly the letters and digits without 0, I, O and l |
| `Base58.SpaceIs` | src/util/strencodings.h:103-106 | the six white-space characters |
| `Base58.EncodeCapacity` | src/base58.cpp:104-107 | 138/100 of the bytes plus one place always suffice |
| `Base58.DecodeCapacity` | src/base58.cpp:52-55 | 733/1000 of the characters plus one byte always suffice |
| `Base58.EncodeBase58` | src/base58.cpp:96-137 | the string has as many leading ones as the bytes have leading zeros, and the same value |
| `Base58.DecodeBody` | src/base58.cpp:56-77 | reads digits into the buffer exactly as long as they are in the alphabet and the result is not too long |
| `Base58.DecodeBase58` | src/base58.cpp:39-94 | succeeds exactly when the string is white space around alphabet characters whose bytes are within the limit, and gives those bytes |
| `Base58.DecodeEncode` | src/base58.cpp:39-148 | decoding an encoding gives the bytes back for every limit that admits them and fails for every other |
| `Base58.EncodeDecode` | src/base58.cpp:39-148 | encoding what decodes gives the string back without its surrounding white space |
| `Base58.DecodesOnce` | src/base58.cpp:39-94 | a string and a limit have one result |
| `Base58.EncodeBase58Check` | src/base58.cpp:150-156 | encodes the bytes followed by four bytes of their hash |
| `Base58.DecodeBase58Check` | src/base58.cpp:158-174 | succeeds with v exactly when the string decodes to v and the hash bytes of v |
| `Base58.CheckRoundTrip` | src/base58.cpp:150-181 | a checked string decodes to its payload and nothing else, exactly within the limit |
| `Radix.Unique` | src/base58.cpp:39-137 | a number of leading zeros and a value leave one digit string in a base |
| `Uint256.BaseUint.AddAssign` | src/arith_uint256.h:136-144 | sum modulo 2^(32 * width), for any width and also when both operands are one object |
| `Uint256.BaseUint.Complement` | src/arith_uint256.h:72-78 | all bits flipped: the modulus minus one minus the value |
| `Uint256.BaseUint.Negate` | src/arith_uint256.h:80-87 | the negative modulo 2^(32 * width) |
| `Uint256.BaseUint.Increment` | src/arith_uint256.h:169-176 | one more, wrapping around at the end |
| `Uint256.BaseUint.SubAssign` | src/arith_uint256.h:146-149 | difference modulo 2^(32 * width) |
| `Uint256.BaseUint.ShiftLeft` | src/arith_uint256.cpp:24-41 | value * 2^shift modulo 2^(32 * width), for any shift |
| `Uint256.BaseUint.ShiftRight` | src/arith_uint256.cpp:43-60 | floor of value / 2^shift, for any shift |
| `Uint256.BaseUint.MulAssign` | src/arith_uint256.cpp:73-86 | product modulo 2^(32 * width); no 64-bit intermediate overflows |
| `Uint256.MulRow` | src/arith_uint256.cpp:77-83 | one row: adds d * b moved up j limbs, modulo 2^(32 * width) |
| `Uint256.BaseUint.CompareTo` | src/arith_uint256.cpp:122-133 | negative, zero or positive as the values compare |
| `Uint256.BaseUint.BitLength` | src/arith_uint256.cpp:177-189 | one more than the position of the highest set bit, zero for zero |
| `Uint256.BaseUint.Assign` | src/arith_uint256.h:91-98 | a 64-bit value in two limbs |
| `Arith256.DivAssign` | src/arith_uint256.cpp:88-120 | the exact floor quotient for every non-zero divisor; a zero divisor is refused, after the target was cleared |
| `Arith256.DivBit` | src/arith_uint256.cpp:107-117 | one round keeps dividend = quotient * divisor + rest with the rest below the aligned divisor |
| `Arith256.SetCompact` | src/arith_uint256.cpp:209-229 | the mantissa scaled by the exponent, modulo 2^256; the overflow flag exactly when it is at least 2^256; the negative flag exactly for a signed non-zero value |
| `Arith256.GetCompact` | src/arith_uint256.cpp:231-252 | a mantissa of 16 to 23 bits holding the leading bytes, with sign only if non-zero; the two asserts hold |
| `Arith256.CompactTruncates` | src/arith_uint256.cpp:209-252 | reading a compact form back gives the value with its bytes below the mantissa cleared, never zero for a non-zero value |
| `Arith256.CompactUnique` | src/arith_uint256.cpp:231-252 | a value has one compact form |
| `Arith256.CanonicalFixed` | src/arith_uint256.cpp:209-252 | a compact number is the compact form of what it stands for exactly when it is zero or has a full mantissa that loses no bits |
| `Arith256.EqualTo` | src/arith_uint256.cpp:135-148 | equality with a 64-bit value |
| `Arith256.GetBlockProof` | src/chain.cpp:134-147 | floor(2^256 / (target + 1)) for every valid nBits, zero for negative, overflowing or zero targets, with no division by zero and no wrap-around |
| `Chain.BlockIndex.GetAncestor` | src/chain.cpp:97-121 | following skip pointers gives the block that walking previous pointers gives, and null outside the branch; with all pointers in place, a height of at most n bits takes at most n^2 / 4 + 2 n + 1 steps, and exactly those of Skips.Steps |
| `Chain.BlockIndex.BuildSkip` | src/chain.cpp:128-132 | sets the pointer to the ancestor at the skip height and keeps every other pointer good; if all others were in place, all are |
| `Skips.SkipLower` | src/chain.cpp:85-95 | the skip height is below the height |
| `Skips.LowestOneCleared` | src/chain.cpp:80-82 | every positive number is an odd multiple of a power of two and loses exactly that power |
| `Skips.AtMost` | src/chain.cpp:85-121 | a walk between heights of at most n bits takes at most n^2 / 4 + 2 n + 1 steps |
| `Skips.Exactly` | src/chain.cpp:85-121 | from height 2^n - 1 down to 2 it takes exactly (n - 1)^2 / 4 + 2 n - 3 |
| `Skips.NotLogarithmic` | src/chain.cpp:44-46 | so no multiple of the number of bits bounds the steps |
| `Chain.ActiveChain.Earlier` | src/chain.cpp:41-47 | reading the chain and following skip pointers give the same ancestor |
| `Chain.LastCommonAncestor` | src/chain.cpp:172-194 | the highest block on both branches, or null exactly when they share no root; both asserts hold |
| `Chain.AreOnTheSameFork` | src/chain.cpp:196-203 | exactly when one block is an ancestor of the other |
| `Chain.ActiveChain.SetTip` | src/chain.cpp:12-23 | vChain becomes exactly the tip's branch despite the early exit, from any earlier tip |
| `Chain.ActiveChain.FindFork` | src/chain.cpp:56-67 | the highest block of the chain on the argument's branch, or null when there is none |
| `Chain.ActiveChain.GetLocator` | src/chain.cpp:25-54 | ancestors at exact, strictly decreasing distances, from the block or tip down to the root; the step does not overflow below height 2^30 |
| `Chain.LocatorLength` | src/chain.cpp:25-54 | at most 12 + floor(log2 h) entries for every height h of at least one |
| `Miner.TrackParentAdded` | src/miner.cpp:357-366 | the count is the number of parents not in the block; it is positive before it is decremented |
| `Miner.TrackChildren` | src/miner.cpp:439-447 | queues exactly the skipped children whose last missing parent was just added, each once |
| `Miner.BlockAssembler.AddToBlock` | src/miner.cpp:300-306 | appends one transaction and keeps size, signature checks, fees and count equal to the sums over the block |
| `Miner.BlockAssembler.Consider` | src/miner.cpp:400-447 | one transaction gets the verdict it deserves after the block so far: skipped for a missing parent, too big, not final or added; the failure count goes up, stays or returns to zero accordingly, and it gives up exactly on a failure beyond the thousandth with less than a thousand bytes left |
| `Miner.BlockAssembler.Turn` | src/miner.cpp:384-448 | one round: the record grows by the transaction whose turn it was, and block, failures and queues follow the record |
| `MinerTrace.QueueNext` | src/miner.cpp:384-397 | the head of the backlog, or else the transaction under the cursor, is the one that comes next by the record |
| `Miner.BlockAssembler.AddTxs` | src/miner.cpp:334-449 | each transaction at most once and after all its mempool parents, totals exact and below their limits; the record of the rounds says which came next, a waiting one that became ready first or else the first of the index, what became of it, and that it paid enough; it stops for near-fullness exactly when more than 1000 failed the limit test since the last addition and less than 1000 bytes are left, and considers nothing afterwards; unless so stopped or out of time, what comes next pays too little and nothing left out could be added |
| `Miner.WholePool` | src/miner.cpp:324-333 | without a time limit, a mempool that passes the fee, finality, size and signature tests ends up in the block as a whole |
| `Miner.Included` | src/miner.cpp:384-448 | in a finished block every transaction of such a mempool is present, by induction over entry ids |
| `Miner.Fits` | src/miner.cpp:288-298 | any transaction of such a mempool passes the limit test beside any others |
| `Bloom.FastMod` | src/bloom.cpp:249-251 | the share x / 2^32 of n, rounded down |
| `Bloom.CellsShared` | src/bloom.cpp:272-281 | two hash values use the same cell exactly if they have the same low six bits and lie in the same of the equal parts into which the word pairs divide all values |
| `Bloom.Wipe` | src/bloom.cpp:260-268 | the two-word masked wipe clears exactly the cells stamped with the given generation |
| `Bloom.Mark` | src/bloom.cpp:272-284 | stamps exactly the key's cells with the current generation |
| `Bloom.RollingBloomFilter.Insert` | src/bloom.cpp:253-285 | rotates exactly when the generation is full; after any run of inserts every covered insert has its cells stamped no older than itself, and every stamped cell was hit by a covered insert of the stamped generation |
| `Bloom.RollingBloomFilter.Contains` | src/bloom.cpp:287-299 | true exactly when every hash value of the key has the low six bits and the part of a hash value of an insert of this generation or the two before; so always for the last nElements inserts |
| `Bloom.StampedIsCovered` | src/bloom.cpp:253-299 | a cell is set exactly when one of the covered inserts hits it |
| `Bloom.RollingBloomFilter.Reset` | src/bloom.cpp:301-306 | an empty filter under a new tweak |

## Left out

- Address selection (`Select_`, `GetChance`): floating-point chances and rejection loops.
- Ban lists, DNS seeding and the peers file: stream framing, checksums and version prefixes; the stored stream is structured by its fields.
- 64-bit entry ids, 32-bit times and 64-bit amounts do not wrap in the address, coin and miner models.
- Hash functions (bucket hashes, block hashes, MurmurHash3, SHA256) are arbitrary functions; Merkle soundness takes the pair hash to be injective.
- AddrManager.AddrMan.SelectTriedCollision_: the entry that the source creates by indexing a missing id is stated in its own case and excluded from runs, which start where pending collisions have occupied slots.
- AddrLoad.Unserialize: does not say what state a rejected or truncated stream leaves behind, because the caller clears the manager after a failure.
- The best-block hash and the memory accounting of the coin cache: bookkeeping beside the view.
- CoinsRun.Run: adds that overwrite without being allowed to are excluded from runs; AddCoin states exactly what happens to them.
- Starting and stopping worker threads: the number of workers is fixed in a run.
- Fairness of the scheduler: the bound of CheckQueue.EveryWaitEnds grows with the number of spurious wake-ups, and a run may stop while a thread could still move.
- The CashAddr payload packing into version byte and hash, and error patterns beyond bursts of eight symbols.
- Bitwise operators, decrement, hexadecimal and floating-point conversion of 256-bit numbers, and multiplication by a 32-bit number: easy members.
- The equivalent time of chain work and the search of the chain by time.
- Coinbase creation, canonical sorting and validity testing of a block template.
- Miner.BlockAssembler.AddTxs: the children of a transaction are visited in an arbitrary order, and the clock is an arbitrary value.
- The bloom filter's size formula and the plain bloom filter: floating point. A rolling filter for zero elements has no words and is excluded by the constructor.
