# Data structures and codecs of the DAPS wallet and node

DAPS is a descendant of Bitcoin and PIVX. This project models the self-contained data structures, codecs
and algorithms of its node in Dafny and proves what the rest of the node relies on. Code that changes
objects in place is a class here, with the same fields and the same loops; what each method does is tied
to a function or a predicate on values, and the properties of those are lemmas.

| files | what they model |
|---|---|
| `AddrManTypes`, `AddrManSpec`, `AddrManSteps`, `AddrManPeers`, `AddrManCheck`, `AddrMan`, `AddrManTheorems`, `AddrManStream`, `AddrManLoad` | the address manager: one set of peers held in two maps, a vector, two bucket tables and counters |
| `Coins`, `CoinsCache`, `CoinsStack`, `CoinsCodec` | unspent outputs, write-back caches of any depth over a database, and the bit-mask format |
| `CheckQueueProtocol`, `CheckQueue` | the parallel check queue, as a state machine over its critical sections and as an object |
| `Limbs`, `BaseUint`, `Compact` | multi-precision integers on 32-bit limbs, and the compact form of targets |
| `Radix`, `Base58` | conversion between radices in place, Base58 with and without checksum |
| `Mnemonic` | sentences of words for data, and their check |
| `StakeModifier` | the draw of blocks for a new stake modifier, and the choice of one for a kernel |
| `Chain` | a tree of blocks, the active chain as a vector, forks and locators |
| `Budget` | the choice of proposals to fund, finalized budgets, and the payments due in a block |
| `AmountCodec`, `LockedPages` | compressed amounts; reference counts of locked memory pages |
| `Common`, `Bits`, `Sorting` | types, bit operations on numbers and sorting, used by the others |

`AddrManTypes.Inv` is the consistency of the address manager. Next to the abstract state `Peers`, which knows
no ids, every method says both that the consistency is kept and which function of the peers it performs.
Hash functions, random draws, the clock, the word list and the enabled-masternode count are parameters.

Five places differ from what a reader might expect of the code, and the code was followed. Each has its exact
condition, in terms of what is there before the call, and a concrete case.

- A finalized budget put together from funded proposals is valid only if at most 100 are funded
  (`Budget.SubmitAndCheck`); `Budget.TooManyProposals` puts one together that is refused.
- A block filled in with a budget payment is refused by the same node whenever fewer than ten masternodes are
  enabled, because then no budget has more votes than the best one less a tenth of the masternodes
  (`Budget.FillAndCheck`); in `Budget.NineMasternodes` all nine voted for the payment.
- `Check_` of the address manager looks addresses up with an operator that reads a missing one as id 0 and puts
  it in, so an entry under id 0 passes though its address is not mapped (`AddrManCheck.UnmappedZeroPasses`). A
  state is consistent exactly if `Check_` returns 0 and the maps hold every entry's address and nothing stray
  (`AddrMan.AddrMan.Check_`).
- Multiplying a big integer by itself in place yields zero (`BaseUint.BaseUint.MulAssign`,
  `BaseUint.ThreeTimesItself`).
- The 32-bit header code of unspent outputs has 28 bits for the number of non-zero mask bytes. From there on it
  wraps around and nothing can be read back (`CoinsCodec.RoundTrip`, `CoinsCodec.TooManyOutputs`).

## Model

| member | source | states |
|---|---|---|
| `AddrManTypes.Hashes.NewSlot` | src/addrman.cpp:20-32 | the slot in the new table lies inside the table, for any hash functions |
| `AddrManCheck.ConsistentIffCheckPasses` | src/addrman.cpp:381-455 | the representation invariant is what `Check_` demands, together with the absence of strays that `Check_` does not notice |
| `AddrManCheck.UnmappedZeroPasses` | src/addrman.cpp:409-410 | without that absence this is false: an entry under id 0 passes though its address is not mapped |
| `AddrMan.AddrMan.CheckEntries` | src/addrman.cpp:391-417 | the first loop passes exactly the entries that are right by themselves, collects the tried ids and the counts of the new ones, and only puts id 0 in for addresses that are missing |
| `AddrMan.AddrMan.CheckTriedTable` | src/addrman.cpp:424-436 | striking off one entry for every slot finds exactly the tables whose slots hold their own entries, each once |
| `AddrMan.AddrMan.CheckNewTable` | src/addrman.cpp:438-448 | counting down one reference for every slot leaves nothing exactly if all counts are right |
| `AddrMan.AddrMan.Check_` | src/addrman.cpp:381-455 | for any tables at all 0 is returned exactly if the conditions hold; the tables are consistent exactly if 0 is returned and there are no strays, and then nothing is changed |
| `AddrMan.AddrMan.constructor` | src/addrman.h:448-451 | a new manager is consistent and knows no peer |
| `AddrMan.AddrMan.Clear` | src/addrman.h:428-446 | tables, vector and counters are emptied under a new key, and the two maps are left as they are |
| `AddrMan.AddrMan.Find` | src/addrman.cpp:76-87 | an entry is found exactly for the addresses in the book |
| `AddrMan.AddrMan.Create` | src/addrman.cpp:89-99 | a new entry at the end of the random order, counted by no table yet |
| `AddrMan.AddrMan.SwapRandom` | src/addrman.cpp:101-119 | two places of the random order change hands in the vector and in both entries |
| `AddrManSteps.SwappedKeeps` | src/addrman.cpp:101-119 | swapping keeps consistency and leaves the peers as they are |
| `AddrMan.AddrMan.Delete` | src/addrman.cpp:121-133 | exactly one peer leaves the book, the vector, the maps and the counter; consistency is kept and the asserted conditions hold |
| `AddrManSteps.DeletedSame` | src/addrman.cpp:121-133 | of all other entries only the place in the random order may change, and both tables are untouched |
| `AddrManSteps.DroppedIsClearNew` | src/addrman.cpp:135-148 | emptying a slot takes one reference, and the peer is lost exactly if it was the last |
| `AddrMan.AddrMan.ClearNew` | src/addrman.cpp:135-148 | the slot is freed, the holder is deleted if and only if this was its last reference, consistency is kept |
| `AddrManPeers.ClearNewLoses` | src/addrman.cpp:135-148 | freeing a slot changes no other slot and costs at most the peer that had just this one |
| `AddrMan.AddrMan.Evict` | src/addrman.cpp:168-190 | the peer in a tried slot returns to the new table, where its own slot is cleared for it |
| `AddrManPeers.EvictMoves` | src/addrman.cpp:168-190 | after an eviction the peer has exactly one reference, in the slot that its source selects, and at most the holder of that slot is lost |
| `AddrMan.AddrMan.MakeTried` | src/addrman.cpp:150-196 | every reference to the entry is removed, a holder of its tried slot is evicted, the entry takes the slot, and no assertion fires |
| `AddrManPeers.MakeTriedOver` | src/addrman.cpp:150-196 | promotion over an occupied tried slot: the newcomer has no reference, the evicted one exactly one, and nobody else is lost but the holder of that one |
| `AddrMan.AddrMan.Good_` | src/addrman.cpp:198-245 | the search for a bucket always succeeds, so a new peer always moves to the tried table; the success is recorded in the peer; consistency is kept |
| `AddrManPeers.GoodPromotes` | src/addrman.cpp:198-245 | a promoted peer is in the tried slot that its service hashes to, with no reference left and the success recorded with no attempts since; the previous holder is new again, in the slot that its source selects; no peer is lost if the slot was free |
| `AddrManPeers.GoodRecords` | src/addrman.cpp:198-220 | a success is recorded for the exact service only, sets both times and clears the attempts; other records and, for a peer tried already, all slots are kept |
| `AddrMan.AddrMan.Attempt_` | src/addrman.cpp:320-337 | a try is recorded for the exact service only: its time, and one attempt more; nothing else changes |
| `AddrMan.AddrMan.Connected_` | src/addrman.cpp:479-497 | the time seen is set after more than twenty minutes, for the exact service only; nothing else changes |
| `AddrMan.AddrMan.Renew` | src/addrman.cpp:261-288 | the record of a known peer afterwards: services united; the time moves only forward, to that announced less the penalty, and lags behind it by at most an hour, or a day if the announcement is a day old; and exactly when the peer may take one more slot |
| `AddrMan.AddrMan.Enter` | src/addrman.cpp:296-316 | the slot is taken if it is free, or its holder terrible or held elsewhere; an entry left without any slot is deleted |
| `AddrMan.AddrMan.Add_` | src/addrman.cpp:247-318 | a known peer stays with its record brought up to date as above, a new one that gets in has the record announced, less the penalty; consistency is kept, and the peers are what the id-free specification says |
| `AddrManPeers.AddKeepsQuality` | src/addrman.cpp:247-318 | adding never touches the tried table or other records, and the only peers it can cost are terrible ones with a single reference |
| `AddrManPeers.AddRecords` | src/addrman.cpp:247-294 | the same on the peers alone, for every routable address; an address that is not routable changes nothing |
| `AddrManPeers.AddEnters` | src/addrman.cpp:270-316 | exactly when an announcement gets a peer into the slot that its source selects: a new peer if the slot is free or its holder terrible or held elsewhere; a known one if announced as seen since, in fewer than eight slots, by a draw with odds halved for each of them, and if the slot is free or its holder terrible |
| `AddrManPeers.TerribleExactly` | src/addrman.cpp:34-52 | which peers are terrible, in seconds and attempts: none tried within the last minute; of the others those dated ten minutes ahead, not seen for thirty days, never reached in three attempts, or missed ten times with no success for a week |
| `AddrManPeers.AttemptsTell` | src/addrman.cpp:34-52 | a success spares a peer for a minute, and three attempts without any success make it terrible |
| `AddrMan.AddrMan.GetAddr_` | src/addrman.cpp:458-477 | every answer is the record of a peer that is not terrible, no address comes twice, and all such peers are told unless the limit of 23 percent and 2500 cuts; the answer follows a shuffled order of all peers, and the tables are unchanged |
| `AddrManTheorems.Perform` | src/addrman.cpp:198-497 | every operation keeps consistency and performs its function of the peers |
| `AddrManTheorems.Replay` | src/addrman.cpp:381-455 | after any sequence of operations on a new manager `Check_` returns 0 and the peers are what the specification says |
| `AddrManStream.FullList` | src/addrman.h:289-308 | the entries written for one table are all its peers, each once, and as many as its counter, so neither count assertion fires |
| `AddrManStream.Serialize` | src/addrman.h:276-323 | the stream of a consistent manager starts with version, key and counts, the bucket count with bit 30 flipped; then comes, for every new and every tried peer once, all of its record but the time of the last try; then all slots of the new table by place in that list |
| `AddrManLoad.ReadNews` | src/addrman.h:347-364 | the new peers are read back under the ids of their places |
| `AddrManLoad.ReadTrieds` | src/addrman.h:366-385 | every tried peer finds its slot free, so none is lost |
| `AddrManLoad.ReadBuckets` | src/addrman.h:387-403 | every slot of the new table is taken again by the peer that had it |
| `AddrManLoad.Prune` | src/addrman.h:405-415 | exactly the entries that no slot refers to are deleted and counted, and the manager is consistent again; none after a complete load |
| `AddrManLoad.Unserialize` | src/addrman.h:326-421 | loading into an empty manager yields the encoded peers, loses nothing to collisions and ends consistent |
| `AddrManLoad.RoundTrip` | src/addrman.h:276-421 | saving and loading gives the same key, the same slots of both tables and the same addresses; each record comes back with its address, source, last success and attempts, and no time of a last try |
| `Coins.Trimmed` | src/coins.h:122-128 | dropping spent outputs at the end leaves none there, removes nothing unspent, and empties the vector exactly if all is spent |
| `Coins.Cleanup` | src/coins.h:122-128 | the loop that pops spent outputs computes that |
| `Coins.Spend` | src/coins.cpp:36-55 | spending succeeds exactly on an available output, makes that one unavailable and no other, changes nothing but the outputs, and leaves the vector clean |
| `CoinsCache.CoinsViewDB.BatchWrite` | src/txdb.cpp:55-74 | the database takes over what a trustworthy cache holds, in any order of its entries |
| `CoinsCache.CoinsViewCache.FetchCoins` | src/coins.cpp:88-104 | pulling an entry up from below changes what no level sees; not found means nothing unspent |
| `CoinsCache.CoinsViewCache.GetCoins` | src/coins.cpp:106-114 | the answer is the plain map's, pruned being the same as absent |
| `CoinsCache.CoinsViewCache.HaveCoins` | src/coins.cpp:145-153 | true exactly if something is unspent, though only the length of the vector is looked at |
| `CoinsCache.CoinsViewCache.ModifyCoins` | src/coins.cpp:116-133 | hands out the coins seen, marks the entry dirty, and fresh exactly when nothing below has them; no level sees a difference |
| `CoinsCache.CoinsViewCache.Release` | src/coins.cpp:244-252 | this level now sees the cleaned-up coins, the levels below are as before, erasing a fresh pruned entry included |
| `CoinsCache.CoinsViewCache.WriteBack` | src/coins.cpp:171-196 | one dirty entry of the child, with the assertion that an entry missing here is fresh there |
| `CoinsCache.CoinsViewCache.BatchWrite` | src/coins.cpp:167-202 | for all entries in any order this level sees what the child saw, and the levels below are as before |
| `CoinsCache.CoinsViewCache.Flush` | src/coins.cpp:204-209 | the cache is emptied, reads are as before, and the level below sees what this one saw |
| `CoinsStack.SpentSeen` | src/coins.cpp:36-55 | spending on pruned coins stays invisible, and spending leaves clean coins clean |
| `CoinsStack.SpendCoins` | src/coins.cpp:36-55 | a spend changes what the topmost level sees of one transaction, and there nothing but that output: height, version, flags and all other outputs stay, and the coins vanish exactly if it was the last one; other levels and transactions see no difference |
| `CoinsStack.SpendStep` | src/coins.cpp:36-55 | the plain maps step in just that way |
| `CoinsStack.SpendDriven` | src/coins.cpp:36-55 | so whatever was done before, a spend takes one output from what the topmost level answers |
| `CoinsStack.Drive` | src/coins.cpp:81-252 | a stack of any depth, driven by any reads, writes, spends, pushes, pops and flushes, agrees at every level with plain maps, and every read answers from the topmost |
| `CoinsCodec.MaskBit` | src/coins.h:218-222 | bit p of a mask byte is the availability of its output, and the byte fits eight bits |
| `CoinsCodec.CalcMaskSize` | src/coins.cpp:17-34 | the byte count ends at the last output available, and the other count is that of non-zero bytes among them |
| `CoinsCodec.CoversOnce` | src/coins.cpp:17-34 | only one mask length reaches exactly to the last available output, so the format is determined |
| `CoinsCodec.Serialize` | src/coins.h:202-229 | coins that are not pruned pass the assertion and are written in the format, with the mask no longer than needed |
| `CoinsCodec.Unserialize` | src/coins.h:232-265 | the reader's loops compute the decoding function, failing exactly where it does |
| `CoinsCodec.CodeBack` | src/coins.h:209-209 | the four flags are recovered from the header code, and the count of non-zero bytes modulo 2 to the 28 |
| `CoinsCodec.MaskStops` | src/coins.h:247-257 | knowing only the number of non-zero bytes, the reader stops exactly after the last byte written, whatever follows |
| `CoinsCodec.RoundTrip` | src/coins.h:202-265 | reading back what was written restores coins that are not pruned, spent outputs dropped, and consumes exactly the tokens written, if and only if the header has room for the count of non-zero mask bytes |
| `CoinsCodec.TooManyOutputs` | src/coins.h:209-209 | 2 to the 31 unspent outputs and two more are not read back |
| `CoinsCodec.WriteAndRead` | src/coins.h:202-265 | the same for the two methods; clean coins of up to 2 to the 31 outputs, less six, come back identical |
| `CheckQueueProtocol.BatchSize` | src/checkqueue.h:110-110 | at least one check and never more than the queue holds or a batch may have is taken; several are no more than the share of one thread among all, and less than a full batch leaves no room in the share for one more |
| `CheckQueueProtocol.AddKeeps` | src/checkqueue.h:146-158 | adding keeps the invariant for the checks pending |
| `CheckQueueProtocol.AddWakes` | src/checkqueue.h:153-157 | one check wakes exactly one sleeping worker if there is one, several wake all of them, and the master is not woken |
| `CheckQueueProtocol.AccountKeeps` | src/checkqueue.h:80-89 | accounting for a batch, with the notification of the master, keeps what the second half of the section needs |
| `CheckQueueProtocol.ProceedKeeps` | src/checkqueue.h:91-119 | leaving, waiting or taking a batch restores the invariant, and leaving returns whether all pending checks are fine |
| `CheckQueueProtocol.EvaluateKeeps` | src/checkqueue.h:121-125 | evaluating a check, or skipping it after a failure, keeps the invariant |
| `CheckQueueProtocol.StepKeeps` | src/checkqueue.h:69-158 | every step of every thread keeps the counters and the result right |
| `CheckQueueProtocol.EveryRunHonest` | src/checkqueue.h:69-168 | for any number of workers and any interleaving with spurious wake-ups, every `Wait` returns true exactly if all checks added since the last return are fine, and the queue is idle from a return to the next `Add` |
| `CheckQueueProtocol.IdleExactly` | src/checkqueue.h:164-168 | `IsIdle` holds exactly if nothing is left to do and no pending check failed, hence for a fresh control |
| `CheckQueueProtocol.SomebodyWorks` | src/checkqueue.h:83-102 | no lost wake-up: a sleeping master that was not notified means that a worker holds a batch |
| `CheckQueueProtocol.NeverStuck` | src/checkqueue.h:91-103 | while the master waits some step other than a spurious wake-up is enabled |
| `CheckQueueProtocol.StepsCount` | src/checkqueue.h:69-127 | while the master waits every step that changes the state uses up some of a measure, and every step but a spurious wake-up changes it |
| `CheckQueueProtocol.WaitEnds` | src/checkqueue.h:140-143 | so the number of such steps before `Wait` returns is bounded |
| `CheckQueue.CheckQueue.Add` | src/checkqueue.h:146-158 | the loop that pushes checks, and the notifications, make the step |
| `CheckQueue.CheckQueue.LoopSection` | src/checkqueue.h:77-120 | the critical section makes the step and returns what the step returns |
| `CheckQueue.CheckQueue.TakeBatch` | src/checkqueue.h:110-119 | the batch is popped from the back of the queue |
| `CheckQueue.Follow` | src/checkqueue.h:69-168 | following any schedule on the object produces an honest log, and idleness is as stated |
| `Limbs.ValInjective` | src/arith_uint256.h:222-222 | limb arrays of one width are equal exactly when their values are |
| `Limbs.ProductFits` | src/arith_uint256.cpp:111-111 | no intermediate of the multiplications overflows 64 bits |
| `BaseUint.BaseUint.AddAssign` | src/arith_uint256.h:138-147 | addition modulo the width, also of a number to itself |
| `BaseUint.BaseUint.Negate` | src/arith_uint256.h:80-87 | negation modulo the width |
| `BaseUint.BaseUint.SubAssign` | src/arith_uint256.h:149-153 | subtraction modulo the width |
| `BaseUint.BaseUint.Increment` | src/arith_uint256.h:175-182 | the carry runs just as far as it must, modulo the width |
| `BaseUint.BaseUint.Decrement` | src/arith_uint256.h:192-199 | the borrow runs just as far as it must, modulo the width |
| `BaseUint.BaseUint.MulAssign32` | src/arith_uint256.cpp:92-101 | multiplication by a word, modulo the width |
| `BaseUint.BaseUint.MulAssign` | src/arith_uint256.cpp:104-117 | multiplication modulo the width; a number multiplied by itself becomes zero, because it is cleared before the factor is read |
| `BaseUint.ThreeTimesItself` | src/arith_uint256.cpp:104-117 | three times itself, in place, is zero |
| `BaseUint.BaseUint.ShiftLeft` | src/arith_uint256.cpp:58-72 | multiplication by a power of two modulo the width, for any shift |
| `BaseUint.BaseUint.ShiftRight` | src/arith_uint256.cpp:75-89 | division by a power of two, rounded down, for any shift |
| `BaseUint.BaseUint.DivAssign` | src/arith_uint256.cpp:120-143 | quotient and remainder; a zero divisor fails after the number was cleared |
| `BaseUint.BaseUint.CompareTo` | src/arith_uint256.cpp:146-155 | the order of the values |
| `BaseUint.BaseUint.Bits` | src/arith_uint256.cpp:196-208 | the position of the highest bit set plus one |
| `BaseUint.BaseUint.GetLow64` | src/arith_uint256.h:267-271 | the value modulo 2 to the 64 |
| `Compact.SetCompact` | src/arith_uint256.cpp:244-262 | the value is what the code stands for, modulo 2 to the 256; the overflow flag says exactly whether that cuts anything |
| `Compact.Says` | src/arith_uint256.cpp:244-262 | what a code of given size, sign and mantissa stands for: the mantissa times, or divided by, the power of two that its size selects |
| `Compact.GetCompact` | src/arith_uint256.cpp:264-285 | both assertions hold, and the code is that of the value |
| `Compact.ThroughCompact` | src/arith_uint256.cpp:244-285 | for every value the way through the code rounds down by less than one part in 32768 and raises no flag |
| `Compact.EncodeClose` | src/arith_uint256.cpp:264-285 | the error of encoding a value of any size |
| `Compact.EncodeBest` | src/arith_uint256.cpp:264-285 | no code at all stands for a closer value from below |
| `Compact.RoundTrip` | src/arith_uint256.cpp:244-285 | codes survive decoding and encoding exactly when they are normal, and encoding always yields a normal one |
| `Compact.Monotone` | src/arith_uint256.cpp:264-285 | larger values do not get codes for smaller ones |
| `Radix.ConvertBack` | src/base58.cpp:22-116 | changing the radix, with leading zeros kept, is undone by changing it back |
| `Radix.Enough` | src/base58.cpp:34-34 | a bound on digit counts for one length carries over to every length |
| `Base58.Holds138` | src/base58.cpp:92-92 | 138 digits to base 58 hold 100 bytes |
| `Base58.Holds733` | src/base58.cpp:34-34 | 733 bytes hold 1000 digits to base 58 |
| `Base58.MultiplyAdd` | src/base58.cpp:41-47 | the carry loop multiplies the number in the buffer and adds, up to the carry out of it |
| `Base58.Append` | src/base58.cpp:94-104 | in a buffer of the computed size nothing is carried out, whatever the length of the input |
| `Base58.IndexBack` | src/base58.cpp:38-40 | the 58 characters are different and no white space, and each is found at its place |
| `Base58.AlphabetIs` | src/base58.cpp:20-20 | a character is in the alphabet exactly if it is a digit or a letter other than 0, I, O and l |
| `Base58.EncodeBase58` | src/base58.cpp:83-116 | the text is the number in the other radix with a '1' for each leading zero |
| `Base58.DecodeBase58` | src/base58.cpp:22-66 | exactly the texts over the alphabet, white space around them aside, are accepted, and give the number back |
| `Base58.DecodesExactly` | src/base58.cpp:22-116 | a text decodes to given bytes exactly if it is their encoding, white space around it aside |
| `Base58.Padded` | src/base58.cpp:24-26 | an encoding decodes with any of the six white-space characters before and after it |
| `Base58.EncodedValid` | src/base58.cpp:105-115 | an encoding is valid text without white space and has as many leading '1's as there were zeros |
| `Base58.EncodeBase58Check` | src/base58.cpp:128-135 | four bytes of the hash are appended before encoding |
| `Base58.DecodeBase58Check` | src/base58.cpp:137-152 | exactly the texts made by the encoder with checksum are accepted, and nothing is left on failure |
| `Mnemonic.SplitJoin` | src/bip39.cpp:82-108 | a sentence of words without spaces falls into these words |
| `Mnemonic.IndexOfBits` | src/bip39.cpp:44-48 | eleven bits and a place in the list determine each other |
| `Mnemonic.FromData` | src/bip39.cpp:24-56 | the sentence for 16 to 32 bytes in steps of four, and nothing for other lengths; all bit-buffer indices are in range |
| `Mnemonic.SentenceExactly` | src/bip39.cpp:24-127 | a text is the sentence for given data exactly if its words are listed and their bits are those of the data and its checksum |
| `Mnemonic.SentenceSays` | src/bip39.cpp:29-54 | bit by bit: the places of the words spell the data, the highest bit of each byte first, and then the leading bits of the first byte of the hash |
| `Mnemonic.ReadWords` | src/bip39.cpp:82-111 | the parser fills the bit buffer with the places of all words, or there is a word that is not listed |
| `Mnemonic.MaskIs` | src/bip39.cpp:116-124 | comparing under a mask compares exactly the leading bits |
| `Mnemonic.Check` | src/bip39.cpp:58-127 | accepted are exactly the sentences made from 16, 24 or 32 bytes |
| `StakeModifier.SelectBlockFromCandidates` | src/kernel.cpp:78-136 | one round takes a candidate that was not selected; if that is in time it beats every other in time by its hash, that of a stake divided by 2 to the 32, and among equals the earlier wins; if none is in time the earliest left is taken; it fails only when all are selected |
| `StakeModifier.Proof` | src/kernel.cpp:108-112 | what is hashed is the block hash, but nothing for a stake before the upgrade, which the first candidate decides |
| `StakeModifier.BestBeats` | src/kernel.cpp:110-127 | the candidate to select beats every other in time in terms of the hash function itself, for all four pairings of stake and work |
| `StakeModifier.BestUnique` | src/kernel.cpp:78-136 | there is only one such candidate |
| `StakeModifier.RoundsUnique` | src/kernel.cpp:194-214 | so all rounds together leave no choice |
| `StakeModifier.RoundsBeat` | src/kernel.cpp:194-214 | in each round the block drawn beats every other in time that was not drawn before |
| `StakeModifier.SectionsGrow` | src/kernel.cpp:58-64 | the stop of each round lies one section later than the one before: 63 parts in 189 less twice the round of the modifier interval, rounded down |
| `StakeModifier.SelectionStart` | src/kernel.cpp:181-182 | the selection interval ends at the last multiple of the modifier interval up to the time of the block |
| `StakeModifier.SomeLeft` | src/kernel.cpp:198-204 | as long as fewer blocks were drawn than there are, a round finds one |
| `StakeModifier.ModifierBits` | src/kernel.cpp:206-207 | bit r of the new modifier is the entropy bit of the block drawn in round r |
| `StakeModifier.GetLastStakeModifier` | src/kernel.cpp:44-55 | the last block that came with a modifier, or failure if there is none |
| `StakeModifier.CollectCandidates` | src/kernel.cpp:178-192 | the candidates are the blocks of the selection interval, strictly sorted by time and hash |
| `StakeModifier.RunRounds` | src/kernel.cpp:194-214 | min(64, n) rounds always succeed |
| `StakeModifier.ComputeNextStakeModifier` | src/kernel.cpp:151-242 | the whole computation: when the old modifier is kept, what a new one consists of, and that only a chain without any modifier fails |
| `StakeModifier.GetKernelStakeModifier` | src/kernel.cpp:246-273 | the modifier of the first block with a new one that is a selection interval later; failure exactly if there is none |
| `Chain.Chain.SetTip` | src/chain.cpp:13-24 | though the walk stops early, every entry is the ancestor of the new tip at its height |
| `Chain.Chain.FindFork` | src/chain.cpp:55-62 | the highest block in common, and none exactly if there is no block in common |
| `Chain.Chain.GetLocator` | src/chain.cpp:26-53 | hashes of ancestors at strictly falling heights, down to the genesis block, with doubling steps after the twelfth |
| `Chain.LocatorShort` | src/chain.cpp:26-53 | the number of entries exceeds twelve by less than the logarithm of the height |
| `Chain.AncestorOfAncestor` | src/chain.cpp:20-23 | why the rest of the vector is right as soon as one entry is |
| `Sorting.OneOrder` | src/masternode-budget.cpp:692-699 | with distinct keys only one sorted order is possible |
| `Budget.Allot` | src/masternode-budget.cpp:731-766 | the loop funds what the specification funds, and sets what eligible proposals are allotted |
| `Budget.GetBudget` | src/masternode-budget.cpp:702-769 | what is funded comes with the most net votes first, and of equals the larger fee hash; all of it is eligible for the whole period and fits on top of what comes before; an eligible proposal that is not funded would have gone over the total on top of those ranked before it; and eligible ones are allotted their amount or nothing |
| `Budget.NoRoom` | src/masternode-budget.cpp:748-766 | why: such a proposal has its place among those funded, and no room in it |
| `Budget.FundedFits` | src/masternode-budget.cpp:734-756 | what is funded is eligible, in order, and within the total |
| `Budget.PassedOver` | src/masternode-budget.cpp:748-756 | an eligible proposal is passed over exactly if it would go over the total on top of those before it |
| `Budget.OrderIrrelevant` | src/masternode-budget.cpp:706-717 | the outcome does not depend on the order of the map when fee hashes differ |
| `Budget.FinalizedBudget.AddOrUpdateVote` | src/masternode-budget.cpp:1752-1782 | exactly which votes are taken, and what that does to the count |
| `Budget.FinalizedBudget.GetPayeeAndAmount` | src/masternode-budget.h:350-360 | the payment due at a height inside the window, and only there |
| `Budget.FinalizedBudget.IsTransactionValid` | src/masternode-budget.cpp:1993-2025 | accepted exactly if the payment due is among the outputs |
| `Budget.FinalizedBudget.GetTotalPayout` | src/masternode-budget.cpp:1874-1883 | the sum of the payments |
| `Budget.FinalizedBudget.IsValid` | src/masternode-budget.cpp:1940-1991 | exactly which finalized budgets are valid |
| `Budget.SubmitFinalBudget` | src/masternode-budget.cpp:154-171 | one payment for each proposal funded, for the next cycle, with the allotted total |
| `Budget.SubmitAndCheck` | src/masternode-budget.cpp:154-171 | such a budget is within the payout bound, and valid exactly if between one and 100 proposals are funded |
| `Budget.TooManyProposals` | src/masternode-budget.cpp:1953-1956 | 101 proposals over 10 coins make a budget that is refused, far below the 648000 coins of a cycle |
| `Budget.HighestIs` | src/masternode-budget.cpp:630-640 | the highest count is reached by a covering budget and exceeded by none |
| `Budget.FillBlockPayee` | src/masternode-budget.cpp:491-553 | the payment of a best covering budget is added, and nothing if there are no votes |
| `Budget.IsTransactionValid` | src/masternode-budget.cpp:620-668 | accepted exactly if the best count is a twentieth of the masternodes and a budget within a tenth of it is paid |
| `Budget.FillAndCheck` | src/masternode-budget.cpp:491-668 | a filled-in transaction is accepted at its height exactly if there are ten masternodes, enough votes, and a vote at all or a payment in it already; with votes it always pays a best budget |
| `Budget.NineMasternodes` | src/masternode-budget.cpp:642-660 | with nine masternodes the payment that all of them voted for is refused |
| `AmountCodec.Bijection` | src/compressor.cpp:137-180 | compression and decompression are inverse to each other on all numbers, in both directions |
| `AmountCodec.Forms` | src/compressor.cpp:125-154 | which form: the trailing zeros in the last digit, what is left before it, its last digit to base nine; with nine zeros all that is left |
| `AmountCodec.Fits` | src/compressor.cpp:137-154 | the compressed form is at most nine times the amount |
| `AmountCodec.CompressAmount` | src/compressor.cpp:137-154 | in 64 bits the result is the compressed form modulo their range, and the form itself up to a ninth of it |
| `AmountCodec.DecompressAmount` | src/compressor.cpp:156-180 | in 64 bits the result is the decompressed form modulo their range |
| `AmountCodec.ThereAndBack` | src/compressor.cpp:137-180 | every amount up to a ninth of the range comes back |
| `LockedPages.LockedPageManager.LockRange` | src/allocators.h:47-66 | every page counts the ranges held on it, and exactly the pages counted are locked |
| `LockedPages.LockedPageManager.UnlockRange` | src/allocators.h:69-89 | the same after one range is given back; the page is always found |
| `LockedPages.TouchingWithout` | src/allocators.h:77-82 | giving back one range lowers the count by one on its pages and nowhere else |
| `LockedPages.TouchesIs` | src/allocators.h:47-56 | a range touches exactly the pages with which it has a byte in common |

## Left out

- `Select_` of the address manager: its loops end only with probability one.
- The address manager's ids are not bounded to 32 bits, and random keys, hashes and draws are parameters. One clock reading serves one call.
- Streams that `Serialize` did not write: other versions, other bucket counts and malformed data. Loading into a manager that already knows peers, because `Clear` leaves the maps filled.
- AddrMan.AddrMan.Add_: the returned flag is not related to whether the peer is still there, because the code may delete the entry it has just made.
- Best-block hashes, statistics and cache sizes of the coin views; operations on a lower cache while one on top of it holds entries.
- `GetSerializeSize` of coins: it scales the header code by 8 where `Serialize` scales by 16, so no claim about it is made. Variable-length integers and output scripts are tokens, not bytes.
- CoinsCodec.RoundTrip: the stream is one of tokens, so that a reader who stops the mask early fails; in bytes it might take mask bytes for outputs instead of failing.
- Shutting the check queue down: nothing in the class sets its quit flag. More than one master, and more than 2 to the 32 checks at once.
- Conversions of big integers to hexadecimal text and to floating point, and their bitwise operators between two numbers.
- Strings with an embedded zero character in Base58: what follows it is not seen by the code.
- Sentences of 15 and 21 words are made by `FromData` and refused by `Check`; no round trip is claimed for them. Seeds, and the quality of the hash.
- `CheckStakeKernelHash` and stake targets; the look-up of the kernel's block by its hash; log and map output of the modifier.
- Skip pointers of blocks: `GetAncestor` is taken at its specification. Block trust and median times.
- Collateral transactions, signatures of votes, relaying and orphans in the budget code: vote counts, eligibility and the number of masternodes are given.
- Budget.SubmitFinalBudget: the checks on when a budget may be submitted and the fee transaction are not modelled.
- Script compression, and the secure allocators built on locked pages. Ranges whose pages wrap around the address space.
