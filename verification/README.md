# Redis 3.0.7 in Dafny

A model of the four parts of the vendored Redis sources (`redis-stable/src`) whose correctness is hardest
to see from the code, with proofs of what they promise. `dafny verify dfyconfig.toml` checks everything.

**The hash table** (`dict.c`). `Words` and `Cursor` hold the arithmetic of 64-bit words and of the
reverse-binary cursor; `DictModel`, `DictRehash`, `DictOps`, `DictScan` and `DictIter` describe the table, with its
two tables of chains, as a value and prove the laws; `Dict` and `DictIterator` are the table and the safe
iterator as objects updated in place, each method proved against those descriptions. Main results: the
dictionary is a finite map in every reachable state, mid-rehash included; incremental rehashing loses nothing
and ends; a safe iteration returns every lasting entry exactly once; a scan emits every lasting entry, exactly
under a stated condition on the cursor while two tables exist.

**HyperLogLog** (`hyperloglog.c`). `HllRegisters` says what a value stands for: 16384 registers. `HllDense`,
`HllSparse` and `HllRaw` are the three encodings, `Hll` the object that changes from one to another,
`HllCommands` the commands over keys, `HllLaws` the laws over whole histories. Main results: the in-place edit of
the run-length code, through every split, merge and promotion, raises exactly one register; the three sums agree,
in exact rational arithmetic; registers depend only on the set of elements that reached the key.

**The append only file** (`aof.c`). `AofFormat` and `AofLoader` are the printer and the loader, `AofBuffer` the block
list, `AofProtocol` the life of a server, its rewriting child and the pipes between them as a state machine, `AofServer`
the two processes and their pipes as objects proved against it. Main results: a log cut after any byte loads exactly the commands
wholly inside; no outcome of write or ftruncate loses or repeats a byte; the rewritten file is the dump followed by
every byte fed since the fork, so that after any run, of a new server or of one started from its log, the log
replays to the current dataset, and a crash leads back to such a server.

**Cluster configuration and failover** (`cluster.c`). `ClusterBitmap`, `ClusterNodes` and `ClusterState` are one node's
view as objects: slot table, bitmaps, replication links, epochs, votes. `ClusterElection`, `ClusterEpochs` and
`ClusterClaims` are the cluster as a step relation over nodes and messages; the methods of `ClusterState` are tied to
their steps by the views `Elector`, `EpochView` and `SlotView`. Main results: table, bitmaps, counters and
links agree in every reachable state and no assertion of the slot code can fail; every epoch known or in
flight is bounded by the current epoch beside it; no two slaves win one epoch; claims converge whatever the
order of delivery.

## Promises that hold under a condition

- **Scanning while two tables exist.** The inner loop of dictScan does not reach every bucket of the larger table for
  every cursor. `Cursor.ReachedExactly` gives the condition, for all cursors and table sizes: the bits of the cursor
  between the two masks form a run of low ones. Tables that differ by a factor of two, and cursors without a bit
  between the masks, always meet it. `DictScan.ScanCanMiss` is a scan during a shrink from 16 buckets to 4 that never
  emits an entry present throughout; the comment in `dict.c` promises it would be.
- **Votes of an earlier attempt.** The vote count is cleared when an attempt is scheduled (`cluster.c:2768`) and not
  again when its epoch is taken (`cluster.c:2828`). A vote of the previous attempt delivered in between still counts.
  `ClusterElection.HonestExactly`: every count is at every moment of a run a count of votes cast for its slave in its
  epoch if and only if no vote that counts arrives in that window (`NoStaleVote`). `ClusterElection.ElectionSafety`
  proves safety for runs without such votes, and `ClusterElection.StaleVotesElectTwo` gives, for every set of voters of
  which a majority is up, a run in which two slaves win the same epoch.
- **Bucket numbers.** `_dictKeyIndex` returns a bucket number as a C int. `Dict.IndexIsInt` shows that this is
  faithful if and only if the table has at most 2^31 buckets. Insertion is stated for dictionaries whose table being
  filled, after the growth the insertion itself causes, is within that bound (`DictOps.IntFits`); it stays there up
  to 2^29 keys (`DictOps.FewKeysFit`).
- **Claims with equal epochs.** The owner of a slot is independent of the order of delivery if and only if no two
  claimants share the greatest epoch (`ClusterClaims.ConvergesExactly`).

## Assumptions about the environment

- Elections: no restart and no hard reset during a run; for each epoch all nodes agree which masters serve slots
  (`Voters`); messages may be delayed, reordered and, for requests, repeated, but an acknowledgement is delivered
  at most once.
- Epochs: packets are believed only from known nodes past the handshake. The code would also take the news of an
  UPDATE from a sender still in handshake without raising the current epoch first.
- Rewriting: what the child dumps rebuilds the dataset it was forked from; a read from a pipe that holds data returns
  some of it.
- Hash functions, the clock, random delays, and the results of write, ftruncate, rename, open, pipe and fork are
  parameters or arbitrary choices.

## Model

| member | source | states |
|---|---|---|
| `Cursor.Reverse` | redis-stable/src/dict.c:755-763 | the swapping loop with its mask computed on the way ends with the word read backwards (`Rev`) |
| `Cursor.RevBit` | redis-stable/src/dict.c:755-763 | bit i of the reversed word is bit 63-i of the original, for every i |
| `Cursor.NextCovers` | redis-stable/src/dict.c:908-917 | the increment of the reversed cursor skips no hash that is still ahead and in another bucket, for any power-of-two table |
| `Cursor.NextAdvances` | redis-stable/src/dict.c:908-917 | in reversed-bit order the cursor strictly grows until it is 0, so every scan ends |
| `Cursor.NextInMask` | redis-stable/src/dict.c:908-917 | the returned cursor has no bit outside the mask |
| `Cursor.NextLeast` | redis-stable/src/dict.c:908-917 | it is the first bucket after the one at the cursor, in the cursor's order: no bucket lies between |
| `Cursor.ExpansionCovers` | redis-stable/src/dict.c:892-905 | the inner loop over the larger table reaches every bucket that holds a hash still ahead, when the cursor bits in m0^m1 are a run of low ones |
| `Cursor.ExpansionMisses` | redis-stable/src/dict.c:892-905 | otherwise there is a hash, still ahead, whose bucket the inner loop passes over |
| `Cursor.ReachedExactly` | redis-stable/src/dict.c:892-905 | the inner loop reaches every bucket still ahead if and only if the cursor bits in m0^m1 are a run of low ones (`Expandable`) |
| `Cursor.NoExpansionBits` | redis-stable/src/dict.c:892-905 | a cursor without a bit in m0^m1 meets that condition |
| `Cursor.DoubledMask` | redis-stable/src/dict.c:892-905 | tables that differ by a factor of two meet that condition for every cursor |
| `Cursor.ReachedStep` | redis-stable/src/dict.c:892-905 | one turn of the inner loop: what it has covered is exactly what lies before the advanced cursor |
| `DictModel.LookupFinds` | redis-stable/src/dict.c:489-508 | searching one bucket finds the entry with the key exactly when the table holds one, and returns that entry |
| `DictModel.SlotIs` | redis-stable/src/dict.c:974-974 | the bucket of a key is its hash modulo the number of buckets |
| `DictModel.PushAdds` | redis-stable/src/dict.c:359-364 | linking a new entry at the head of its bucket keeps the table well formed and adds exactly that entry |
| `DictModel.UnlinkRemoves` | redis-stable/src/dict.c:409-444 | unlinking removes exactly that entry and keeps every other one in its bucket |
| `DictRehash.MoveBucketKeeps` | redis-stable/src/dict.c:259-274 | moving one bucket keeps the set of entries, the empty prefix of the old table and the two counters |
| `DictRehash.SkipStaysInside` | redis-stable/src/dict.c:254-257 | while the old table holds entries the search for a non-empty bucket stops inside it, so the assertion holds and no index passes ht[0].size |
| `DictRehash.RehashLoopKeeps` | redis-stable/src/dict.c:245-288 | the whole loop keeps the rehashing invariant and the entries |
| `DictRehash.RehashLoopWork` | redis-stable/src/dict.c:245-288 | a call moves at most n buckets and passes at most 10n empty ones; it stops early exactly when the visits are used up |
| `DictRehash.RehashKeeps` | redis-stable/src/dict.c:245-288 | dictRehash, growing or shrinking, with any n, keeps the invariant, every entry and the total count |
| `DictRehash.RehashWork` | redis-stable/src/dict.c:245-288 | a call with n that leaves something to do has moved exactly n non-empty buckets, or fewer and passed exactly 10n empty ones; otherwise the second table has become the first |
| `DictRehash.RehashCompletes` | redis-stable/src/dict.c:245-288 | repeated calls with positive n end with one table, after at most size - rehashidx calls, holding the same entries |
| `DictOps.NextPowerLeast` | redis-stable/src/dict.c:945-955 | _dictNextPower returns the least power of two, from the start value on, that is not below the size |
| `DictOps.ExpandKeeps` | redis-stable/src/dict.c:204-234 | dictExpand keeps the entries and succeeds exactly when it is not rehashing, the size holds what is stored, and the table size changes |
| `DictOps.ExpandIfNeededKeeps` | redis-stable/src/dict.c:923-942 | _dictExpandIfNeeded never fails, keeps the entries and leaves a table to insert into |
| `DictOps.GrowsExactly` | redis-stable/src/dict.c:923-942 | a rehash starts exactly when used >= size and resizing is on or used / size > 5, into at least twice and less than four times as many buckets as entries (or four); nothing else changes the table, and a full table never stays |
| `DictOps.SearchFinds` | redis-stable/src/dict.c:489-508 | looking in both tables finds the entry with the key exactly when the dictionary stores one, mid-rehash included |
| `DictOps.StepMoves` | redis-stable/src/dict.c:317-319 | with no iterator registered each step moves the next non-empty bucket, or passes ten empty ones, or ends the rehash |
| `DictOps.UniqueEntry` | redis-stable/src/dict.c:346-369 | no key has two entries, in whichever tables they are |
| `DictOps.InsertAdds` | redis-stable/src/dict.c:359-364 | insertion into the table being filled keeps the invariant and adds exactly the new entry |
| `DictOps.RemoveRemoves` | redis-stable/src/dict.c:409-444 | removal keeps the invariant and takes away exactly the entry found |
| `DictScan.ScanStep` | redis-stable/src/dict.c:849-918 | one dictScan call emits an entry still ahead of the cursor, or leaves it ahead of the cursor it returns |
| `DictScan.ScanBlock` | redis-stable/src/dict.c:849-918 | one call emits only entries in the bucket at the cursor and its expansions, and all of them when the cursor has no bits between the masks |
| `DictScan.ScanEmpty` | redis-stable/src/dict.c:849-918 | a scan of an empty dictionary emits nothing and is over at once |
| `DictScan.ScanCoverage` | redis-stable/src/dict.c:849-918 | over a whole scan, with any changes to the table between calls, a key stored throughout is emitted, if each call that finds two tables meets the condition on the cursor |
| `DictScan.ScanAdvances` | redis-stable/src/dict.c:849-918 | each returned cursor is 0 or strictly later, whatever the table looks like |
| `DictScan.ScanStepMisses` | redis-stable/src/dict.c:892-905 | when the condition fails there is a hash, still ahead, whose bucket the call neither walks nor leaves ahead of the cursor it returns: it stays missed while the smaller table keeps its size |
| `DictScan.ScanCanMiss` | redis-stable/src/dict.c:849-918 | a whole scan, during a shrink from 16 buckets to 4, that never emits an entry present throughout |
| `DictIter.NextTakes` | redis-stable/src/dict.c:575-608 | dictNext returns an entry still ahead and takes exactly it from what is ahead, or returns NULL exactly when nothing is |
| `DictIter.IterationTakes` | redis-stable/src/dict.c:575-608 | over any run of finds, adds and deletions of the entry just returned, an entry stored throughout is either returned once or still ahead |
| `DictIter.IterationOnce` | redis-stable/src/dict.c:568-619 | a safe iteration that runs to its end returns every entry stored from first to last exactly once, even if an add starts a rehash |
| `DictIter.SizeCounts` | redis-stable/src/dict.h:146-146 | the two used counters together are the number of entries |
| `DictIter.RegisteredUpdates` | redis-stable/src/dict.c:317-319 | with an iterator registered no lookup or update moves a bucket: the rehash step of every operation does nothing, a deletion only unlinks the entry, an addition only links it after growing the table if needed |
| `Dict.Dict.Size` | redis-stable/src/dict.h:146-146 | dictSize is the size of the map |
| `Dict.Dict.MoveBucketAt` | redis-stable/src/dict.c:259-274 | the loop that relinks one bucket is exactly `MoveBucket` |
| `Dict.Dict.SkipEmpty` | redis-stable/src/dict.c:254-257 | the loop over empty buckets is exactly `Skip` and stays inside the table |
| `Dict.Dict.Rehash` | redis-stable/src/dict.c:245-288 | dictRehash is exactly `Rehash`, with the counters kept; the result says whether more is left |
| `Dict.Dict.Expand` | redis-stable/src/dict.c:204-234 | dictExpand is exactly `Expand` |
| `Dict.Dict.ExpandIfNeeded` | redis-stable/src/dict.c:923-942 | _dictExpandIfNeeded is exactly `ExpandIfNeeded`, whose triggers and sizes `DictOps.GrowsExactly` gives |
| `Dict.Dict.KeyIndex` | redis-stable/src/dict.c:963-985 | -1 exactly for a stored key, else the bucket of the table being filled, as a C int; only that table has to have its bucket numbers within one |
| `Dict.Dict.Find` | redis-stable/src/dict.c:489-508 | finds the entry of a key of the map, NULL for any other key; the map is unchanged |
| `Dict.Dict.AddRaw` | redis-stable/src/dict.c:346-369 | NULL exactly for a stored key; otherwise one fresh entry more |
| `Dict.Dict.Add` | redis-stable/src/dict.c:322-329 | fails exactly when the key is present; otherwise the map gains the pair |
| `Dict.Dict.Replace` | redis-stable/src/dict.c:375-394 | the map ends with the key bound to the value; the result says whether the key is new |
| `Dict.Dict.Delete` | redis-stable/src/dict.c:409-444 | succeeds exactly when the key is present; the map loses exactly that key |
| `Dict.Dict.Scan` | redis-stable/src/dict.c:849-918 | the buckets walked are exactly the set `Scanned`, the cursor returned exactly `ScanNext` |
| `Dict.IndexIsInt` | redis-stable/src/dict.c:963-985 | every bucket number is a non-negative C int if and only if the table has at most 2^31 buckets |
| `DictOps.FewKeysFit` | redis-stable/src/dict.c:923-942 | with at most 2^29 keys the table being filled stays within the bucket numbers a C int can hold |
| `DictIterator.SafeIterator.Next` | redis-stable/src/dict.c:575-608 | the iterator object, with its nextEntry pointer, steps exactly as `DictIter.Next`, and registers itself once |
| `DictIterator.SafeIterator.Release` | redis-stable/src/dict.c:610-619 | a used iterator is unregistered once, an unused one not at all |
| `HllRegisters.PatLen` | redis-stable/src/hyperloglog.c:444-470 | the loop ends, with the register index and a count that is the position of the first set bit above the index bits |
| `HllRegisters.IndexIs` | redis-stable/src/hyperloglog.c:460-460 | the register is the hash modulo 16384 |
| `HllRegisters.EveryRegister` | redis-stable/src/hyperloglog.c:460-460 | every register is selected by some hash |
| `HllRegisters.Run` | redis-stable/src/hyperloglog.c:461-466 | every count is from 1 to 50 |
| `HllRegisters.RunIsFirst` | redis-stable/src/hyperloglog.c:461-466 | all bits before the counted one are clear and, below 50, the counted one is set |
| `HllRegisters.FillPowers` | redis-stable/src/hyperloglog.c:974-982 | the table holds the negative powers of two |
| `HllRegisters.WeightHalves` | redis-stable/src/hyperloglog.c:974-982 | an empty register weighs 1, and each step up halves the weight |
| `HllDense.GetPut` | redis-stable/src/hyperloglog.c:337-358 | a 6-bit register reads back the value stored in it, and a store changes no other register |
| `HllDense.TerminatorKept` | redis-stable/src/hyperloglog.c:330-333 | writing the last register leaves the byte after the array as it was |
| `HllDense.PutRegisters` | redis-stable/src/hyperloglog.c:349-358 | a store into the packed bytes is an update of the register array |
| `HllDense.SetRegister` | redis-stable/src/hyperloglog.c:349-358 | the four byte assignments change exactly one register, and not the terminator |
| `HllDense.Add` | redis-stable/src/hyperloglog.c:485-498 | the register of the element is raised to the maximum; 1 is returned exactly when it grew |
| `HllDense.FourRegisters` | redis-stable/src/hyperloglog.c:516-532 | the unrolled expressions read the same registers as the access macro |
| `HllDense.Sum` | redis-stable/src/hyperloglog.c:504-558 | the unrolled loop sums 2^-reg over all registers and counts the zero ones |
| `HllSparse.ReadVal` | redis-stable/src/hyperloglog.c:370-377 | a VAL opcode reads back the value and length written |
| `HllSparse.ReadXZero` | redis-stable/src/hyperloglog.c:369-385 | an XZERO opcode reads back the length written, over its two bytes |
| `HllSparse.Concat` | redis-stable/src/hyperloglog.c:588-611 | the registers of two opcode strings one after the other are their registers one after the other |
| `HllSparse.Locate` | redis-stable/src/hyperloglog.c:663-692 | finds the opcode covering the register, its first register, and the opcode before it |
| `HllSparse.SplitZeros` | redis-stable/src/hyperloglog.c:768-793 | the new opcodes stand for the same zeros with one register set, each run of zeros in its shortest opcode |
| `HllSparse.SplitVal` | redis-stable/src/hyperloglog.c:793-810 | the new opcodes stand for the same run with one register set, with one opcode on each side that is not empty |
| `HllSparse.NewOps` | redis-stable/src/hyperloglog.c:768-810 | the opcodes in place of the one found stand for its run with one register set, and take exactly the bytes `Growth` says |
| `HllSparse.Spliced` | redis-stable/src/hyperloglog.c:810-826 | after a split at most five opcodes, from the one before the edit to the last new one, can be mergeable |
| `HllSparse.MergeValues` | redis-stable/src/hyperloglog.c:826-863 | merging changes no register, never lengthens the string, and its scan of five opcodes is enough: nothing mergeable is left when only the edited place was unsettled |
| `HllSparse.Rewrite` | redis-stable/src/hyperloglog.c:658-863 | every case of the in-place update raises exactly one register, and a string with nothing to merge stays one; it gives up exactly when the opcode concerned has to grow (`Growth`) beyond the limit |
| `HllSparse.Sum` | redis-stable/src/hyperloglog.c:888-918 | the sum over runs is the sum over registers, with the same zero count, and a valid string is never reported invalid |
| `HllRaw.MergeSparse` | redis-stable/src/hyperloglog.c:1044-1083 | merging a sparse value raises each register of the array to the maximum |
| `HllRaw.MergeDense` | redis-stable/src/hyperloglog.c:1044-1053 | merging a dense value raises each register of the array to the maximum |
| `HllRaw.Sum` | redis-stable/src/hyperloglog.c:928-954 | the word-at-a-time sum, with its shortcut for zero words, is the sum over registers |
| `Hll.Hll.constructor` | redis-stable/src/hyperloglog.c:1089-1119 | a new value is one XZERO opcode standing for 16384 zero registers |
| `Hll.Hll.ToDense` | redis-stable/src/hyperloglog.c:568-620 | conversion of a valid value succeeds and preserves every register |
| `Hll.Hll.Promote` | redis-stable/src/hyperloglog.c:868-881 | the addition after promotion always changes a register, so the assertion never fails |
| `Hll.Hll.SparseAdd` | redis-stable/src/hyperloglog.c:638-882 | whatever the size limit, the result stands for the old registers with one raised to the maximum; the value becomes dense exactly when the count exceeds 32 or the new opcodes the limit; -1 is never returned |
| `Hll.Hll.Add` | redis-stable/src/hyperloglog.c:1027-1034 | the same on either encoding |
| `Hll.Hll.MergeInto` | redis-stable/src/hyperloglog.c:1044-1083 | the array becomes the pointwise maximum; a valid value is never refused |
| `Hll.Hll.Sum` | redis-stable/src/hyperloglog.c:985-994 | sum and zero count are those of the registers, whatever the encoding |
| `HllCommands.PfAdd` | redis-stable/src/hyperloglog.c:1155-1192 | the registers are raised by every element; the reply is 1 exactly when the key is new or a register grew; the cached count survives only then unchanged |
| `HllCommands.PfCountSum` | redis-stable/src/hyperloglog.c:1200-1228 | the sum for several keys is the sum of their union |
| `HllCommands.PfMerge` | redis-stable/src/hyperloglog.c:1285-1343 | the destination, itself a source, ends dense with the pointwise maximum of all sources, with its cached count dropped |
| `HllCommands.GrowthStays` | redis-stable/src/hyperloglog.c:1155-1192 | a register that grew never returns to its old value |
| `HllLaws.HistoryIndependent` | redis-stable/src/hyperloglog.c:638-882 | additions of the same set of elements, in any order and however often, leave the same registers |
| `HllLaws.UnionLaw` | redis-stable/src/hyperloglog.c:1044-1083 | merging the values of two sets gives the value of their union |
| `HllLaws.JoinLaws` | redis-stable/src/hyperloglog.c:1044-1083 | merging is commutative, associative and idempotent |
| `HllLaws.RunTracks` | redis-stable/src/hyperloglog.c:1155-1343 | after any run of PFADD and PFMERGE over any keys each key summarises exactly the elements that reached it |
| `HllLaws.SameSetsSameRegisters` | redis-stable/src/hyperloglog.c:1155-1343 | keys, even of different runs, that the same elements reached have equal registers |
| `AofFormat.CatGenericCommand` | redis-stable/src/aof.c:435-458 | the printed text is the array header followed by every argument with its length |
| `AofFormat.DigitsAreDigits` | redis-stable/src/aof.c:435-458 | a printed number is digits only, without a leading zero, and reads back as the number |
| `AofLoader.WholeHeader` | redis-stable/src/aof.c:639-648 | fgets and atoi read a printed header line back exactly |
| `AofLoader.CutHeader` | redis-stable/src/aof.c:639-648 | a header cut anywhere is read as the rest of the file, and what shows of a positive number is positive |
| `AofLoader.WholeCommand` | redis-stable/src/aof.c:639-674 | a printed command is read back, with what follows it left unread |
| `AofLoader.CutCommand` | redis-stable/src/aof.c:639-674 | a command cut anywhere is a short read, never a format error |
| `AofLoader.WholeArg` | redis-stable/src/aof.c:660-673 | a printed argument is read back, with what follows it left unread |
| `AofLoader.CutArg` | redis-stable/src/aof.c:660-673 | an argument cut anywhere is a short read, never a format error |
| `AofLoader.LoadCommand` | redis-stable/src/aof.c:639-674 | the loop over the arguments, step by step with each of its error exits, reads what the recursive reader of the laws below reads |
| `AofLoader.LoadAppendOnlyFile` | redis-stable/src/aof.c:599-748 | what runs, what is kept of the file, and which exit is taken, for every file: the function `Outcome`, fixed by the four rows below and `LoadInvertsPrint` |
| `AofLoader.DamageExits` | redis-stable/src/aof.c:599-748 | a log followed by bytes that no cut explains (another mark, a count below one, an argument without its mark) ends the process as a format error after exactly the commands before them, whatever the settings |
| `AofLoader.UnknownExits` | redis-stable/src/aof.c:599-748 | so does a command the server does not have, as an unknown one |
| `AofLoader.CutOutcome` | redis-stable/src/aof.c:599-748 | a log cut after any number of bytes is refused exactly when the cut falls inside a command and truncation is off or fails |
| `AofLoader.WholeIsGreatest` | redis-stable/src/aof.c:599-748 | `Whole` is the greatest number of commands that lie wholly in the first k bytes |
| `AofLoader.TruncatedTail` | redis-stable/src/aof.c:599-748 | a log cut after any number of bytes: exactly the commands wholly inside run, no format error, and the file is cut after the last of them |
| `AofLoader.LoadInvertsPrint` | redis-stable/src/aof.c:435-458 | loading a whole printed log runs exactly its commands |
| `AofBuffer.Block.Copy` | redis-stable/src/aof.c:133-135 | bytes are appended to a block within its free space |
| `AofBuffer.Block.Drain` | redis-stable/src/aof.c:115-116 | the bytes left move to the front; free space is not given back |
| `AofBuffer.RewriteBuffer.Size` | redis-stable/src/aof.c:78-89 | the size is the number of bytes held |
| `AofBuffer.RewriteBuffer.Append` | redis-stable/src/aof.c:123-167 | the buffer ends with exactly the bytes added; old blocks stay in place; the loop ends |
| `AofBuffer.RewriteBuffer.WriteDiffData` | redis-stable/src/aof.c:94-120 | for every sequence of write results, bytes sent followed by bytes held are unchanged; nothing is sent once sending is stopped, and otherwise only a write that takes nothing leaves something |
| `AofBuffer.RewriteBuffer.WriteAll` | redis-stable/src/aof.c:172-192 | success exactly when every write is whole, and then exactly the whole buffer is appended; on failure a proper prefix |
| `AofProtocol.FlushConserves` | redis-stable/src/aof.c:273-433 | for every outcome of write and ftruncate, file followed by buffer is unchanged, the recorded size is the file length, and exactly what was written and not undone has moved to the file |
| `AofProtocol.FeedTracks` | redis-stable/src/aof.c:497-545 | leaving out a SELECT is sound: the replaying client has that database selected already |
| `AofProtocol.SelectsOnce` | redis-stable/src/aof.c:497-545 | a SELECT is logged when the database changes, and only then |
| `AofProtocol.InstallExact` | redis-stable/src/aof.c:1364-1506 | the new file is the dump followed by every byte fed since the fork, in order, wherever the split between sent and kept bytes fell |
| `AofProtocol.SendAfterExitLoses` | redis-stable/src/aof.c:1186-1207 | without the stop flag a byte sent after the last read of the child would be missing from the new file |
| `AofProtocol.StepKeeps` | redis-stable/src/aof.c:1135-1153 | every step of parent and child keeps the invariant on log, buffers, pipes and handshake: no acknowledgement is in its pipe, and no last read is made, unless the sending has stopped |
| `AofProtocol.RunKeeps` | redis-stable/src/aof.c:1135-1153 | so does every run |
| `AofProtocol.Recovery` | redis-stable/src/aof.c:599-748 | from any state satisfying the invariant and after any run with the log on, the log replays to the current dataset, and the file alone loads as a prefix of it |
| `AofProtocol.Starts` | redis-stable/src/aof.c:599-748 | a server that has never logged, and one that has just loaded its file, satisfy the invariant |
| `AofProtocol.CrashBoots` | redis-stable/src/aof.c:599-748 | a crash at any moment of a run and a start that loads the file lead to such a state again, whose log is a prefix of the log before the crash |
| `AofServer.SelectText` | redis-stable/src/aof.c:503-509 | the text written for a SELECT is what the printer prints for it |
| `AofServer.AofServer.Feed` | redis-stable/src/aof.c:497-545 | the bytes of the command, with a SELECT when the database changed, reach the buffer and the rewrite buffer |
| `AofServer.WriteBuffer` | redis-stable/src/aof.c:311-404 | one write and the repair of a short one are exactly `FlushFiles` |
| `AofServer.AofServer.Flush` | redis-stable/src/aof.c:273-433 | for every result of write and ftruncate: when it postpones, when it writes and how much stays in the file, when the server exits; on no path is a byte lost or repeated |
| `AofServer.AofServer.SendDiff` | redis-stable/src/aof.c:94-120 | some prefix of the rewrite buffer enters the pipe, none of it after the stop, and all of it unless a write takes nothing |
| `AofServer.AofServer.PipeReadable` | redis-stable/src/aof.c:1186-1207 | the byte in the child's pipe is read, the sending stops, and only then the answer is written: the two steps `HeedEvent` and `AckEvent`, in that order, or the first alone when the write fails |
| `AofServer.AofServer.SendAck` | redis-stable/src/aof.c:1195-1195 | the answer is written only by a parent that has stopped, and only once |
| `AofServer.RewriteChild.AskToStop` | redis-stable/src/aof.c:1135-1136 | the child's request enters its pipe, or nothing changes |
| `AofServer.RewriteChild.AwaitAck` | redis-stable/src/aof.c:1139-1143 | the child goes on exactly when the parent's answer is in the pipe |
| `AofServer.AofServer.RewriteBackground` | redis-stable/src/aof.c:1269-1321 | a successful fork is the protocol step, with new pipes; a refused one changes nothing, and a failed one leaves empty pipes |
| `AofServer.AofServer.StartAppendOnly` | redis-stable/src/aof.c:235-252 | the log waits for the first rewrite exactly when the file opened and the fork succeeded; each failure leaves it off, with the descriptor the code leaves |
| `AofServer.AofServer.RewriteDone` | redis-stable/src/aof.c:1364-1506 | the new file, the child's followed by all held differences, is installed exactly when all calls succeed; otherwise log, buffer and state are untouched; either way the rewrite state is cleared |
| `AofServer.AofServer.StopAppendOnly` | redis-stable/src/aof.c:206-231 | for every result of the one flush: the log is off and a running rewrite abandoned, or the failed write ends a server that syncs always |
| `AofServer.RewriteChild.ReadDiff` | redis-stable/src/aof.c:1002-1012 | everything in the pipe is appended to the differences, in order |
| `AofServer.RewriteChild.Finish` | redis-stable/src/aof.c:1146-1168 | success exactly when the whole of the differences is written and the rename works: the file is then the dump followed by all of them, the protocol's exit; otherwise it is unlinked |
| `ClusterBitmap.SetBitAt` | redis-stable/src/cluster.c:3337-3341 | setting a bit changes that bit and no other |
| `ClusterBitmap.ClearBitAt` | redis-stable/src/cluster.c:3344-3348 | clearing a bit changes that bit and no other |
| `ClusterNodes.ClusterNode.SetSlotBit` | redis-stable/src/cluster.c:3351-3356 | the bit is set, the counter follows exactly when it was clear |
| `ClusterNodes.ClusterNode.ClearSlotBit` | redis-stable/src/cluster.c:3359-3364 | the bit is cleared, the counter follows exactly when it was set |
| `ClusterNodes.ClusterNode.RemoveSlave` | redis-stable/src/cluster.c:776-793 | exactly that slave leaves the list |
| `ClusterNodes.ClusterNode.AddSlave` | redis-stable/src/cluster.c:795-807 | a slave is never listed twice |
| `ClusterState.Cluster.AddSlot` | redis-stable/src/cluster.c:3375-3380 | an unassigned slot gets the owner, an assigned one is refused; table, bitmaps and counters agree |
| `ClusterState.Cluster.DelSlot` | redis-stable/src/cluster.c:3385-3392 | the slot is unassigned; the assertion on the bitmap never fails |
| `ClusterState.Cluster.DelNodeSlots` | redis-stable/src/cluster.c:3396-3404 | exactly the slots of the node become unassigned |
| `ClusterState.Cluster.SetNodeAsMaster` | redis-stable/src/cluster.c:1409-1423 | the node leaves its master's list; all invariants hold |
| `ClusterState.Cluster.SetMaster` | redis-stable/src/cluster.c:3595-3611 | both assertions hold at every call; links stay symmetric, and a manual failover in progress is dropped |
| `ClusterState.Cluster.AddNode` | redis-stable/src/cluster.c:843-849 | a node joins the table exactly when its name is not in it, with configuration epoch 0 |
| `ClusterState.Cluster.ProcessRole` | redis-stable/src/cluster.c:1757-1785 | a role switch in a packet keeps all invariants; a master turned slave loses exactly its slots |
| `ClusterState.Cluster.RebindSlots` | redis-stable/src/cluster.c:1460-1493 | a slot moves to the claimant exactly when it is claimed, not imported here, and unassigned or served under a smaller epoch; slot by slot this is the step of `ClusterClaims` |
| `ClusterState.Cluster.UpdateSlotsConfigWith` | redis-stable/src/cluster.c:1436-1524 | this node becomes the claimant's slave exactly when its master lost its last slot to it; otherwise the keys of exactly the lost slots are deleted |
| `ClusterState.Cluster.FailoverReplaceYourMaster` | redis-stable/src/cluster.c:2657-2685 | exactly the old master's slots move to the promoted slave |
| `ClusterState.Cluster.DelNode` | redis-stable/src/cluster.c:862-889 | the node's slots become unassigned and nothing points to it any more |
| `ClusterState.Cluster.CountersAgree` | redis-stable/src/cluster.c:3330-3404 | every numslots is the number of bits set, and together they are the number of assigned slots |
| `ClusterState.Cluster.GetMaxEpoch` | redis-stable/src/cluster.c:925-938 | the greatest epoch known, the `IsMaxEpoch` of `ClusterEpochs`; under the epoch bound it is the current epoch |
| `ClusterState.Cluster.BumpConfigEpochWithoutConsensus` | redis-stable/src/cluster.c:969-986 | acts exactly when needed; the new epoch is strictly above every other one known, and is what `ClusterEpochs.TakeEpoch` takes |
| `ClusterState.Cluster.HandleConfigEpochCollision` | redis-stable/src/cluster.c:1034-1049 | exactly the master with the smaller name moves on, strictly above every epoch it knows, as `ClusterEpochs.TakeEpoch` does |
| `ClusterState.Cluster.ProcessHeader` | redis-stable/src/cluster.c:1596-1603 | epochs only rise and the epoch bound is kept; it is the step `See` of the three cluster-wide models |
| `ClusterState.Cluster.ProcessUpdate` | redis-stable/src/cluster.c:1952-1965 | news is taken only if newer, as `ClusterEpochs.Learn` takes it; then every slot has the owner that `ClusterClaims.Claim` gives it, this node follows the claimant exactly when its master lost its last slot, and otherwise the keys of exactly the lost slots are deleted |
| `ClusterState.Cluster.ProcessConfig` | redis-stable/src/cluster.c:1757-1870 | the configuration part of a packet keeps all invariants; every slot has the owner that `ClusterClaims.Claim` gives it, or none if its master was demoted; this node follows the sender exactly when its master lost its last slot, and otherwise the keys of exactly the lost slots are deleted; the sender hears of a newer owner exactly when a slot it claims has one (a slave, when moreover its claim differs from its master's slots); a collision makes the smaller name take a new epoch |
| `ClusterState.Cluster.SendFailoverAuthIfNeeded` | redis-stable/src/cluster.c:2457-2557 | the vote is granted exactly under the stated rules, and then this epoch is used up; over all votes so far epochs grow, and votes for slaves of one master are twice the timeout apart (`GrantInv`) |
| `ClusterState.Cluster.ReceiveAck` | redis-stable/src/cluster.c:1921-1927 | the vote is counted exactly when it comes from a master with slots and its epoch is not before the election |
| `ClusterState.Cluster.UpdateSize` | redis-stable/src/cluster.c:3471-3479 | the size is the number of masters serving slots |
| `ClusterState.Cluster.HandleSlaveFailover` | redis-stable/src/cluster.c:2695-2860 | clock and state decide the answer, each result exactly under its condition, and what becomes of the start time and rank of the attempt; each is one step of the election model; winning takes exactly the old master's slots |
| `ClusterElection.QuorumIsMajority` | redis-stable/src/cluster.c:2840-2856 | a quorum reached without stale votes is a majority of the voters of that epoch |
| `ClusterElection.OneWinner` | redis-stable/src/cluster.c:2840-2856 | two such quorums for one epoch belong to the same slave |
| `ClusterElection.StepKeeps` | redis-stable/src/cluster.c:2457-2557 | every step of the cluster keeps the invariant on votes, acknowledgements and counts |
| `ClusterElection.ElectionSafety` | redis-stable/src/cluster.c:2826-2856 | in every run without a stale vote two different slaves never both win the same epoch |
| `ClusterElection.HonestExactly` | redis-stable/src/cluster.c:2768-2769 | every count is at every moment a count of distinct votes of its epoch if and only if no counting vote is delivered between the clearing of the count and the request that takes the epoch |
| `ClusterElection.StaleVotesElectTwo` | redis-stable/src/cluster.c:2768-2829 | for every set of voters with a majority up, a run of that majority and two slaves in which votes of the previous attempt, delivered in that window, let both win the same epoch |
| `ClusterEpochs.StepKeeps` | redis-stable/src/cluster.c:1596-1603 | every step of the cluster keeps every known and transmitted configuration epoch at or below the current epoch beside it, and no epoch decreases |
| `ClusterEpochs.RunKeeps` | redis-stable/src/cluster.c:1596-1603 | so does every run: the bound holds, no current or election epoch decreases, and no configuration epoch decreases at a node that goes on knowing it |
| `ClusterEpochs.CurrentIsMax` | redis-stable/src/cluster.c:925-938 | after any run the greatest epoch a node finds is its current one, and the one it takes is strictly above all it knows |
| `ClusterClaims.GreatestOwns` | redis-stable/src/cluster.c:1436-1524 | an unassigned slot ends with the claimant of the greatest epoch, for every order and repetition of the claims |
| `ClusterClaims.ConvergesExactly` | redis-stable/src/cluster.c:1436-1524 | all nodes and all orders agree on the owner if and only if no two claimants share the greatest epoch |
| `ClusterClaims.OwnerOnlyRises` | redis-stable/src/cluster.c:1470-1475 | an owned slot keeps its owner or passes to a strictly greater epoch |
| `ClusterClaims.ImportingStays` | redis-stable/src/cluster.c:1464-1468 | a slot being imported is never moved by a claim |

## Left out

- The `next` pointers inside a bucket: a bucket is a sequence of entry objects, so relinking is an update of that sequence; sharing of a chain by two buckets is excluded by construction.
- Unsafe iterators and their fingerprint, random keys, dictRehashMilliseconds, dictResize, dictEmpty, key and value destructors, and sizes at or above LONG_MAX in `dict.c`.
- dictRehash with a negative count, which its callers never pass.
- The hash functions themselves: a hash is an arbitrary function to 32 bits, and MurmurHash64A an arbitrary function to 64 bits.
- The cardinality estimate, its bias correction, and floating-point rounding of the sums.
- Sparse strings that are not valid encodings: the error exits for them are outside the proofs.
- The header bytes of a HyperLogLog value other than its encoding and whether the cached count is valid.
- Translation of expire times into PEXPIREAT: commands enter the log already translated.
- MULTI and EXEC during loading, and the refusal to truncate a log that ends inside a transaction.
- Numbers in a damaged log that do not fit the C types.
- Read errors other than the end of the file while loading, and a negative argument length, which ends the process; it is counted as a format error.
- Printing: lengths and counts within the C types (fewer than 2^63 bytes, fewer than 2^31 arguments) are assumed where a log is loaded back.
- How the child dumps the dataset (strings, lists, sets, sorted sets and hashes); only that the dump rebuilds it matters here.
- fsync, fsync threads, and what survives a power loss.
- A startAppendOnly that fails after opening the file leaves a closed descriptor number in aof_fd. That aof_fd is then not -1, and what follows from it, is in the model (`fd`); what another file opened under that number would suffer is not.
- AofServer.RewriteChild.ReadDiff: the parent does not write between two reads of one call; in `AofProtocol` every read is an event of its own.
- The retries and time limits of the child's wait for the parent's answer: the answer is there when the time is over, or it is not.
- ClusterElection.ElectionSafety: one direction only, since a run with a miscounted vote need not elect two slaves; the condition is exact for the counts themselves (`HonestExactly`).
- Renaming of a node at the end of its handshake: the names of the nodes are fixed, and distinct as keys of their table.
- Wrap-around of the 64-bit epochs.
- Failure detection, gossip, handshakes by address, slave migration, replication offsets and ranks as more than a given delay, manual failover beyond its two flags, and the administrator's slot and epoch commands.
- The null pointer check missing in clusterUpdateSlotsConfigWith for a slave that does not know its master: the invariant `Roles` says this node always does, and the callers of clusterDelNode keep it so.
- Writing and locking of nodes.conf.
- The web application beside Redis (`server.js`, `controllers`, `models`), the event loop, networking, and the other commands.
