# Mini-KV, verified

A Dafny model of Mini-KV, an in-memory key-value store written in C: a chained hash table
with resizing, exact byte accounting, deadlines and sampled LRU eviction, an append-only log
with background compaction, a checksummed binary snapshot, sharded locks, a thread pool,
per-client command queues and a replica stream.

Almost every claim has the form "this layered, persisted or concurrent structure agrees with a
simple map". Three levels carry that:

1. `Spec` gives each command as a function on a map from keys to (string, sequence or set) with
   a deadline; `Laws` says what clients can rely on, answers against earlier answers. `Durability.Step`
   adds the log file and the rewrite buffer, both as bytes.
2. `Store.KvStore` is the C structure: buckets, counters, log, rewrite buffer, LRU clock, updated
   in place by loops. Every method is proved to be exactly one `Step`, for every hash function and
   every random generator; `Eviction` holds what sampled LRU eviction does to a table, `Recency` who
   counts as used when. `Runs` drives the methods through whole sequences of calls. `Chains` and `DList` do the same for the pointers (collision chains relinked in place, the
   doubly linked list), `RewriteBuffer` for the growing array.
3. On top of `Step`: whole runs with compactions, failed merges and restarts (`Compaction`), what a
   merge makes of a rewrite buffer that lost a piece (`TornBuffer`), snapshots (`Adler`, `Snapshot`),
   sweeps (`Expiry`), list order (`Queues`), replicas (`Framing`, `Replica`). Concurrency is modelled
   as step machines over arbitrary interleavings (`ThreadPool`, `Locks`, `Sharding`, `ClientQueue`).
   `Formats` spells out layouts and limits in numbers.

The environment is explicit. The clock, the outcome of every allocation, log write and file
operation, the random generator and the forked child's success are parameters or arbitrary choices,
so each result holds for all of them.

## Where the code does not keep a promise

Each item comes with the exact condition, as a guard that can be checked before the call, and with
a concrete input where the guard alone does not show one.

- Log recovery fails for values the line format cannot carry, for a list or set left empty by a
  failed node allocation, and for a list or set command, a PEXPIREAT or a PERSIST whose record could
  not be written (the result of the write is ignored there). `Durability.LogStep` is the exact
  condition.
- A merge whose rename or reopening fails leaves the log closed. Commands then answer OK and are
  lost by a restart: `Compaction.DetachedLogLosesWrites`, exactly those that change something:
  `Compaction.DetachedStep`. The next successful compaction repairs it: `Compaction.CompactionRepairs`.
- Compaction drops negative deadlines, which the uncompacted log keeps: `Compaction.DumpMirrors`,
  `Compaction.EventKeepsRecoverable`, with the input in `Compaction.NegativeDeadlineIsLost`.
  Snapshots drop the whole entry: `Snapshot.RoundTripExact`, `Snapshot.NegativeDeadlineNotSaved`.
- A record reaches the rewrite buffer in separate pieces. A failed reallocation drops everything
  buffered so far; the rest of the same record and all later records are buffered again and merged:
  `TornBuffer.RecsKept`. The merge is then faithful exactly when that rest, read as a line of its
  own, and the later records rebuild the live map from the one at the fork:
  `TornBuffer.LostBufferIff`. The rest can be a record in two cases only, when the key is the name of
  a command or the value starts with one and a tab: `TornBuffer.CutsThatParse`. In
  `TornBuffer.TornSetLosesKey` a SET that changes nothing deletes another key this way.
- SET and DELETE do not look at deadlines, so stores before and after a sweep differ exactly on the
  swept keys: `Expiry.SetTellsSweptApart`, `Expiry.DeleteTellsSweptApart`; a client sees OK and then
  nothing in `Expiry.SetOnExpiredIsLost`.
- A shard lock protects whole chains only for initial bucket counts of 32 to 64 or a multiple of
  64: `Sharding.ShardExclusion`. Otherwise two threads can be in one chain at once:
  `Locks.ChainExclusionIff`.
- No two threads ever touch the same chain, list, queue or log at once, except in two cases, and
  either makes it possible: `Locks.ExclusiveIff`. Under a budget SET, LPUSH and SADD test for room
  under their bucket lock and evict later, holding that lock only, if other threads have used the room
  in between, in `Locks.EvictionClashes`. And kv_sync flushes the log under its lock while a merge,
  which does not take that lock, closes it, in `Locks.SyncMeetsMerge`.
- Records are broadcast before the outcome is known, so a failing log write, a failing allocation
  or a full master makes a replica differ: `Replica.BroadcastAgreesIff`, `Replica.FailedSetDiverges`.
- A command refused by a full pool waits until a later task of the same client is accepted:
  `ClientQueue.PendingHasWorkerIff`, `ClientQueue.RefusalStalls`.
- A line of exactly 8192 bytes is accepted or refused depending on when its newline arrives:
  `Framing.LongestLineNeedsItsNewline`.
- SYNC detaches its connection, after which closing the client does nothing: it stays in the list
  with its reference and is not freed as long as the server runs, in `ClientQueue.DetachLeaks`. An
  ended connection is freed exactly when it was not detached: `ClientQueue.EndedFreedIff`,
  `ClientQueue.DetachedBy`.
- LPUSH and SADD never resize, so they can pass the load factor, in
  `Store.KvStore.PushBreaksLoadFactor`. They stay below it exactly when they add no key or one more
  still fits: the `PushFits` clause of `Store.KvStore.LPush` and `Store.KvStore.SAdd`.
- Under a budget, LPUSH and SADD may evict the container they are about to use and go on with its
  pointer, in `Store.KvStore.PushDangles` whatever the generator. It takes a node that the empty
  table has room for, but not the bucket of the key with all its other entries gone; for SADD also a
  value that is not a member. `Store.KvStore.LPush` and `Store.KvStore.SAdd` prove that nothing else
  dangles, and that this does for draws that hit the bucket, if opening the container needs no
  eviction outside it; `Store.KvStore.RoomFor` has both directions from the moment it is open.

## Model

| member | source | states |
|---|---|---|
| `Compaction.CompactionPreservesMeaning` | src/aof.c:259-405 | In every state of every safe run with a compaction under way, started with the log open or not, the child's dump followed by the rewrite buffer, the file on disk and the live map all agree, list order and deadlines included |
| `Compaction.RunRecoverable` | src/aof.c:259-420 | Through any number of commands, forks, merges that succeed or fail at any point, discards and restarts, the file at the log path, open or not, replays to the live map |
| `Compaction.EventKeepsRecoverable` | src/aof.c:259-420 | One event keeps the store recoverable if and only if it meets a guard on its arguments and the state before it; while the log is closed, only a command that changes nothing does |
| `Compaction.DetachedStep` | src/aof.c:382-391 | With the log closed after a failed merge, a command keeps the file on disk faithful if and only if it changes nothing, given as a guard |
| `Compaction.DetachedLogLosesWrites` | src/aof.c:382-391 | A failed rename, a SET that answers OK, a restart: the key is gone |
| `Compaction.ForkStartsCompacting` | src/aof.c:259-340 | A fork of any store with a log path, its file stale or closed, starts a faithful dump if and only if every entry fits the format |
| `Compaction.CommandKeepsCompacting` | src/kv.c:202-226 | A command keeps dump plus buffer faithful, log open or not, if and only if its records fit the format |
| `Compaction.CompactionRepairs` | src/aof.c:342-405 | Whatever the file on disk had come to, a faithful compaction, any fitting commands and a merge whose rename succeeds make the store recoverable again |
| `TornBuffer.LostBufferIff` | src/kv.c:202-226 | After a piece of a buffered record was lost, a merge is faithful if and only if, at every clock of the period, the rest of that record followed by the later ones takes the map at the fork to the live one |
| `TornBuffer.LossWithoutRecord` | src/kv.c:202-226 | If the rest cannot be read as a record, that is: if and only if the later records alone do |
| `TornBuffer.RecsKept` | src/kv.c:202-226 | Whichever allocations fail while any records are buffered piece by piece, what is left is everything, or a piece-boundary rest of one record followed by all later records |
| `TornBuffer.AppendRecord` | src/kv.c:611-615 | Appending a record to the growing array piece by piece comes to what `RecsKept` speaks of |
| `TornBuffer.CutsThatParse` | src/aof.c:36-131 | The rest of a record reads as a record only after the tag, when the key is a command's name, or after the second tab, when the argument starts with one and a tab |
| `TornBuffer.ReplayTorn` | src/aof.c:26-137 | Replaying the text of such a rest and later records applies what it reads as, then the later ones |
| `TornBuffer.TornSetDeletes` | src/kv.c:611-615 | With a key named DELETE, a SET that changes nothing and loses its first piece leaves the record of a DELETE |
| `TornBuffer.TornSetLosesKey` | src/kv.c:611-615 | After the merge and a restart the other key is gone |
| `Compaction.EmptyRecoverable` | src/kv.c:356-389 | A store opened on an empty log is recoverable, so the run theorems start somewhere |
| `Compaction.DumpMirrors` | src/aof.c:295-326 | The dump's text replays to the table it was made from, at every clock of the period, if and only if no entry was expired at the fork, an empty container, unfit for the line format, or had a negative deadline |
| `Compaction.DumpedExactly` | src/aof.c:295-326 | The dump's records rebuild the table if and only if no entry was expired, empty or had a negative deadline |
| `Compaction.ReplayDump` | src/aof.c:295-326 | Parsing and replaying the dump's text does what its records say, for all tables whose texts fit the line format |
| `Compaction.NegativeDeadlineIsLost` | src/aof.c:319-321 | A concrete table that compaction changes |
| `Compaction.LogIsSuccessfulRecords` | src/kv.c:721-745 | After any run the log is its old contents followed by exactly the records of the commands that went through, failed ones rolled back |
| `Laws.SetThenLook` | src/kv.c:547-673 | When SET answers OK, in numbers; GET then answers the value, EXISTS, LLEN, SCARD, SMEMBERS and PTTL as for a string with the old deadline, and all of them as for no key once that has passed |
| `Laws.SetRefusals` | src/kv.c:71-105 | Which error SET answers, each if and only if |
| `Laws.DeleteThenLook` | src/kv.c:767-792 | When DELETE answers OK, and that nothing of the key is seen afterwards |
| `Laws.LPushThenLook` | src/list.c:33-191 | LPUSH answers one more than LLEN before, and LLEN answers that afterwards |
| `Laws.PushRefusals` | src/list.c:68-156 | Which error LPUSH and SADD answer, each if and only if |
| `Laws.RPopThenLook` | src/list.c:193-261 | RPOP takes one from LLEN, the key going with the last; a failing one changes no answer |
| `Laws.SAddThenLook` | src/set.c:37-208 | SADD answers whether the value is new, and SCARD and SMEMBERS then have it |
| `Laws.SRemThenLook` | src/set.c:210-276 | SREM answers whether the value was a member, and SCARD and SMEMBERS then lack it, the key going with the last |
| `Laws.MembersCounted` | src/set.c:278-346 | SCARD counts what SMEMBERS lists |
| `Laws.PExpireAtThenLook` | src/eviction.c:38-97 | PEXPIREAT answers as EXISTS does; PTTL then counts down to it, and the other answers stay until it passes |
| `Laws.PersistThenLook` | src/eviction.c:107-131 | PERSIST answers 1 exactly if there was a deadline, and then there is none |
| `Laws.OtherKeysUntouched` | src/kv.c:179-200 | No command changes any answer about another key |
| `Laws.ReadingChangesNothing` | src/kv.c:747-831 | No reading command changes any later answer |
| `Laws.LastSetWins` | src/kv.c:593-617 | Over any run of any commands GET answers what the last SET that answered OK wrote, until a DELETE answers OK or the deadline passes |
| `Laws.LengthIsPushesMinusPops` | src/list.c:33-286 | Over any run LLEN is what it was plus the pushes minus the pops that answered |
| `Laws.MembersByHistory` | src/set.c:37-276 | Over any run a value is a member if the last SADD or SREM of it that answered was a SADD |
| `Laws.RecordText` | src/aof.c:179-242 | The text of every record, byte by byte |
| `Laws.RefusedExactly` | src/aof.c:179-236 | A logged SET with valid arguments is refused exactly if the disk fails or key and value have 4090 bytes or more |
| `Durability.LogStep` | src/kv.c:721-745 | One command keeps the log replaying to the live map if and only if a guard holds before the call: it is refused, or it strands no empty container and, if it succeeds, its text fits the format and its record fits the file (or repeats the deadline already there) |
| `Durability.RecsGuard` | src/kv.c:547-673 | Which commands leave a record, and which record, told from the map, the arguments and the allocations before the call |
| `Durability.RepeatableGuard` | src/list.c:110-156 | Which commands store something the log cannot repeat, told before the call |
| `Durability.IdleGuard` | src/kv.c:547-792 | Which commands leave the map exactly as it is, told before the call, for all commands |
| `Durability.RewriteStep` | src/kv.c:202-226 | The same for dump plus rewrite buffer, which has no record size limit and no failing disk |
| `Durability.UnrepeatableHasNoMirror` | src/aof.c:19-24 | A stored text with a newline or a trailing carriage return, or an empty container, is not the replay of any file whatsoever |
| `Durability.AllRecsRepeat` | src/aof.c:42-131 | Replaying all records a command leaves in the rewrite buffer (RPOP and SREM may leave two) repeats its effect at any other clock of the period |
| `Durability.FirstRecRepeats` | src/aof.c:42-131 | The one record that reaches the log is enough to repeat the effect |
| `Durability.StepKeepsCap` | src/kv.c:622-624 | No command takes the map over its capacity, expired entries or not |
| `LogText.StrtollOfPrinted` | src/aof.c:238-242 | strtoll reads every 64-bit number back from its printed form |
| `LogText.PrintIntShape` | src/aof.c:238-242 | A printed number is at most 20 characters without tabs or line endings, so the 32-byte buffer never truncates it |
| `LogText.ParseBody` | src/aof.c:36-131 | Parsing the text of a well-formed record gives the record back |
| `LogText.ReplayOne` | src/aof.c:26-137 | Reading a file that starts with a printed record applies that record and leaves the rest |
| `LogText.ReplayFormatAll` | src/aof.c:26-137 | Replaying printed records is applying them in order |
| `LogText.ReplayAppend` | src/aof.c:26-137 | Replaying a file of whole lines and then another is replaying their concatenation |
| `LogText.ReplayReplayed` | src/aof.c:26-137 | Whatever bytes the log holds, replay only builds entries with valid keys, texts the format can carry and non-empty containers |
| `Store.KvStore.constructor` | src/kv.c:306-322 | The empty store is valid and charges exactly its bucket array |
| `Store.KvStore.InitFull` | src/kv.c:296-392 | The status for every combination of arguments and failures, each allocation on its own; on success the bytes are bucket array, path and entries from the start, the store resizes and hashes as asked, and without a budget it equals the replay of the existing log, so that a log that mirrors a map brings that map back; with one it starts within it |
| `Store.KvStore.Find` | src/kv.c:186-199 | The chain walk finds a key if and only if the map has it |
| `Store.KvStore.RemoveAt` | src/kv.c:140-177 | Removing an entry removes its key only and gives back exactly its bytes, so the saturating branches are not taken |
| `Store.KvStore.FindEntry` | src/kv.c:179-200 | A lookup drops the key if it has expired and changes nothing else |
| `Store.KvStore.Resize` | src/kv.c:394-435 | Resizing, whether it succeeds or fails, leaves the map unchanged, keeps the accounting and the peak exact and never exceeds the budget |
| `Store.KvStore.Rehash` | src/kv.c:418-427 | The outer relinking loop puts every entry into the bucket of its hash and loses or repeats none |
| `Store.KvStore.MoveChain` | src/kv.c:420-426 | The inner loop adds exactly the entries of one chain to the new table, each in its bucket |
| `Store.KvStore.EvictLru` | src/eviction.c:192-241 | For every generator: the victim is the one least recently used entry of the non-empty buckets hit by its next 64 values, up to 16 hits, or of the whole table if they hit none, and exactly the values up to there are used up; a non-empty store always yields it |
| `Store.KvStore.PickVictim` | src/eviction.c:197-233 | The search ends with an oldest entry of exactly those buckets |
| `Store.KvStore.SampleBuckets` | src/eviction.c:202-218 | The sampling loop looks at exactly the non-empty buckets among the draws, up to 16 |
| `Store.KvStore.MakeRoom` | src/kv.c:628-635 | The loop ends with room or with an empty store, evicts nothing when there is room, and not more than needed: some entry evicted was too large to have stayed. What it takes are the victims of so many evictions in a row. The newest entry goes only if its bucket without its mates would still be too full, and does go then if every draw hits that bucket |
| `Store.KvStore.EnsureRoom` | src/kv.c:627-636 | The same around the budget tests: no budget, no eviction; failure exactly when the empty table would not have room either |
| `Eviction.TracksStep` | src/eviction.c:192-241 | One eviction keeps the newest entry unless it is alone in all buckets looked at, and then the bucket without its mates was too full |
| `Eviction.ShrinksStep` | src/eviction.c:192-241 | With draws that hit one bucket only, the others lose nothing while emptying that one is enough |
| `Eviction.EvictionsInOrder` | src/eviction.c:192-241 | Any number of evictions in a row add nothing, take exactly the keys reported, and within a bucket take entries before more recently used ones |
| `Eviction.EvictedOldestFirst` | src/eviction.c:192-241 | The same for the table as a whole: of two entries whose keys belong into one bucket, if one is gone and the other is not, it was used before it |
| `Recency.TakenUsedBefore` | src/eviction.c:197-233 | In terms of the calls: whatever an eviction loop took from a bucket was last used in an earlier call than whatever it left there |
| `Recency.VictimUsedFirst` | src/eviction.c:197-233 | The victim of one eviction was last used in an earlier call than every other entry of the buckets considered |
| `Recency.ByUseCommand` | src/kv.c:600-600 | A command keeps the stamps in the order of the last uses that the answers tell of, its own key last if it used it |
| `Store.KvStore.BufferRecord` | src/kv.c:611-615 | The separately appended pieces make up one record |
| `Store.KvStore.Link` | src/kv.c:653-664 | A new entry is the head of its chain, freshly stamped and charged in full |
| `Store.KvStore.Overwrite` | src/kv.c:593-617 | Overwriting keeps the deadline, charges the difference, stays within the budget and makes the entry the most recently used, every other entry keeping its stamp |
| `Store.KvStore.SetExisting` | src/kv.c:558-617 | Overwriting under eviction, including the case that the entry itself is evicted; nothing goes when the request fits, and not more than needed |
| `Store.KvStore.SetNew` | src/kv.c:621-673 | Inserting: the answer under any capacity, budget and allocation failure; nothing is evicted when the request fits, and not more than needed, least recently used first; the new entry is the most recently used |
| `Store.KvStore.SetInternal` | src/kv.c:547-673 | kv_set_internal is the SET of the map minus what eviction removed: nothing without a budget or when the request fits, otherwise not more than needed, least recently used first; the budget error occurs only on an empty store that still has no room |
| `Store.KvStore.WriteRecord` | src/aof.c:179-236 | The record is appended if it fits and the disk works, and the reported position is the old end |
| `Steps.Undone` | src/aof.c:244-257 | Cutting the log back to the reported position gives exactly the log before the write |
| `Store.KvStore.Grow` | src/kv.c:693-719 | Doubling keeps the map, happens exactly at the threshold if the array is to be had within the budget, and restores the load factor before an insertion, from one bucket on |
| `Store.KvStore.Set` | src/kv.c:675-745 | SET is one step without a budget, rollback included; under one, peak <= budget is kept, the log gets the record exactly on success, nothing is evicted when the request fits and not more than needed, least recently used first; the key becomes the most recently used exactly on success; the load factor stays below 3/4, and is restored from anything below 3/2 |
| `Store.KvStore.DeleteInternal` | src/kv.c:767-792 | kv_delete_internal is the map's DELETE, expired or not |
| `Store.KvStore.Delete` | src/kv.c:794-821 | DELETE removes the key whether or not it has expired; a failed one leaves log, map and rewrite buffer as they were |
| `Store.KvStore.Touch` | src/kv.c:761-761 | A new stamp is the largest, and nothing else changes |
| `Store.KvStore.Open` | src/list.c:68-131 | Finding the container of LPUSH and SADD, or evicting for it and creating it, with all its errors; the container is then the newest entry, not more was evicted than needed, and the bytes beside its mates are known |
| `Store.KvStore.RoomFor` | src/list.c:133-142 | The second eviction loop: room, or the budget error exactly when the empty table has no room either; not more evicted than needed; and the container in hand is evicted only if its bucket without its mates would be too full, for all draws, and is then for draws that hit it |
| `Store.KvStore.LPush` | src/list.c:33-191 | The LPUSH step on the map minus what eviction removed (nothing without a budget or when the request fits, otherwise not more than needed), the budget kept, the budget error only on an empty store; whether it stays below the load factor, as an if and only if; and the guard under which the list in hand is evicted, exact for draws that hit its bucket |
| `Store.KvStore.PushBreaksLoadFactor` | src/list.c:51-66 | One LPUSH on a one-bucket store with automatic resizing ends at or above the load factor: pushes never resize |
| `Steps.PushSize` | src/list.c:68-131 | LPUSH and SADD change the number of keys by exactly one when the arguments are valid and a new container can be made, and else not beyond dropping the expired key |
| `Store.KvStore.PushDangles` | src/list.c:133-142 | One bucket, a budget of 110 bytes, LPUSH k v and LPUSH k w: for every hash function and generator the second evicts the list it is pushing to |
| `Store.KvStore.RPop` | src/list.c:193-261 | The last element comes out; the key goes with the last one, which leaves two records in the rewrite buffer and one in the log, or else becomes the most recently used |
| `Store.KvStore.LLen` | src/list.c:263-286 | LLEN answers the length of the sequence and makes it the most recently used |
| `Store.KvStore.FindNode` | src/set.c:149-156 | A member is found in its bucket if and only if the set has it |
| `Store.KvStore.SAdd` | src/set.c:37-208 | The SADD step on the map minus what eviction removed, with the same guarantees and guards as LPUSH, a new member being needed for the last; 1 and one more member, or 0 and no record |
| `Store.KvStore.AddNode` | src/set.c:149-190 | A member is linked at most once and charged once, with room made for it, not more evicted than needed, and the guard for evicting the set itself |
| `Store.KvStore.SRem` | src/set.c:210-276 | 1 and one member fewer, the key going with the last one or else becoming the most recently used, or 0 and no record |
| `Store.KvStore.SCard` | src/set.c:278-301 | SCARD answers the number of distinct members and makes the set the most recently used |
| `Store.KvStore.SMembers` | src/set.c:303-346 | SMEMBERS lists every member once and makes the set the most recently used |
| `Store.KvStore.Get` | src/kv.c:747-765 | The live string or nil, as the laws say; an expired key disappears, a hit and only a hit becomes the most recently used, nothing is logged |
| `Store.KvStore.Exists` | src/kv.c:823-831 | Whether the key is live, dropping it if it has expired |
| `Store.KvStore.PExpireAt` | src/eviction.c:38-66 | The deadline of a live key and nothing else changes, with its record in the log and the rewrite buffer |
| `Store.KvStore.Persist` | src/eviction.c:107-131 | A deadline is cleared and logged as a PEXPIREAT to 0; a persistent or missing key answers 0 and logs nothing |
| `Store.KvStore.PTtl` | src/eviction.c:76-97 | Minus two without the key, minus one without a deadline, else the time left at the second clock reading |
| `Store.KvStore.Sweep` | src/eviction.c:133-190 | The sweep removes only expired entries, as many as it reports and at most its cap; unless the cap is reached, no bucket drawn holds an expired entry afterwards and, if the table is not emptied, as many are drawn as asked and at least 16; none is left under a sample of 100 or more, and it reports 0 only if none is expired |
| `Store.KvStore.ReplayRecord` | src/aof.c:42-131 | The branch taken for a parsed line does what the record says; under a budget it stays within it |
| `Store.KvStore.ReplayLog` | src/aof.c:26-137 | The line loop computes the replay of the whole file, long lines split as fgets splits them; under a budget it stays within it |
| `Store.KvStore.DumpTable` | src/aof.c:295-326 | The child's loops write the dump |
| `Store.KvStore.BgRewriteAof` | src/aof.c:259-340 | A compaction starts if there is a log path, open or not, no compaction or save is running, and the fork succeeds; nothing else changes |
| `Store.KvStore.MergeAofRewrite` | src/aof.c:342-405 | Each outcome is the corresponding event of the run machine, saying what the file on disk holds and whether it is open |
| `Store.KvStore.DiscardAofRewrite` | src/aof.c:407-420 | The rewrite is forgotten and nothing else |
| `Store.KvStore.SaveSnapshot` | src/snapshot.c:84-175 | The writing loops produce the snapshot of the table, checksum included |
| `Store.KvStore.LoadSnapshot` | src/snapshot.c:216-331 | On any store the reading loop returns the status of the file and keeps the budget; without a budget and an open log the contents are those of the load, entry by entry and in every error case |
| `Runs.PerformAll` | src/kv.c:547-831 | Any sequence of commands, sweeps, compactions, merges and discards: peak <= budget throughout; the load factor is kept if no push and no failed table allocation is among them; the stamps are always in the order of the last uses; without a budget the run, answers included, is one of the state machine, so if every call meets its guard the log on disk replays to what the table holds |
| `Runs.Perform` | src/kv.c:547-831 | The same for one call after any history; and of two keys of one bucket, if the call evicted one and not the other, it had last been used before it |
| `Runs.Execute` | src/kv.c:547-831 | Every command as its method, one step each, with its use and what it evicted |
| `Runs.CallsRecoverable` | src/aof.c:259-420 | Runs with sweeps in between keep the log on disk replaying to the live map |
| `Table.AfterRemove` | src/kv.c:140-177 | Unlinking keeps placement, unique keys, distinct stamps and exact bytes, and removes one key of the map |
| `Table.AfterInsert` | src/kv.c:653-664 | Inserting a fresh key keeps them, and adds one key |
| `Table.AfterReplace` | src/kv.c:593-609 | Rewriting an entry in place keeps them, and changes one key |
| `Table.PermutationKeeps` | src/kv.c:418-427 | The map, the bytes and all invariants depend only on which entries there are, not on their order |
| `Payloads.AddedNode` | src/set.c:183-190 | Linking a new member keeps the set duplicate-free and placed, with its bytes |
| `Payloads.RemovedNode` | src/set.c:233-250 | Unlinking a member keeps the set duplicate-free and placed, with its bytes |
| `Chains.ChainTable.Insert` | src/kv.c:657-659 | With real pointers: the node becomes the head of its chain, all chains stay acyclic and disjoint |
| `Chains.ChainTable.Unlink` | src/kv.c:144-148 | Unlinking behind a predecessor, or at the head, removes that entry only |
| `Chains.ChainTable.Find` | src/kv.c:183-199 | The cursor and its predecessor are the found node and the one before it |
| `Chains.ChainTable.Relink` | src/kv.c:394-435 | Relinking in place, without copying a node, yields a table of acyclic disjoint chains with the same entries, each in its bucket |
| `Chains.ChainTable.MoveOne` | src/kv.c:420-426 | One turn of the loop moves one node from the chain being emptied to the front of its new bucket |
| `DList.LinkedList.PushHead` | src/list.c:158-168 | Both pointers of every node stay right and the sequence grows at the front |
| `DList.LinkedList.PopTail` | src/list.c:210-233 | The last element comes out, and both ends are right when the list becomes empty |
| `DList.LinkedList.Backward` | src/aof.c:302-307 | Walking from the tail visits the reverse of the list |
| `DList.LinkedList.Destroy` | src/list.c:10-31 | Freeing a list counts exactly the bytes charged for it |
| `RewriteBuffer.GrowingBuffer.Append` | src/kv.c:202-226 | The growing array holds everything appended, unless an allocation fails, and then nothing |
| `RewriteBuffer.GrowingBuffer.Doubled` | src/kv.c:216-218 | The doubling loop ends at a capacity that fits and is less than twice what is needed |
| `Queues.FirstInFirstOut` | src/list.c:33-261 | Over any run, with any commands on other keys and any allocation failures: the elements queued at the start followed by those pushed are, in order, those popped followed by those left |
| `Queues.CallKeepsOrder` | src/list.c:33-261 | The same for one call |
| `Adler.ComputeAdler32` | src/snapshot.c:21-29 | The loop computes the checksum function |
| `Adler.BlockByBlock` | src/snapshot.c:21-82 | Checksumming block by block is checksumming the whole stream |
| `Adler.AdlerIsRfc1950` | src/snapshot.c:21-29 | The result is the sum of section 2.2 of RFC 1950, both halves below 65521 |
| `Adler.OneByteDetected` | src/snapshot.c:21-29 | Two texts of equal length that differ in one byte have different checksums |
| `Adler.LittleEndianRoundTrip` | src/snapshot.c:31-76 | Numbers read back as written |
| `Adler.WriteUint` | src/snapshot.c:31-49 | The shifting loop writes the little-endian digits |
| `Adler.ReadUint` | src/snapshot.c:56-76 | The shifting loop reads them |
| `Snapshot.RoundTrip` | src/snapshot.c:84-331 | Loading a saved table into an empty store succeeds and restores the entries; the end marker is never mistaken for an entry |
| `Snapshot.RestoredSpec` | src/snapshot.c:84-331 | What is restored, entry by entry: exactly those live at both moments, not empty and without a negative deadline, with list order, members and deadline |
| `Snapshot.RoundTripExact` | src/snapshot.c:84-331 | The loaded map equals the saved one if and only if every entry survives |
| `Snapshot.NegativeDeadlineNotSaved` | src/snapshot.c:105-105 | A live entry that is not in the snapshot at all |
| `Snapshot.LoadStatus` | src/snapshot.c:216-331 | A file loads if and only if it is well formed and its checksum is right, whatever the store and the clock |
| `Snapshot.CorruptionDetected` | src/snapshot.c:312-323 | Changing one byte of any key or value text in any file that loads makes it fail |
| `Formats.SavedEntries` | src/snapshot.c:96-160 | A string, a list and a set as saved, byte by byte |
| `Formats.EmptyFile` | src/snapshot.c:84-175 | The whole file of an empty table, checksum included, byte by byte |
| `Formats.EntryCosts` | src/kv.c:140-177 | What a string, a list, a set and their elements are charged, in numbers |
| `Formats.SampleLimits` | src/eviction.c:202-218 | 64 values, or 16 if all hit |
| `Formats.BufferLimits` | src/server.c:202-259 | Which lines a client buffer accepts, in numbers |
| `Formats.FullBufferRefused` | src/server.c:202-237 | Which bursts it accepts, in numbers |
| `Formats.LockCounts` | src/kv.c:329-334 | The number of locks for every bucket count, in numbers |
| `Expiry.SweepsInvisible` | src/eviction.c:133-190 | In an unbounded store, sweeps anywhere in a run change no answer of any command that looks its key up |
| `Expiry.CommandBlind` | src/kv.c:179-200 | Such a command answers and logs the same on stores that differ in expired entries only, and leaves them so |
| `Expiry.SetTellsSweptApart` | src/kv.c:558-617 | SET acts alike before and after any sweep if and only if the sweep did not take its key |
| `Expiry.DeleteTellsSweptApart` | src/kv.c:767-792 | DELETE answers alike before and after any sweep if and only if the sweep did not take its key, and leaves the same live entries in either case |
| `Expiry.SetOnExpiredIsLost` | src/kv.c:593-617 | A concrete SET that answers OK and is gone at once |
| `ThreadPool.PushAppends` | src/thread_pool.c:127-130 | Writing at the tail index appends to the queue the ring stands for |
| `ThreadPool.PopRemoves` | src/thread_pool.c:26-28 | Reading at the head index takes the queue's first element |
| `ThreadPool.TaskRing.Submit` | src/thread_pool.c:110-136 | The array version refuses after shutdown and when full, and appends otherwise |
| `ThreadPool.TaskRing.Shutdown` | src/thread_pool.c:143-150 | Setting the flag loses no queued task |
| `ThreadPool.TaskRing.Take` | src/thread_pool.c:26-28 | The array version takes the oldest task |
| `ThreadPool.PoolSafety` | src/thread_pool.c:10-136 | Over every interleaving, spurious wakeups included: tasks start in order, each accepted one is queued, running or done exactly once, and a pending task has a worker not asleep |
| `ThreadPool.JoinedMeansDrained` | src/thread_pool.c:138-163 | When every worker has been joined, every accepted task has run exactly once |
| `ThreadPool.ShutdownDrains` | src/thread_pool.c:18-31 | After shutdown every worker step comes closer to the end, and only exited workers are stuck |
| `Locks.SomeoneCanStep` | src/kv.c:253-281 | If every thread takes locks in ascending order, some unfinished thread is never blocked |
| `Locks.NoDeadlock` | src/kv.c:253-281 | Any number of threads running any sequence of store and server operations never deadlock, hold no lock in common, and every schedule ends |
| `Locks.PlanRuns` | src/kv.c:700-719 | Every operation, escalation and nested log, replica, client and pool locks included, takes locks in order, releases what it took and touches exactly what it needs, each thing under its locks unless it evicts under one bucket lock of several |
| `Locks.Exclusion` | src/kv.c:253-281 | In every reachable state two threads are about to touch conflicting things only if an operation evicts under a bucket lock, or kv_sync meets a merge |
| `Locks.ExclusiveIff` | src/kv.c:253-281 | That never happens, over all runs of all operations, if and only if there is no budget (or one lock) and kv_sync and merges do not both occur |
| `Locks.EvictionClashes` | src/kv.c:628-635 | A SET evicts under its bucket lock while a GET is in another chain |
| `Locks.SyncMeetsMerge` | src/aof.c:147-171 | kv_sync is about to flush the log that a merge is about to close |
| `Locks.ChainExclusionIff` | src/kv.c:246-251 | Without a budget no two threads are ever in one chain if and only if the number of locks divides the number of buckets |
| `Sharding.ProtectedIff` | src/kv.c:246-251 | A shard lock protects whole chains if and only if the lock count divides the bucket count |
| `Sharding.ShardExclusion` | src/kv.c:329-334 | Through every automatic doubling that holds if and only if the store starts with 32 to 64 buckets or a multiple of 64 |
| `ClientQueue.ClientSafety` | src/server.c:52-200 | Over every interleaving: at most one worker owns a client, commands start in arrival order, and the reference count is list membership plus live tasks |
| `ClientQueue.FreedIsFinal` | src/server.c:52-121 | A client is freed exactly when it is unlisted and no task refers to it, and nothing can happen to it afterwards |
| `ClientQueue.PendingHasWorkerIff` | src/server.c:143-280 | A pending command of an open client has a worker on its way if and only if the pool accepted the last task submitted for it |
| `ClientQueue.RefusalStalls` | src/server.c:270-278 | After a refusal a command can wait with no worker at all |
| `ClientQueue.NothingAfterClose` | src/server.c:181-196 | After a command that closes or detaches the connection no command behind it is ever started, under any interleaving |
| `ClientQueue.WorkerGoesOn` | src/server.c:147-165 | After any other the worker can take the next one |
| `ClientQueue.EndedFreedIff` | src/server.c:52-121 | Over every interleaving: a client whose connection has ended can still be freed if and only if it was not detached; if so, every run ends within a bound on its tasks' steps, and one that cannot go on has freed it |
| `ClientQueue.DetachedBy` | src/server.c:184-195 | What ends an open connection leaves the client detached if and only if it is a detach |
| `ClientQueue.StaysDetached` | src/server.c:71-83 | Whatever happens to a detached client, it stays listed and is not freed |
| `ClientQueue.DetachLeaks` | src/server.c:184-195 | One SYNC: its task ends and the client stays behind |
| `Framing.SplitInTwo` | src/server.c:223-259 | Splitting a stream at newlines can be done in two parts, the unfinished line carried over |
| `Framing.LinesExact` | src/server.c:223-259 | Splitting loses nothing: the lines with their newlines and the rest are the stream |
| `Framing.CleanExact` | src/server.c:239-242 | Exactly one carriage return goes, and only from the end |
| `Framing.SentLinesEnqueued` | src/server.c:202-284 | Lines sent with CRLF, in any chunks, are enqueued as they are, carriage returns of their own included; so are lines sent with a newline only, if none ends in a carriage return |
| `Framing.ChunksDoNotMatter` | src/server.c:202-284 | The commands enqueued are the whole stream split at newlines, one trailing carriage return removed, whatever the chunks |
| `Framing.ArrivalIndependent` | src/server.c:202-284 | Two arrival patterns of the same bytes give the same commands |
| `Framing.ShortLinesAccepted` | src/server.c:202-237 | Lines under 8192 bytes are never refused under any arrival pattern that never fills the buffer |
| `Framing.LongestLineNeedsItsNewline` | src/server.c:226-237 | A line of exactly 8192 bytes is accepted together with its newline and refused without it |
| `Framing.LineBuffer.Receive` | src/server.c:220-220 | Received bytes go behind those held |
| `Framing.LineBuffer.FindNewline` | src/server.c:224-224 | The index of the first newline, or the length |
| `Framing.LineBuffer.Consume` | src/server.c:253-259 | Shifting in place leaves exactly the unconsumed bytes |
| `Framing.ClientReader.HandleRead` | src/server.c:202-284 | One call enqueues the complete lines and keeps the rest, lines sent with CRLF exactly as they are, and fails exactly when the buffer fills or a line is too long |
| `Replica.ChunkingIrrelevant` | src/replication.c:210-251 | Applying a stream chunk by chunk is applying its lines |
| `Replica.RecordReadBack` | src/replication.c:225-238 | The replica reads a broadcast record as the command the master ran |
| `Replica.ReplicaConverges` | src/replication.c:210-251 | A replica that starts equal has the master's map at every record boundary, under every chunking, even with part of the next record received |
| `Replica.WindowNeverCloses` | src/replication.c:211-214 | At every point of the stream the next recv asks for at least one byte |
| `Replica.BroadcastAgreesIff` | src/kv.c:721-737 | After one command master and replica are equal if and only if the command got through on the master (log write, allocation, capacity) or the replica had nothing to change, both as guards |
| `Replica.FailedSetDiverges` | src/aof.c:188-197 | Concrete SETs the replica applies and the master does not: failing disk, failing allocation, full master |
| `Replica.Receiver.Receive` | src/replication.c:213-250 | One turn of the loop applies the complete lines to the store and keeps the rest in the buffer |

## Left out

- Store.KvStore.LPush: once `dangling` is set the source uses freed memory, and nothing is claimed beyond the store being valid, within its budget and not logged to. Where even an emptied bucket leaves no room for a new list, the opening evicts elsewhere first, and whether the node then dangles depends on what went: the converse of the guard is claimed from the opened list on, in `Store.KvStore.RoomFor`.
- Store.KvStore.SAdd: the same.
- Store.KvStore.InitFull: with a budget the contents after replay are not determined, because replayed pushes may evict; only the budget and the invariants are claimed.
- Store.KvStore.ReplayLog: the same.
- Store.KvStore.ReplayRecord: the same.
- Store.KvStore.LoadSnapshot: with a budget or an open log the contents are not determined, because loading may evict, or fail to log a long string; allocations and log writes during the load succeed.
- Compaction.CommandKeepsCompacting: assumes that the rewrite buffer's allocations succeed; `TornBuffer` says what happens when one fails.
- Durability.RewriteStep: the same.
- Locks.ExclusiveIff: the descriptor that server_find_client reads, and what kv_set reads before it takes a lock, are not among the things touched.
- Runs.PerformAll: stops at a push that dangles; restarts are in `Compaction.RunRecoverable` and `Store.KvStore.InitFull`.
- ClientQueue.EndedFreedIff: server_destroy, which frees what is still listed when the server ends, is not a step of the model.
- Replica.ReplicaConverges: streams of SET and DELETE with values free of newlines, the only records the loop handles; the SYNC transfer before the stream is not modelled.
- Expiry.SweepsInvisible: stores with a capacity, where an expired leftover still occupies a slot; and runs containing SET or DELETE, for which the exact difference is stated instead.
- Store.KvStore.Set: evictions under a budget are not logged, so with a budget the log holds the record but no claim is made that it replays to the live map.
- The LRU clock, sizes and byte counters are unbounded numbers; a clock below its maximum is required where a stamp is taken, and the casts of counts to int and uint32_t are not modelled.
- `KvStore` keeps chains and the 16 buckets of a set as sequences; pointer updates are in `Chains` and `DList`, which are not composed with `KvStore`. Set nodes have no pointer version of their own.
- List and set element counts are computed from the elements rather than kept in a field, except in `DList`.
- Null pointers, uninitialised locks, and use of a store after kv_destroy.
- Durability levels, partial writes, failing flushes and failing truncation: a log write either appends the whole record or nothing.
- Interleaving of two writers' pieces in the rewrite buffer, and of a rollback with another writer's record: the log results are about sequential runs.
- Hash quality and the quality of pseudo-random sampling: the hash and the generator are any functions.
- Command dispatch and reply text (src/protocol.c), sockets, epoll, timers, signals, fork and rename themselves, BGSAVE's process handling, and the pointer returned by server_find_client.
- kv_ttl, kv_expire and kv_pexpire, which convert units around the modelled operations, and the getters and setters of single fields.
- src/main.c, src/benchmark.c and the test programs.
