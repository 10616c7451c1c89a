# LedisDB, modelled and proved in Dafny

LedisDB keeps sorted sets, lists, sets, hashes, plain values and expiry times as byte keys in one ordered
store, answers every query by walking a key range, writes every change as one batch, logs every batch
before committing it, and ships the log to slaves. This project models that and proves what it is meant
to guarantee. All `.dfy` files belong together; `dfyconfig.toml` lists them.

## How the model is laid out

| files | what they hold |
|---|---|
| `Bytes`, `Keys` | byte order, integer widths and wrap-around, the encoders and decoders of every kind of key |
| `Ranges` (with `Iterators`), `Batches`, `Database` | range queries and the cursor code behind them, write batches, one open database over typed records |
| `ZSets`, `ZQueries`, `ZWrites`, `ZStores`, `ZSetOps`, `ZRuns` | sorted sets: batches and their effect, queries, range removal, union and intersection stores, the running operations, whole runs |
| `Lists`, `ListOps`, `ListRuns` | lists as windows of 32-bit sequence numbers |
| `Counting`, `Collections`, `SetOps`, `SetRuns` | sets and hashes: sizes and set algebra |
| `Records`, `Expiry`, `ExpiryOps` | the records of all types together, expiry times and the background check |
| `Scan`, `Flush`, `System` | cursors and pages, flushing a type, one database under all commands at once |
| `LogStores`, `Node`, `Recovery`, `Replication` | log, commit, acknowledge; crashes and replay; master and slave |
| `LogFiles`, `FileStore`, `Reopening`, `LogStream`, `Dump`, `Cluster` | log records and tables on disk, the rolling log store, opening it over the files of an earlier run, the bytes of a pull, dump and load, a running master and slave |

Stores of the data types are maps from a typed key to a typed value. `Keys` shows that the byte encoding
of typed keys is injective and keeps the orders the code relies on, and every range query goes through
the byte encoding and the modelled iterator. Operations that the program runs step by step are methods
on `Database.DB`, `FileStore.Store`, `Node.Ledis` and so on; each is proved equal to a function of the
store it started from, and the theorems are about those functions. A read inside an operation sees the
committed store, never the pending batch, exactly as in the program.

## What does not hold, and exactly when

Several things one would expect are false of the code. Each has a lemma that says for all inputs when it
holds.

- ZAdd keeps sizes and indexes right exactly if no new member is given twice and every score given for a
  member is its last or its old one (`ZSets.ZAddKeepsIff`, with the calls that fail in
  `ZSets.RepeatedMemberBreaksSize` and `ZSets.RescoredTwiceBreaksIndex`); ZRem exactly if no stored member is
  named twice or all are named (`ZSets.ZRemKeepsIff`, `ZSets.RepeatedRemovalBreaksSize`); ZIncrBy exactly if
  it does not add zero to a stored member (`ZSets.ZIncrByKeepsIff`, `ZSets.ZeroIncrementBreaksIndex`). Sets
  and hashes: `Collections.AddKeepsIff`, `Collections.RemKeepsIff`.
- LTrim cuts its 64-bit ranks to 32 bits. It keeps the items that the ranks select exactly if the cut ranks
  select the same items and the stop rank does not stay left of the list by more than one
  (`Lists.TrimToExactIff`, with the calls that fail in `Lists.WideRankKeepsTooMuch` and
  `Lists.ShortRankBreaks`), and a list it empties keeps its expiry exactly if the stop rank is one left of it
  (`Lists.TrimToExpiry`). LTrimFront is a trim exactly if the last number to go fits 32 bits
  (`Lists.TrimExactIff`); negative sizes: `Lists.NegativeTrimIff`. A push that is let through is a push
  exactly if its last number, without wrap-around, is in the window (`Lists.PushExactIff`). LSet is an update
  exactly if the list exists (`ListOps.SetExactIff`).
- A key without a recorded expiry is removed by the background check exactly if an old time record of it
  has come (`Expiry.UnrecordedDecides`, with a concrete run in `Expiry.StaleTimeRecordRemovesKey`). A key given
  one expiry falls to the checks from that time on exactly if the time is not negative (`Expiry.MetIff`): a
  duration that overflows 63 bits makes it negative (`ExpiryOps.DurationMetIff`), and then the key outlives
  every run of checks (`Expiry.NegativeTimeOutlives`). On a node that refuses commits the next check time
  stays early enough exactly if nothing was due (`Expiry.RefusedCheckIff`).
- Repair rebuilds the index of a torn table exactly if the tail is harmless (`LogFiles.RepairRecoversIff`);
  the closing magic of a table is not (`LogFiles.RepairTakesMagicForLog`), and a record cut behind its head is
  taken for a whole one with zeros at its end (`LogFiles.RepairPadsRecord`, `Reopening.RecoverWrite`).
- A slave whose load of a dump broke off holds part of it under commit id 0. Its store is a past store of the
  master again from the dump's commit id on (`Replication.SlaveIsPastMaster`, `Replication.FailedSyncIff`).
- A transfer that breaks off is not always noticed: a dump cut between two entries loads as if it were whole
  (`Dump.CutStream`, `Dump.TransferCut`), and a pull cut between two records or right behind the head of one
  counts as complete (`LogStream.CutStream`).
- A log that the store accepts leaves the ids without a gap exactly if it continues them
  (`FileStore.Store.StoreLog`): after a reopen the store takes log 5 behind log 1
  (`Reopening.GapAfterReopen`). Opening does not notice that a table is missing
  (`Reopening.LostTableUnnoticed`), and refuses every store in which a crash left a table without one complete
  log (`Reopening.EmptyTornBlocks`).
- HSCAN, SSCAN and ZSCAN, whose end marker is the name "0", are complete exactly if no page but the last ends
  with that name (`Scan.RedisScanIff`, with a scan that is not in `Scan.ZeroMarkerLosesMember`); a scan
  without a positive count crashes exactly on an empty page (`Scan.ScanCommand`).
- A scan of a type is complete, and a flush of it leaves no data, exactly if there is no record under the empty
  name (`Flush.ScanCompleteIff`, `Flush.NoDataLeftIff`); storing an empty union under that name makes one
  (`Flush.EmptyNameIsLeft`). Flushing the sorted sets ends exactly if no name that the scan finds is longer than
  1024 bytes (`Flush.FlushEndsIff`); storing an empty union under a longer name leaves such a name
  (`ZRuns.StoredNothing`, `Flush.EmptyStoreBlocksFlush`).

Where the code and its comments differ the model follows the code: `log.Fatalf` of the logging library in
use only logs, and a committed write batch is not reset by the commit.

## Model

| member | source | states |
|---|---|---|
| Bytes.UvarintPrefixFree | ledis/ledis_db.go:94-101 | no database index is encoded as a prefix of another, so keys of different databases never mix |
| Bytes.BigEndianOrder | ledis/t_zset.go:144-173 | fixed-width big-endian numbers sort as numbers |
| Keys.DecodeEncode | ledis/t_zset.go:185-236 | every key of every kind in every database decodes to what was encoded |
| Keys.EncodeInjective | ledis/t_ttl.go:31-88 | two different records never share a byte key |
| Keys.ScoreBytesOrder | ledis/t_zset.go:155-167 | sign separator and 64 bits sort as signed scores, across the negative and non-negative halves |
| Keys.ScoreKeyOrder | ledis/t_zset.go:144-173 | byte order of score keys is order by signed score, then member |
| Keys.HeadOwner | ledis/t_set.go:59-78 | the length-prefixed head of a collection is the head of its own records only |
| Keys.ItemRange | ledis/t_hash.go:121-131 | between the start and stop keys of a hash, set or sorted set lie its records and nothing else |
| Keys.ItemOrder | ledis/t_set.go:59-78 | members of one collection sort as byte strings |
| Keys.ScoreRange | ledis/t_zset.go:175-183 | between two score bounds lie exactly the score keys of that set within the bounds |
| Keys.TypeRange | ledis/scan.go:148-163 | the scan bounds enclose one type of one database |
| Keys.ListRange | ledis/t_list.go:54-71 | between two item keys of a list lie exactly the items numbered between |
| Keys.TimeRange | ledis/t_ttl.go:169-174 | the checker's bounds enclose the time records from time zero to the horizon, and no negative time |
| Keys.TimeKeyOrder | ledis/t_ttl.go:31-48 | time records sort by time first, and a negative time sorts behind every other |
| Keys.Int64RoundTrip | ledis/util.go:19-49 | a stored integer is read back |
| Iterators.Cursor.Find | store/iterator.go:146-158 | finds a key exactly if it is stored |
| Iterators.RangeLimitIterator.constructor | store/iterator.go:274-334 | what is left to visit is the filter, reversal, drop and take of the sorted keys |
| Iterators.RangeLimitIterator.Valid | store/iterator.go:212-242 | valid exactly while keys are left, and then at the next of them |
| Iterators.RangeLimitIterator.Next | store/iterator.go:244-252 | moves past exactly one key |
| Iterators.Collect | store/iterator.go:212-334 | for every sorted store, bounds, range type, direction, offset and count the loop visits the in-range keys, reversed when backward, less the offset, cut to the count |
| Ranges.InvertedRange | store/iterator.go:212-242 | a lower bound above the upper bound gives nothing |
| Ranges.SelectIsSlice | store/iterator.go:274-334 | the keys in a range are a contiguous slice of the sorted keys |
| Batches.ApplyAbsorbs | store/writebatch.go:35-53 | a batch committed earlier leaves no trace once a batch that writes all its keys is applied |
| Batches.ReplayAbsorbs | ledis/replication.go:38-76 | replaying a log over a store that already holds one of its batches gives the same store |
| Node.Ledis.AppendLog | rpl/rpl.go:112-162 | logs under the next id, or refuses while older logs wait or where the log ends before the commit id, leaving everything as it was |
| Node.Ledis.HandleCommit | ledis/batch.go:102-139 | exactly when a write is accepted, by a log that takes only the id after its last, and which error refuses it; an accepted write is logged, applied and acknowledged, and its id is on disk with SyncLog 2 and otherwise the saved one is as before; a refused one changes nothing |
| Node.Ledis.HandleReplication | ledis/replication.go:29-77 | every log behind the commit id is applied once and in order; it stops short exactly if the next log is gone, and then nothing has changed; the commit id on disk follows with SyncLog 2 only |
| Recovery.NextInv | ledis/batch.go:106-131 | logging, committing, acknowledging, saving the commit id, purging and crashing all keep: replaying from the saved or the current commit id yields the full history |
| Recovery.RunInv | rpl/rpl.go:228-278 | in every run with any number of crashes that invariant holds |
| Recovery.CaughtUpIsComplete | ledis/replication.go:38-76 | whenever the commit id has reached the last log, the store is every logged batch applied once in order |
| Recovery.RestartRecovers | rpl/rpl.go:263-278 | from any reachable state, a restart from the saved commit id whose successors are still logged replays to the full history |
| Recovery.LogReachesCommitID | rpl/rpl.go:112-162 | in every run a log that is not empty reaches the commit id, so that a caught-up node can always log the next write |
| Recovery.WriteReaches | ledis/batch.go:102-139 | an accepted write is the steps log, commit and acknowledge, and a save behind them with SyncLog 2 |
| Recovery.ReplayReaches | ledis/replication.go:29-77 | the replay loop is the steps commit and acknowledge, log after log |
| Recovery.Start | rpl/rpl.go:40-80 | a new node is where the runs of the state machine begin |
| Recovery.Write | ledis/batch.go:102-139 | the running node stays within the runs of the state machine: from every reachable state each call of handleCommit leads to a reachable one, whose restart replays to the full history |
| Recovery.Replicate | ledis/replication.go:29-77 | the same of each call of handleReplication |
| Recovery.Restart | rpl/rpl.go:66-74 | started from any reachable state with the commit id that is on disk, the running replay loop succeeds exactly if the next log is there or none is needed, and then the store is the full history |
| Replication.NextInv | server/replication.go:263-356 | every step of master or slave, a full sync whose load fails and a crash of the slave included, keeps the replication invariant in any interleaving |
| Replication.SlaveIsPastMaster | ledis/replication.go:29-77 | in every run every log the slave holds is the master's log of that id, and the slave's store is the master's store right after log number slave commit id; after a load that broke off, from the dump's commit id on, after a crash of the slave, from its commit id before the crash on, and replaying up to there leads to it |
| Replication.PartHeals | ledis/dump.go:130-205 | part of a dump, with the logs that led to the dump replayed over it, is the dump |
| Replication.HealsAgain | rpl/rpl.go:66-74 | a store that replaying from some log makes right is made right by replaying from any earlier log |
| Replication.FailedSyncIff | server/replication.go:287-290 | right after a load that broke off, the store is the master's at commit id 0 exactly if nothing was put |
| Replication.CaughtUpSlaveEqualsMaster | server/replication.go:308-356 | a slave that has caught up with an idle master has the master's store |
| Replication.PulledLogsAreAccepted | server/replication.go:295-306 | what a slave asks for next is always what its log accepts next |
| Replication.CatchUpByLogs | server/replication.go:308-356 | a slave and a master that still have the logs needed get to the last log of the master by pulling, storing and replaying alone |
| Replication.CatchUpByDump | server/replication.go:263-293 | from every state a full sync gets the slave to the store and the commit id of the master |
| Replication.SlaveCatchesUp | server/replication.go:179-246 | from every state of every run the slave can get to the whole history of the master: by logs alone while they are there, by a full sync in any case |
| LogFiles.HeadRoundTrip | rpl/log.go:49-76 | a record head decodes to id, time, compression and length |
| LogFiles.LogRoundTrip | rpl/log.go:108-167 | a record at any position of a file decodes to the log that was written |
| LogFiles.ReadThroughIndex | rpl/file_table.go:283-311 | through the index every log of a table is found, whatever follows the logs |
| LogFiles.CheckAcceptsClosedTable | rpl/file_table.go:157-198 | a table as written by a flush is accepted, with its first id, last id and last time |
| LogFiles.RepairRecoversIff | rpl/file_table.go:200-272 | repair of complete logs followed by a tail rebuilds exactly their two files if and only if the tail is shorter than a record head of 17 bytes or its first eight bytes, the id, are zero |
| LogFiles.RepairedTableIsAccepted | rpl/file_table.go:200-281 | the repaired table passes the check with the ids and time of its logs |
| LogFiles.MagicID | rpl/file_table.go:18-18 | the closing magic, read as a record head, has a log id that is not zero |
| LogFiles.RepairTakesMagicForLog | rpl/file_table.go:221-254 | a table that already ends in the magic is not repaired to its own logs |
| LogFiles.RepairPadsRecord | rpl/file_table.go:200-272 | a record cut anywhere behind its head is completed with zeros: the repaired files are those of a table closed behind it |
| LogFiles.OpenTableFailsCheck | rpl/file_table.go:119-198 | a table that was not closed fails the check however much of its index was written, as long as no id reaches the one the magic reads as |
| FileStore.ReadTable | rpl/file_table.go:283-311 | returns the log with the id if the table holds it, not found otherwise |
| FileStore.Repair | rpl/file_table.go:200-272 | the scanning loop computes the repaired table, for every file |
| FileStore.LoadClosedTable | rpl/file_table.go:52-76 | opening a closed table gives back its first id, last id and last time |
| FileStore.LoadTornTable | rpl/file_table.go:52-76 | opening a torn table with a harmless tail gives a table of exactly its complete logs |
| FileStore.LoadPaddedTable | rpl/file_table.go:52-76 | opening a table cut inside a record gives a table of its logs and that record, its missing bytes zero |
| FileStore.TableWriter.StoreLog | rpl/file_table.go:458-528 | exactly when a log is taken, refused or sent to a new table; a taken log is appended, otherwise nothing changes |
| FileStore.TableWriter.Append | rpl/file_table.go:482-528 | data and index grow so that every offset still fits 32 bits |
| FileStore.TableWriter.GetLog | rpl/file_table.go:530-552 | returns the log with the id if it is in the open table |
| FileStore.TableWriter.Flush | rpl/file_table.go:430-456 | yields a closed table holding exactly the logs written, and starts the next |
| FileStore.Search | rpl/file_store.go:369-385 | the binary search finds the table that covers an id exactly if there is one |
| FileStore.Store.constructor | rpl/file_store.go:64-100 | a new store is the empty sequence of logs; its tables have the configured size, with 256 MiB for 0 and at most 1 GiB |
| FileStore.Store.Load | rpl/file_store.go:64-100 | the store over loaded tables that hold a sequence of logs is that sequence, and writes the table numbered after the last |
| FileStore.Store.FirstID | rpl/file_store.go:125-143 | the first id of the sequence |
| FileStore.Store.LastID | rpl/file_store.go:145-160 | the last id of the sequence |
| FileStore.Store.GetLog | rpl/file_store.go:102-123 | exactly the log stored under the id, or not found, for every id from one on |
| FileStore.Store.StoreLog | rpl/file_store.go:162-195 | exactly when a log is accepted; an accepted log is stored behind all others and leaves the ids without a gap exactly if it continues them; it goes to the open table, or, exactly if that is over its size, to a new one, with a table of the old logs added to the closed ones |
| FileStore.Store.StoreInOpen | rpl/file_table.go:458-528 | the open table takes the log, or nothing changes |
| FileStore.Store.ContinuesIff | rpl/file_store.go:162-195 | of the logs that are accepted, exactly those that continue the sequence leave the ids without a gap |
| FileStore.Store.HeldIsAll | rpl/file_store.go:102-123 | the logs read through the indexes of the tables, one table after the other, are the sequence |
| FileStore.Store.RollOver | rpl/file_store.go:169-195 | a full table is closed and the log goes to a new one; the sequence only grows by that log |
| FileStore.Store.PurgeExpired | rpl/file_store.go:197-218 | drops exactly the tables before the first one with a log newer than the given time, and nothing if there is none; afterwards the logs before that table are not found and every other id reads as before |
| FileStore.Store.PurgeOldest | rpl/file_store.go:281-311 | keeps exactly the given number of newest tables; the logs before them are not found and every other id reads as before |
| FileStore.Store.DropTables | rpl/file_store.go:313-326 | exactly the logs before the first table that is left are not found any more |
| FileStore.Store.Close | rpl/file_store.go:254-279 | leaves closed tables, numbered in order, that hold the whole sequence |
| FileStore.Store.Clear | rpl/file_store.go:224-252 | empties the store |
| Reopening.OpenTable | rpl/file_table.go:52-76 | for all bytes: the checked table, or the repaired one, or a panic |
| Reopening.LoadedBounds | rpl/file_table.go:157-272 | whatever the bytes, a loaded table does not end before it begins |
| Reopening.SortTables | rpl/file_store.go:357-367 | a permutation in order of first ids |
| Reopening.CheckOrder | rpl/file_store.go:387-415 | accepts exactly the tables whose ids and numbers rise without overlap |
| Reopening.LoadTables | rpl/file_store.go:328-353 | panics exactly if some repair does; otherwise gives the one order of the tables that passes the check, or fails where none does |
| Reopening.AcceptedOnce | rpl/file_store.go:387-415 | the files determine the tables that are accepted |
| Reopening.CollectedAnyOrder | rpl/file_store.go:328-347 | the order of the directory does not matter to what is loaded |
| Reopening.ClosedLoadsBack | rpl/file_store.go:328-353 | the files of a closed store, in any order, load to the tables it was closed with |
| Reopening.TornLoadsBack | rpl/file_store.go:328-353 | with a last table torn behind complete logs and a harmless tail, they load to tables of exactly the complete logs |
| Reopening.PaddedLoadsBack | rpl/file_store.go:328-353 | with a last table cut inside a record behind its head, the files load to tables of all logs and that record, its missing bytes zero |
| Reopening.EmptyTornBlocks | rpl/file_store.go:387-401 | with a table that holds no complete log, no order passes the check and the store does not open |
| Reopening.LostTableUnnoticed | rpl/file_store.go:403-414 | with any one table missing, the rest still passes the check |
| Reopening.Open | rpl/file_store.go:64-100 | opens exactly if loading succeeds, with the accepted tables and an empty new table; where they hold a sequence of logs, the store is that sequence |
| Reopening.Restart | rpl/file_store.go:64-279 | closing a store and opening its files gives the same sequence of logs |
| Reopening.Recover | rpl/file_store.go:64-353 | opening the files that a crash left, the last table torn, gives the same sequence of logs |
| Reopening.RecoverWrite | rpl/file_table.go:482-528 | after a crash at any byte of a log being written, with any part of the index, opening gives every earlier log back, and the last one too once its head was written, with zeros for what is missing |
| Reopening.GapAfterReopen | rpl/file_table.go:482-528 | a store reopened with log 1 accepts log 5 and then holds these two |
| LogStream.ReadLogsTo | ledis/replication.go:164-211 | exactly when the start is too old; otherwise consecutive logs from the start, at least one if there is one, stopping at the first that passes a mebibyte |
| LogStream.StreamRoundTrip | ledis/replication.go:123-211 | the slave reads exactly the logs the master sent |
| LogStream.CutRecord | rpl/log.go:78-106 | a record cut at any byte is reported broken, unless the cut is right behind its head |
| LogStream.CutStream | ledis/replication.go:123-150 | a stream cut at any byte gives exactly the whole records before the cut; it is reported broken exactly if the cut is neither between two records nor right behind the head of one |
| LogStream.StoreLogsFromReader | ledis/replication.go:123-150 | stores what the stream holds up to the first refused log; succeeds exactly if the stream does not break off inside a record head or inside record data and nothing is refused; a stream that ends right behind a record head counts as complete |
| LogStream.PullIsAppended | ledis/replication.go:123-150 | logs that continue the slave's are all accepted and appended |
| Dump.WriteDump | ledis/dump.go:41-116 | the commit id, then every entry of the store once, in key order |
| Dump.StreamRoundTrip | ledis/dump.go:130-205 | reading written entries gives back the list of entries |
| Dump.CutEntry | ledis/dump.go:166-193 | an entry cut at any byte is not read |
| Dump.CutStream | ledis/dump.go:163-205 | a stream cut at any byte gives exactly the whole entries before the cut, and counts as complete exactly if the cut is between two entries |
| Dump.ListingIsStore | ledis/dump.go:76-105 | the entries of a store, put into an empty one, are the store |
| Dump.FrontIsPart | ledis/dump.go:163-204 | the first entries of a store, put into an empty one, are part of the store |
| Dump.FlushAll | ledis/ledis.go:151-186 | nothing is left, for any number of keys, although the batch is committed again and again without a reset |
| Dump.LoadDump | ledis/dump.go:130-220 | old content is always gone; a whole stream becomes the store with its commit id, on disk with SyncLog 2; a broken one leaves the entries of whole rounds of 1024 and commit id 0 |
| Dump.DumpRoundTrip | ledis/dump.go:41-220 | the stream of a store loads to exactly that store and commit id |
| Dump.Transfer | server/replication.go:263-293 | dump on one node and load on another: same store, same commit id, also on disk with SyncLog 2, empty log |
| Dump.TransferCut | server/replication.go:263-293 | a transfer cut at any byte behind the head: inside an entry, it fails, and the slave has commit id 0 and the whole rounds of 1024 entries before the cut; between two entries, it passes for complete, with the commit id of the master and part of its store |
| Cluster.Start | ledis/ledis.go:46-94 | a new master and a new slave are where the runs of the replication steps begin |
| Cluster.Write | ledis/batch.go:102-139 | a running master and slave next to the replication steps: each write of a master that is not read-only is accepted, and leaves the two in a state that a run of the steps reaches |
| Cluster.Follow | ledis/replication.go:29-77 | the same of the replay of a slave; it catches up with its log exactly if the next log is there or none is needed, and a store that owes nothing is a past store of the master |
| Cluster.Restart | rpl/rpl.go:66-74 | the same of a slave that starts again after a crash; if the log after the saved commit id is there, its store is a past store of the master again |
| Cluster.Sync | server/replication.go:263-293 | a dump that arrives whole is a full sync of the steps: the slave has the store and the commit id of the master |
| Cluster.BrokenSync | server/replication.go:282-290 | a dump cut inside an entry is a failed sync of the steps, which the logs up to the commit id of the dump heal |
| Database.MatchingElements | store/db.go:105-125 | a range query meets a record exactly if it is stored and its byte key is in the range |
| Database.MatchingSorted | store/db.go:105-125 | and meets records in strictly increasing byte order |
| Database.RangeKeys | store/db.go:105-125 | the iterator over byte keys, decoded, computes the query |
| Database.DB.Commit | ledis/batch.go:21-38 | the whole batch is applied, or nothing on a read-only node |
| Database.DeleteKeys | ledis/t_list.go:354-357 | the deleting loops add one delete per key walked |
| Database.RmExpireEffect | ledis/t_ttl.go:120-138 | the recorded expiry goes together with the time record it points to, and nothing else |
| Database.IncrSizeEffect | ledis/t_zset.go:351-368 | the size record changes by the delta; at zero it goes and takes the expiry with it |
| Counting.CountIsDistinct | ledis/t_set.go:218-236 | counting arguments one by one is counting distinct ones exactly if none of them repeats |
| ZSets.SetItemEffect | ledis/t_zset.go:238-266 | what one argument of ZAdd does to any store, record by record |
| ZSets.AddEffect | ledis/t_zset.go:327-341 | the effect of the whole argument loop for any arguments, repetitions included |
| ZSets.LiveScores | ledis/t_zset.go:327-341 | which score keys of a member are left after any argument list, in closed form |
| ZSets.AddView | ledis/t_zset.go:317-349 | every member given has its last score, the others keep theirs |
| ZSets.AddFrame | ledis/t_zset.go:317-349 | no other record changes; an expiry of the set stays |
| ZSets.AddIndexIff | ledis/t_zset.go:317-349 | the two indexes agree afterwards exactly if every score given is the member's last or old one |
| ZSets.AddSizeIff | ledis/t_zset.go:317-349 | the size is right afterwards exactly if no new member is given twice |
| ZSets.ZAddKeepsIff | ledis/t_zset.go:317-349 | all sorted sets stay in agreement exactly under those two conditions |
| ZSets.DistinctMembersAreSafe | ledis/t_zset.go:317-349 | distinct members always meet them |
| ZSets.RepeatedMemberBreaksSize | ledis/t_zset.go:327-341 | one new member given twice leaves a wrong size |
| ZSets.RescoredTwiceBreaksIndex | ledis/t_zset.go:317-349 | adding a stored member with two new scores leaves it in the index twice |
| ZSets.RemEffect | ledis/t_zset.go:268-291 | which records the argument loop of ZRem takes away |
| ZSets.RemView | ledis/t_zset.go:403-431 | the members named are gone, the others keep their scores |
| ZSets.RemFrame | ledis/t_zset.go:403-431 | no other record changes; the expiry only when the set empties |
| ZSets.RemIndex | ledis/t_zset.go:403-431 | whatever the arguments, the two indexes stay in step |
| ZSets.RemSizeIff | ledis/t_zset.go:403-431 | the size is right afterwards exactly if no stored member is named twice or all are named |
| ZSets.ZRemKeepsIff | ledis/t_zset.go:403-431 | all sorted sets stay in agreement exactly under that condition |
| ZSets.RepeatedRemovalBreaksSize | ledis/t_zset.go:403-431 | naming one of two members twice leaves the size wrong |
| ZSets.IncrByIsAdd | ledis/t_zset.go:434-474 | away from adding zero to a stored member, ZIncrBy is ZAdd of the wrapped sum |
| ZSets.ZIncrByKeepsIff | ledis/t_zset.go:462-470 | ZIncrBy keeps all sorted sets in agreement exactly if it does not add zero to a stored member |
| ZSets.ZeroIncrementBreaksIndex | ledis/t_zset.go:434-474 | adding zero to a member takes it out of the index |
| ZSets.FrameZOK | ledis/t_zset.go:78-173 | agreement and contents of a sorted set depend on its own records only |
| ZQueries.PairsUnique | ledis/t_zset.go:586-631 | there is one way to list a set of pairs in order |
| ZQueries.SortedPairsAre | ledis/t_zset.go:545-553 | the full walk over score keys lists exactly the members with their scores, in order |
| ZQueries.RangeIsFilter | ledis/t_zset.go:545-553 | a walk over a score range is the sorted sequence filtered by score |
| ZQueries.PairsAreMembers | ledis/t_zset.go:371-378 | the sequence has as many pairs as the size record says |
| ZQueries.ZCount | ledis/t_zset.go:477-494 | the number of pairs within the score bounds |
| ZQueries.ReverseInPlace | ledis/t_zset.go:624-628 | the swap loop reverses the array |
| ZQueries.RangeByScore | ledis/t_zset.go:586-631 | the window of the filtered sequence, reversed when asked; the forward walk turned round equals the backward walk |
| ZQueries.ParseLimitIsRankSlice | ledis/t_zset.go:633-669 | offset and count select what the Redis rule for ranks selects, negative ranks included |
| ZQueries.RangeByRank | ledis/t_zset.go:773-780 | ZRange and ZRevRange are that slice of the sequence |
| ZQueries.RankPairs | ledis/t_zset.go:496-543 | the keys counted for a rank are those up to the member, or from it on |
| ZQueries.Rank | ledis/t_zset.go:496-543 | how many members come before this one, from the front or the back, or -1 |
| ZQueries.RanksAddUp | ledis/t_zset.go:716-763 | the replies of ZRANK and ZREVRANK for a stored member add up to the size less one |
| ZWrites.RangeRemIsRem | ledis/t_zset.go:555-584 | removing a range of score keys is ZRem of their members |
| ZWrites.RemRangeKeeps | ledis/t_zset.go:555-584 | the pairs of the window go, the count is their number, and all sorted sets stay in agreement |
| ZWrites.ClearedIsGone | ledis/t_zset.go:293-297 | no record of the set and no expiry of it is left, and nothing else changes |
| ZStores.TotalIs | ledis/t_zset.go:844-866 | the aggregates are the wrapped sum, the least and the greatest contribution |
| ZStores.MergeUnion | ledis/t_zset.go:895-901 | one source merged in: old members, new members and the combined scores |
| ZStores.MergeInter | ledis/t_zset.go:965-971 | one source intersected: members of both with combined scores |
| ZStores.CollectUnion | ledis/t_zset.go:890-902 | the weighted aggregate of everything in the sources, or the size error of a source name |
| ZStores.CollectInter | ledis/t_zset.go:951-972 | the weighted aggregate of what all sources hold |
| ZStores.StoredAt | ledis/t_zset.go:904-922 | record by record what the store leaves, for any order of the writes |
| ZStores.StoredExact | ledis/t_zset.go:869-928 | whatever the order, the destination holds exactly the aggregate, both indexes, size and cleared expiry agree, and other sets are untouched, also when the destination is a source |
| ZSetOps.ZAdd | ledis/t_zset.go:317-349 | the first bad argument decides the error and nothing changes; otherwise the count of new members and the committed store |
| ZSetOps.ZRem | ledis/t_zset.go:403-431 | the same for removal |
| ZSetOps.ZIncrBy | ledis/t_zset.go:434-474 | the wrapped new score, or an error that leaves no trace of the size already in the batch |
| ZSetOps.RemRange | ledis/t_zset.go:555-584 | adds the range removal to the batch, or reports the name error and adds nothing |
| ZSetOps.ZRemRange | ledis/t_zset.go:742-753 | removes and counts exactly the pairs of the window |
| ZSetOps.ZRemRangeByRank | ledis/t_zset.go:721-739 | removes and counts exactly the pairs with those ranks |
| ZSetOps.WriteAll | ledis/t_zset.go:910-918 | every collected member is written once, in whatever order, or the first refusal is reported |
| ZSetOps.ZStore | ledis/t_zset.go:869-997 | all errors in their order, each leaving everything as it was; otherwise the destination is the aggregate of the sources before the call; what that is in numbers is in ZRuns.StoredScores |
| ZSetOps.DeleteBatch | ledis/t_zset.go:293-297 | adds the full removal, and nothing for a name that is too long |
| ZRuns.StepKeepsIff | ledis/t_zset.go:238-997 | a committed command keeps every sorted set in agreement exactly if it is safe |
| ZRuns.RunKeeps | ledis/t_zset.go:238-997 | no run of safe commands, refused ones included, ever breaks the agreement |
| ZRuns.DistinctIsSafe | ledis/t_zset.go:317-474 | distinct members and non-zero increments are safe in every state |
| ZRuns.StepDoes | ledis/t_zset.go:317-997 | each committed command is its abstract operation on the map from member to score |
| ZRuns.StepFrame | ledis/t_zset.go:317-997 | the other sorted sets keep members and scores |
| ZRuns.StoredNothing | ledis/t_zset.go:920-922 | storing nothing under a name that is too long leaves a size record of zero and changes nothing else |
| ZRuns.Execute | ledis/t_zset.go:317-997 | every call of an operation is such a step; it commits unless it is refused, the result of a store cannot be written, or the node is read-only, and then nothing changes |
| ZRuns.OneResult | ledis/t_zset.go:865-997 | a union or intersection store has one result |
| ZRuns.RefusedIff | ledis/t_zset.go:47-54 | which calls are refused, in numbers: names of 1 to 1024 bytes, scores up to 2^63 - 2 on either side, the sum that an increment makes |
| ZRuns.RefusedWith | ledis/t_zset.go:238-241 | the first argument that does not fit decides the error |
| ZRuns.StoreRefusedIff | ledis/t_zset.go:869-903 | a store is refused for its arguments exactly if the code is none of the three, there is no source, weights and sources differ in number or a source has a bad name; the first of these decides the error |
| ZRuns.StoredScores | ledis/t_zset.go:843-997 | a union holds the members of some source and an intersection those of every source, each with the 64-bit sum, the least or the greatest of its scores, as stored if no weights are given and times them otherwise |
| ZRuns.StoredCopy | ledis/t_zset.go:869-997 | a store of one source without weights is a copy of it |
| ZRuns.StoredAlone | ledis/t_zset.go:880-997 | a member of one source alone is stored with its score times the weight of that source |
| Lists.LenIsLength | ledis/t_list.go:364-384 | the decoded length is the length of the list |
| Lists.SetEndsEffect | ledis/t_list.go:386-405 | the meta record is written, dropped at length zero, and left alone at a negative length |
| Lists.PushedList | ledis/t_list.go:104-167 | a push in the window is concatenation, reversed at the front |
| Lists.PushExactIff | ledis/t_list.go:104-167 | a push that is let through is that concatenation exactly if its last number lies in the window |
| Lists.PushCheckIsRight | ledis/t_list.go:146-149 | up to 2^31 arguments the check on the wrapped number decides rightly |
| Lists.FirstPushFits | ledis/t_list.go:20-24 | up to 1073740000 arguments pushed to an absent list are let through at either end, and are the list |
| Lists.HugePushIsLetThrough | ledis/t_list.go:146-149 | 2^32 + 1 arguments pass the check and do not fit |
| Lists.PushFrame | ledis/t_list.go:104-167 | no record of anything else changes |
| Lists.PoppedList | ledis/t_list.go:169-218 | a pop removes the item at its end |
| Lists.PoppedValue | ledis/t_list.go:193-201 | and reads that item |
| Lists.TrimExactIff | ledis/t_list.go:274-327 | a positive trim is the trim on sequences exactly if, at the front, the last number to go fits 32 bits |
| Lists.TrimOverflow | ledis/t_list.go:305-308 | otherwise nothing at all is removed |
| Lists.NegativeTrimIff | ledis/t_list.go:300-317 | when a negative size leaves the list well formed, and with which items |
| Lists.ItemsInOrder | ledis/t_list.go:345-358 | a range of item keys holds the items numbered in it, in order |
| Lists.MatchingPrefix | ledis/t_list.go:566-575 | a counted walk without an upper bound is the bounded walk |
| Lists.ClearedAt | ledis/t_list.go:598-612 | clearing leaves no record of the list and no expiry of it, and changes nothing else |
| Lists.ClearedList | ledis/t_list.go:331-362 | the list is empty afterwards |
| Lists.TrimToExactIff | ledis/t_list.go:220-272 | LTrim with 64-bit ranks keeps exactly the items the Redis rule selects, in a well-formed list, if and only if the ranks cut to 32 bits select the same items and the stop rank does not stay left of the list by more than one |
| Lists.TrimToBroken | ledis/t_list.go:245-269 | in that last case every item goes while the meta record, and so the length, stays |
| Lists.KeptRanks | ledis/t_list.go:220-272 | a list that keeps the selected items reads as the slice the Redis rule gives |
| Lists.WideRankKeepsTooMuch | ledis/t_list.go:231-232 | ranks of 2^32 keep the item of a one-item list where the rule selects none |
| Lists.ShortRankBreaks | ledis/t_list.go:245-269 | ranks of -3 take the item of a one-item list and leave its length at one |
| Lists.TrimToExpiry | ledis/t_list.go:239-271 | a list that LTrim empties keeps its expiry exactly if the stop rank is one left of it |
| ListOps.LIndex | ledis/t_list.go:425-455 | the item with the rank, from either end, for every 32-bit index |
| ListOps.LRange | ledis/t_list.go:529-585 | the slice the Redis rule selects |
| ListOps.Push | ledis/t_list.go:104-167 | errors and refusals leave everything as it was; otherwise the new length and the pushed store; which pushes are never refused is in Lists.FirstPushFits and ListRuns.PushesFit |
| ListOps.Pop | ledis/t_list.go:169-218 | the item popped and the store without it, nothing for an empty list |
| ListOps.DeleteItems | ledis/t_list.go:254-263 | one delete for each number from the first to the last |
| ListOps.Trim | ledis/t_list.go:274-327 | the number removed as the code computes it, and the trimmed store |
| ListOps.DeleteList | ledis/t_list.go:331-362 | adds the removal of every item and of the meta record, and counts the items |
| ListOps.Clear | ledis/t_list.go:598-612 | returns the length and clears the list |
| ListOps.TrimTo | ledis/t_list.go:220-272 | commits the trim in 32-bit arithmetic |
| ListOps.Set | ledis/t_list.go:494-526 | refuses an index outside the list, otherwise writes the item |
| ListOps.SetExactIff | ledis/t_list.go:509-523 | an LSet that passes the check is the update on sequences exactly if the list exists |
| ListRuns.OwnListIff | ledis/t_list.go:104-526 | on its own list a committed command, with the arguments as given, is its sequence operation exactly if it is safe |
| ListRuns.StepExactIff | ledis/t_list.go:104-526 | it keeps every list well formed and is that operation exactly if it is safe |
| ListRuns.OtherList | ledis/t_list.go:104-526 | other lists stay as they are |
| ListRuns.RunRefines | ledis/t_list.go:104-526 | over every run of safe commands each list is the sequence that the sequence operations give |
| ListRuns.SetBreaks | ledis/t_list.go:509-523 | setting an item of an absent list stores that item and nothing else, so that it has no meta record |
| ListRuns.Execute | ledis/t_list.go:104-526 | every call of an operation is such a step; it commits unless it is refused or the node is read-only, and then nothing changes |
| ListRuns.RefusedIff | ledis/t_list.go:104-526 | which calls are refused, in terms of the list: bad names, no arguments, nothing to pop or trim, an index outside; an absent list lets the indexes 0 and -1 pass |
| ListRuns.PushesFit | ledis/t_list.go:104-167 | in every run whose pushes to a list are at most 1073740000 items, none of these pushes is refused |
| Collections.AddedAt | ledis/t_hash.go:227-260 | record by record what an addition leaves, the last value of a name winning |
| Collections.AddKeepsIff | ledis/t_set.go:210-241 | every size stays right exactly if no new name is given twice |
| Collections.RepeatedNameBreaksSize | ledis/t_hash.go:235-255 | one new name given twice leaves a wrong size |
| Collections.RemovedAt | ledis/t_hash.go:284-321 | record by record what a removal leaves |
| Collections.RemKeepsIff | ledis/t_set.go:430-466 | every size stays right exactly if no stored name is given twice or all are given |
| Collections.MemberKeys | ledis/t_set.go:115-125 | the walk of a collection meets exactly its records |
| Collections.MemberKeysCount | ledis/t_set.go:404-427 | as many as it has members |
| Collections.DeletedAt | ledis/t_set.go:136-152 | deleting a collection removes its records and leaves its expiry |
| SetOps.Add | ledis/t_set.go:210-241 | the first bad argument decides and nothing changes; otherwise the count of new names and the store |
| SetOps.Rem | ledis/t_hash.go:284-321 | the same for removal |
| SetOps.DeleteMembers | ledis/t_hash.go:153-168 | adds the removal of every record and of the size |
| SetOps.Clear | ledis/t_set.go:564-578 | returns the number of members and clears the collection with its expiry |
| SetOps.ResultIs | ledis/t_set.go:254-497 | union, difference and intersection are in some, in the first and no other, in all |
| SetOps.CutIsEmpty | ledis/t_set.go:279-282 | ending early on an empty intermediate result is right |
| SetOps.SMembers | ledis/t_set.go:404-427 | every member once |
| SetOps.Combine | ledis/t_set.go:254-497 | one round of each loop is the set operation |
| SetOps.Generic | ledis/t_set.go:254-497 | the result of the operation, or the size error of a key met before the work ends early |
| SetOps.StoredAt | ledis/t_set.go:511-561 | record by record what the store leaves, for any order of the writes; the expiry of the destination stays |
| SetOps.StoreGeneric | ledis/t_set.go:511-561 | errors change nothing; otherwise the destination is the result on the sets before the call |
| SetOps.AddMembers | ledis/t_set.go:539-551 | the writing loop puts every member of the result once |
| SetRuns.StepKeepsIff | ledis/t_set.go:154-561 | a committed command keeps every size right exactly if it is safe, and its members are the expected ones, also when the destination is a source |
| SetRuns.StepFrame | ledis/t_hash.go:227-343 | other sets and hashes keep their members |
| SetRuns.RunKeeps | ledis/t_set.go:154-561 | no run of safe commands leaves a wrong size |
| SetRuns.DistinctIsSafe | ledis/t_set.go:210-466 | distinct arguments are safe in every state |
| SetRuns.Execute | ledis/t_set.go:210-578 | every call of an operation is such a step; it commits unless it is refused or the node is read-only, and then nothing changes |
| SetRuns.BadNameIff | ledis/t_set.go:254-375 | a bad source name is noticed exactly if no intermediate result before it is empty |
| SetRuns.RefusedIff | ledis/t_set.go:24-31 | which calls are refused, in numbers: names of 1 to 1024 bytes and hash values up to 2^30 bytes are taken, all else is not |
| SetRuns.RefusedWith | ledis/t_hash.go:26-33 | the first argument that does not fit decides the error |
| Records.DataOwner | ledis/ledis_db.go:113-128 | a record belongs to one key of one type |
| Records.DeletedAt | ledis/ledis_db.go:119-125 | each registered delete callback removes all records of its key and nothing of any other |
| Records.ErasedWhole | ledis/ledis_db.go:119-125 | erasing a key keeps the invariants of all types |
| Expiry.ExpireOneAt | ledis/t_ttl.go:195-209 | what the check does for one time record, record by record |
| Expiry.ScannedAre | ledis/t_ttl.go:169-174 | the scan meets exactly the time records from zero to the horizon |
| Expiry.ScannedTimes | ledis/t_ttl.go:175-190 | in order of time |
| Expiry.CheckExact | ledis/t_ttl.go:155-217 | a check removes data, recorded expiry and due time records of a key exactly if it is due, and touches nothing of a key that is not |
| Expiry.RecordedDecides | ledis/t_ttl.go:155-217 | a key with a recorded expiry is due exactly if that has come and is not negative, or if it has come and an older time record has come too |
| Expiry.UnrecordedDecides | ledis/t_ttl.go:198-206 | a key without one is due exactly if some time record of it has come |
| Expiry.StaleTimeRecordRemovesKey | ledis/t_ttl.go:94-102 | expire, expire later, persist: the key has no expiry and is removed all the same |
| Expiry.NextCheckIsNear | ledis/t_ttl.go:184-214 | the next check is no later than any time record ahead |
| Expiry.CheckKeeps | ledis/t_ttl.go:155-217 | after a check every recorded expiry still has its time record, and none from the epoch on lies before the next check |
| Expiry.ExpiringKeeps | ledis/t_ttl.go:94-102 | recording an expiry, at any 64-bit time, keeps that, and lowers the next check far enough |
| Expiry.PersistKeeps | ledis/t_ttl.go:120-138 | removing an expiry removes its pair |
| Expiry.QuietKeeps | ledis/t_ttl.go:120-138 | so does every write that drops expiries only in pairs |
| Expiry.RefusedCheckIff | ledis/ledis.go:225-227 | a check whose commits are refused keeps the next check early enough exactly if no expiry from the epoch on had come |
| Expiry.RunKeeps | ledis/t_ttl.go:94-217 | in every run every expiry has its time record and no check is scheduled past one from the epoch on |
| Expiry.NothingIsMissed | ledis/t_ttl.go:155-217 | a check at or after a recorded expiry from the epoch on is not skipped and removes the key |
| Expiry.MetIff | ledis/t_ttl.go:155-217 | a key given one expiry is removed by a check at or after it exactly if the time is not negative |
| Expiry.NegativeTimeOutlives | ledis/t_ttl.go:155-217 | a key given a negative time keeps every record over every run of checks, and each check sets the next one past that time |
| ExpiryOps.PresentIsValue | ledis/t_list.go:407-422 | an expiry is recorded only for a key that has a value |
| ExpiryOps.DeleteData | ledis/ledis_db.go:119-125 | the callbacks add exactly the deletes of their type |
| ExpiryOps.TTLChecker.ExpireAt | ledis/t_list.go:407-422 | errors and absent keys change nothing; otherwise the expiry is recorded, and the next check moves even if the commit is refused |
| ExpiryOps.TTLChecker.Expire | ledis/t_kv.go:371-377 | refuses a duration that is not positive; otherwise the time recorded is clock plus duration, wrapped to 64 bits |
| ExpiryOps.DurationMetIff | ledis/t_kv.go:371-377 | a key without time records, given a duration, is due from its time on exactly if clock plus duration stay below 2^63 |
| ExpiryOps.TTLChecker.Persist | ledis/t_zset.go:826-842 | removes the expiry and says whether there was one |
| ExpiryOps.TTLChecker.ExpireRecord | ledis/t_ttl.go:195-211 | one due time record, under the lock |
| ExpiryOps.TTLChecker.Check | ledis/t_ttl.go:155-217 | does nothing before the next check time; otherwise the scan loop gives the checked store and the next check time |
| Scan.ScanContains | ledis/scan.go:65-105 | the open bounds enclose exactly the names beyond the cursor, in either direction |
| Scan.MatchedNames | ledis/scan.go:115-146 | the keys met, as names, are the names beyond the cursor in order |
| Scan.ScanGeneric | ledis/scan.go:115-146 | the next matching names, or members of one collection, as many as asked, ten without a positive count |
| Scan.ScanCommand | server/cmd_scan.go:69-253 | page and next cursor; an error for a collection under a name of the wrong size; a crash exactly on an empty page without a positive count |
| Scan.AfterShrinks | server/cmd_scan.go:115-120 | handing a cursor back leaves less to scan |
| Scan.XScanIsExact | server/cmd_scan.go:74-124 | following the cursors from the empty one gives every matching name of the type but the empty one, once, in order or reversed, and ends |
| Scan.XScanCompleteIff | ledis/scan.go:115-163 | it gives every stored name that matches exactly if the empty name is not one of them |
| Scan.RedisScanIff | server/cmd_scan.go:55-66 | HSCAN, SSCAN and ZSCAN, with the end marker "0", do so exactly if no page but the last ends with that name |
| Scan.ZeroMarkerLosesMember | server/cmd_scan.go:55-66 | SSCAN of the members "0" and "1", one at a time, ends after the first |
| Flush.CallbackDeletes | ledis/ledis_db.go:165-208 | every delete callback only deletes |
| Flush.DeletesAgain | ledis/ledis_db.go:192-206 | committing earlier deletes again changes nothing |
| Flush.RoundAt | ledis/ledis_db.go:193-197 | what one round takes away, record by record |
| Flush.RoundWhole | ledis/ledis_db.go:192-206 | a round keeps the invariants of all types |
| Flush.FlushType | ledis/ledis_db.go:165-208 | ends, with the names left as its measure; takes all records of every name found, returns their number and leaves everything else |
| Flush.NoDataLeftIff | ledis/ledis_db.go:165-208 | no data of the type is left exactly if there was none under the empty name |
| Flush.FlushedName | ledis/ledis_db.go:165-208 | a flushed name keeps no data, no expiry and no time record of that expiry |
| Flush.EmptyNameIsLeft | ledis/t_zset.go:904-922 | an empty union stored under the empty name leaves a size record that no scan finds and no flush removes |
| Flush.EmptyNameStays | ledis/ledis_db.go:165-208 | a flush of any type leaves the record under the empty name as it is |
| Flush.ScanCompleteIff | server/cmd_scan.go:74-124 | scanning a type gives every name with a record exactly if there is no record under the empty name |
| Flush.FlushFrame | ledis/ledis_db.go:165-208 | no record of another type or database is touched |
| Flush.LongNameSurvives | ledis/t_zset.go:555-558 | a name that is too long is found again after a round over any names |
| Flush.AnyRoundWhole | ledis/ledis_db.go:192-206 | a round over sorted sets keeps the invariants of all types, whatever the names |
| Flush.RoundsKeep | ledis/ledis_db.go:190-206 | after any number of rounds the invariants hold and all deletes of the batch, which is never reset, are done |
| Flush.LongNameStays | ledis/ledis_db.go:190-206 | a name that is too long is still found after any number of rounds |
| Flush.ShortNamesGo | ledis/ledis_db.go:190-206 | with short names only, every round but the last leaves fewer names |
| Flush.FlushEndsIff | ledis/ledis_db.go:165-208 | flushing the sorted sets ends exactly if every name found is one that zDelete accepts |
| Flush.EmptyStoreBlocksFlush | ledis/t_zset.go:920-922 | after an empty union is stored under a name that is too long, flushing the sorted sets does not end |
| System.DropsPairIsQuiet | ledis/t_ttl.go:120-138 | dropping an expiry with its time record keeps every other pair |
| System.ZKeepsTo | ledis/t_zset.go:238-997 | commands on sorted sets touch no record of another type |
| System.LKeepsTo | ledis/t_list.go:104-526 | nor do commands on lists |
| System.SKeepsTo | ledis/t_set.go:154-578 | nor do commands on sets and hashes |
| System.FlushIsQuiet | ledis/ledis_db.go:192-206 | a flush drops every expiry together with its time record |
| System.FlushIsWhole | ledis/ledis_db.go:192-206 | what a flush leaves after any of its rounds keeps the invariants of all types |
| System.StepKeeps | ledis/t_ttl.go:94-217 | every safe command of every type, every expiry operation, every check and every flush, finished or not, keeps all invariants together |
| System.RunKeeps | ledis/t_ttl.go:94-217 | from the empty database, so does every run |
| System.SimpleIsSafe | ledis/t_ttl.go:94-217 | expiries and checks are safe in every state, and so are commands on one member, increments but by zero, pops and clears |
| System.Perform | ledis/t_ttl.go:94-217 | every call of an operation on an open database, whatever its type, is such a step or changes nothing, and leaves all invariants in place for the next call if it is safe |

## Left out

- The ordered stores themselves (goleveldb, leveldb, rocksdb): an ordered map with atomic batch commit and snapshot iterators is assumed, and that a stored empty value is told from no value.
- Compression and the batch byte format: inverse pairs of functions.
- Locks, goroutines and clocks: an operation is atomic and takes the time as a parameter. ZUnionStore and ZInterStore read their sources before they take the lock; a write that slips in between is not modelled.
- Keepalive of table readers, memory-mapped files and the file system: a file is its bytes.
- The second log store (rpl/goleveldb_store.go), acknowledgement waiting, blocking pops, key-value string and bit commands, ZMclear and its likes, hash increments, ZRangeByLex and ZRemRangeByLex, sorting, migration, scripting, command parsing and the network: easy members or other people's code.
- Scans with an inclusive cursor: the commands and the flush never use one.
- Key-value commands are not steps of `System`, which has those of the four collection types, expiry, checks and flushes.
- ZQueries.RangeByRank: for sets of fewer than 2^63 members, because the member count is a 64-bit integer in the program; the same bound stands on ZSetOps.ZRemRangeByRank, ZSetOps.ZStore, ZRuns.StepKeepsIff and System.StepKeeps.
- Dump.DumpRoundTrip: for keys whose compressed form is shorter than 65536 bytes and values shorter than 2^32, because the fields hold no more; what a longer key turns into depends on the compression.
- Flush.FlushType: for names of at most 1024 bytes. On sorted sets it would not end with a longer one (`Flush.FlushEndsIff`); for the other types no command stores one.
- Node.Ledis.AppendLog: a log whose last id lies below the commit id refuses the next write; a reopened file store would take it and leave a gap (`Reopening.GapAfterReopen`). No run of `Recovery` reaches such a node (`Recovery.LogReachesCommitID`).
- Node.Ledis.HandleCommit: the same as for Node.Ledis.AppendLog.
- FileStore.LoadTornTable: for files that fail the table check; bytes of an unfinished table that happen to pass it are taken as they are. `LogFiles.OpenTableFailsCheck` says when that cannot happen. The same stands on Reopening.TornLoadsBack and Reopening.Recover.
- System.Perform: on a node that takes writes. On a read-only one no store changes, and `Expiry.RefusedCheckIff` says what becomes of the next check time.
- Cluster.BrokenSync: for a cut that is noticed; one between two entries is `Dump.TransferCut`.
- Scan.ScanGeneric: a pattern is any predicate on names; compiling one, and its error, is not part of the model.
