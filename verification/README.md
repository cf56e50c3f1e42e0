# Ministream: a verified model of the stream core

Ministream is a single-node append-only log. Producers are numbered under a lock and pushed
through a bounded channel, a background loop buffers and flushes them to a storage writer, and
iterators read them back by position, id or timestamp. This project models that core in Dafny
and proves that its parts refine one idea: a stream is a sequence of messages with ids 1..n, and
an iterator is a cursor into it.

`dafny verify dfyconfig.toml` checks everything.

## Files

- `Records.dfy`, `Reading.dfy`: messages, counters, iterator requests and outcomes.
- `IngestPipeline.dfy`: producers, channel, ingest buffer and the select loop of `Run` as a
  machine over atomic steps. Runs are arbitrary interleavings; whether a save succeeds is an input.
- `InMemoryIngest.dfy`, `StreamObject.dfy`: the machine with the in-memory writer, and the stream,
  buffer and writer objects, which go through exactly the runs of that machine.
- `MySqlStore.dfy`: the transactional writer, the cached catalog row and the reload.
- `LineFile.dfy`, `JsonFileStore.dfy`, `JsonFileFaults.dfy`: the data file as bytes and lines, the
  file writer with its meta info, stops, crashes and reloads, and what failed writes leave behind.
- `IndexFile.dfy`, `IndexedStore.dfy`: the 32-byte index rows, the rebuild, the searches over
  bytes, and their agreement with the data file and the writer.
- `InMemoryLog.dfy`, `InMemoryReader.dfy`, `FileReader.dfy`, `MySqlRows.dfy`, `MySqlReader.dfy`: the
  three iterator handlers, each proved to be a cursor over its store.
- `ReadPath.dfy`: what the writers leave behind is what the handlers assume.
- `StreamIterator.dfy`: the single `GetRecords` loop over any of the three handlers.
- `RequestDedup.dfy`, `PasswordHash.dfy`: the two side cores.

Nondeterminism stands for the environment: a `*` value for what other goroutines append, for the
clock and, unless the database is reliable, for how queries end, and an arbitrary byte count for
physical reads. `Arrive`, `Grow`, the `Clock` and the `Fate` arguments are such environment steps.

## Findings

The code is modelled as written. These are the places where it departs from what a caller would
expect, each with a lemma that says exactly when:

- Shutdown does not drain the channel: `StopLeavesTheChannel`, `StopCanLose`.
- A failed timed flush leaves messages with no timer until the next message: `ForgottenFlush`, with a
  run in `FlushCanStrand`.
- The in-memory searches test the last probed rank. The id search misses exactly the last of two
  or more records: `OnlyTheLastIsMissed`. The timestamp search misses more: any time for which only
  the last record is late enough, and times between two neighbours for which the halving ends on
  the wrong side: `TimestampSearchIsExact` with the condition, `LateRecordsMissed` with an input.
- In memory, `LAST_MESSAGE` starts after the last record and `AFTER_LAST_MESSAGE` one further, so
  the latter skips the next record; reported ids are 0-based indexes: `InMemoryReader`'s `Seek`
  and `GetNextRecord`. The file provider reports `FIRST_MESSAGE` ids from 0 on as well.
- A MySQL commit that is reported as failed although it happened blocks all further saves until a
  restart, and only then does a save try to insert a stored id: `ReuseNeedsLostCommit`,
  `LagUntilRestart`, with a run in `CommitCanGetLost`.
- A file write that keeps a line and then fails repeats an id as soon as the next line is written,
  in the same session or after a reload whose saved counters do not cover the kept lines:
  `IdsIncreaseExactly`, with runs in `RetryCanRepeat` and `CrashCanReuse`. If the reload comes first,
  the readable counters forget the kept lines for good: `EveryLineCounted`.
- A MySQL scan that fails leaves the old buffer index in front of the new buffer, so the first rows
  that it decoded are never delivered: `GetNextRecord`, `LossIsReal`, with a run in
  `FailedScanLosesRow`. A connection that breaks while rows are read looks like the end of the data:
  `CutShort`, with a run in `BrokenConnectionLooksLikeTheEnd`. A page of undecodable rows is never
  passed, so decodable rows behind it are never delivered: `CaughtUpExactly`, `GapIsFinal`, with a
  run in `GapHidesRow`.
- A seek by id or time on an empty index dereferences a nil row: `NilRow`, `Panicked`.
- `PutRecord`, unlike `PutRecords`, does not forget a failed batch id: `FailedPutRecordBlocksRetry`.
- sha1 password hashes can be printed but not parsed: `Sha1CannotBeLoaded`.

## Model

| member | source | states |
|---|---|---|
| IngestPipeline.Conservation | stream/stream.go:191-352 | Over every interleaving of producers, Run, failed saves and shutdown: numbered messages are, in id order and clock order, those saved, then the buffer, then the channel, then the blocked sender; the ingested counters of a new stream describe them |
| IngestPipeline.RunKeeps | stream/stream.go:169-352 | The pipeline invariant (conservation, consecutive ids from the loaded last id, counters in step, Run only between start and stop) survives any run |
| IngestPipeline.SaveStep | buffering/streamingestbuffer.go:77-86 | A step hands the writer exactly the messages after the cleared ones; success clears all of them, failure keeps all of them |
| IngestPipeline.BatchIsContiguous | stream/stream.go:191-219 | However it interleaves, one PutMessages call numbers exactly its batch, in order, with consecutive ids and one timestamp |
| IngestPipeline.StopLeavesTheChannel | stream/stream.go:257-299 | After a stop whose last save succeeded, the accepted messages never written are exactly the channel and the blocked sender; none are lost iff both are empty |
| IngestPipeline.StopCanLose | stream/stream.go:257-299 | For every buffered configuration there is a run with only successful saves that accepts a message and never writes it |
| IngestPipeline.ExitIsFinal | stream/stream.go:257-299 | Once Run has returned nothing leaves the channel or reaches the writer any more |
| IngestPipeline.ForgottenFlush | stream/stream.go:305-327 | With a positive flush frequency a live Run has buffered messages and no armed timer iff a timed flush failed and nothing was received since |
| IngestPipeline.FlushCanStrand | stream/stream.go:314-327 | For every configuration with a positive flush frequency and a buffered channel a run strands a message |
| IngestPipeline.BufferStaysSmall | stream/stream.go:331-352 | With successful saves the buffer is empty between steps without a flush frequency and stays below bulkMaxSize with one |
| IngestPipeline.ChannelStaysBounded | buffering/streamingestbuffer.go:29-41 | Over any run the channel never holds more messages than its capacity |
| InMemoryIngest.ReadableIsAPrefix | storageprovider/inmemoryprovider/streamwriter.go:42-92 | For any cap, interleaving and number of failed and retried saves, readable records are a prefix of the ingested ones with ids 1..n, none appended twice, and the readable counters describe exactly them |
| InMemoryIngest.WriteAligned | storageprovider/inmemoryprovider/streamwriter.go:67-89 | A first try or a retry of a partly stored batch leaves the records either equal to the cleared messages plus the batch, or stuck at the cap inside it |
| InMemoryIngest.WriteTook | storageprovider/inmemoryprovider/streamwriter.go:67-89 | The specification of a write stores the longest prefix of the batch that the cap admits, counts exactly those records, and succeeds iff the batch is empty, there is no cap or all of it fits |
| InMemoryIngest.UncappedStoresAll | storageprovider/inmemoryprovider/inmemorystream.go:27-42 | Without a cap every save of every run succeeds and the readable records are exactly the messages saved |
| InMemoryIngest.FailedSaveMeansFull | storageprovider/inmemoryprovider/inmemorystream.go:27-42 | With a cap a save of any reachable state fails iff the batch does not fit, and then the log is exactly full |
| StreamObject.StreamWriterInMemory.Write | storageprovider/inmemoryprovider/streamwriter.go:42-92 | Succeeds iff the batch is empty, there is no cap or all of it fits; stores the longest prefix that the cap admits and moves the counters by exactly those records |
| StreamObject.StreamIngestBuffer.Save | buffering/streamingestbuffer.go:77-86 | Hands the whole buffer to the writer, with the effect of a write spelled out, and clears it iff the writer took all of it |
| StreamObject.Stream.PutMessages | stream/stream.go:191-198 | A put is admitted iff the stream is running and the batch is not empty |
| StreamObject.Stream.NumberNext | stream/stream.go:208-215 | One loop turn numbers the next message with an id one above all ids handed out so far, keeps the stream valid and blocks on the send |
| StreamObject.Stream.OnMessage | stream/stream.go:301-312 | Takes the next waiting message. With a flush frequency <= 0 it saves the buffer and the message at once and leaves the timer alone; with a positive one it arms the timer and saves iff bulkMaxSize is reached; this is the machine's Receive step |
| StreamObject.Stream.BufferizeMessage | stream/stream.go:331-352 | Saves at once in immediate mode or when the buffer is full, else only appends |
| StreamObject.Stream.OnFlush | stream/stream.go:314-327 | The timer case saves and disarms the timer whether or not the save succeeds |
| StreamObject.Stream.OnDone | stream/stream.go:259-299 | The done case saves once and exits without draining the channel |
| StreamObject.Stream.TryStep | stream/stream.go:169-352 | Each step can be taken exactly when its own guard on the fields holds (running, lock, channel capacity, timer, closing), and otherwise no such step of the machine is enabled and nothing changes |
| StreamObject.Stream.RunSchedule | stream/stream.go:169-352 | Under any schedule of producers, Run, failing saves and shutdown the objects go through a run of the machine, every run of the machine is one they go through, and what the log holds is a prefix of the ingested messages with ids 1..n and exact counters |
| InMemoryLog.InMemoryStream.AddRecord | storageprovider/inmemoryprovider/inmemorystream.go:27-42 | Appends iff the cap admits one more record |
| InMemoryLog.InMemoryStream.GetRecordAtIndex | storageprovider/inmemoryprovider/inmemorystream.go:44-59 | Finds a record iff the index is inside the log, and says whether another follows |
| InMemoryLog.InMemoryStream.SearchById | storageprovider/inmemoryprovider/inmemorystream.go:106-142 | Sound always; over increasing ids it finds an id iff it is at a rank other than the last of several |
| InMemoryLog.OnlyTheLastIsMissed | storageprovider/inmemoryprovider/inmemorystream.go:134-141 | A stored id is missed iff there are two or more records and it is the last one |
| InMemoryLog.InMemoryStream.GetIndexAtMessageId | storageprovider/inmemoryprovider/inmemorystream.go:65-75 | The rank of the id, or an error on an empty log or a missed id |
| InMemoryLog.InMemoryStream.GetIndexAfterMessageId | storageprovider/inmemoryprovider/inmemorystream.go:77-91 | The rank just after the id, under the same exact condition |
| InMemoryLog.InMemoryStream.SearchByTime | storageprovider/inmemoryprovider/inmemorystream.go:144-183 | Sound always; over ordered times it finds a record iff the first late record is not the last of several and carries exactly the time or is the last rank probed |
| InMemoryLog.TimestampSearchIsSound | storageprovider/inmemoryprovider/inmemorystream.go:144-183 | A hit is the first record at or after the time or carries exactly that time; it fails when all are earlier |
| InMemoryLog.TimestampSearchIsExact | storageprovider/inmemoryprovider/inmemorystream.go:144-183 | The exact condition of success, in terms of the first late record, its time and the shape of the halving |
| InMemoryLog.StoredTimeIsFound | storageprovider/inmemoryprovider/inmemorystream.go:144-183 | A time that a record other than the last one carries is always found |
| InMemoryLog.EarlyTimeIsFound | storageprovider/inmemoryprovider/inmemorystream.go:144-183 | A time at or before the first of two or more records is always found |
| InMemoryLog.LateRecordsMissed | storageprovider/inmemoryprovider/inmemorystream.go:174-182 | An input on which two of three records are late enough and the search fails |
| InMemoryReader.StreamIteratorHandlerInMemory.Seek | storageprovider/inmemoryprovider/streamiteratorhandlerinmemory.go:32-64 | Where each request starts, exactly when it fails, and that later calls change nothing |
| InMemoryReader.StreamIteratorHandlerInMemory.GetNextRecord | storageprovider/inmemoryprovider/streamiteratorhandlerinmemory.go:72-79 | Delivers the record under the cursor iff there is one; what was delivered stays the records from start to cursor while the log grows |
| MySqlReader.StreamIteratorHandlerMySQL.Seek | storageprovider/mysqlprovider/streamiteratorhandler.go:46-82 | Where each request starts according to the readable counters and the table, and when it fails |
| MySqlReader.StreamIteratorHandlerMySQL.FillBuffer | storageprovider/mysqlprovider/streamiteratorhandler.go:117-183 | A page extends the window by exactly its decodable rows, also when a scan fails or the connection breaks midway, and never beyond a gap |
| MySqlReader.StreamIteratorHandlerMySQL.GetNextRecord | storageprovider/mysqlprovider/streamiteratorhandler.go:88-115 | For every way a query can end: the outcome, the row delivered, the rows left in the buffer, the next id, and which decoded rows a failed scan skips; delivered rows followed by the unread buffer stay the decodable rows from the start to the next id without the skipped ones |
| MySqlReader.StreamIteratorHandlerMySQL.LossIsReal | storageprovider/mysqlprovider/streamiteratorhandler.go:88-161 | Rows are missing between the start and the next id iff some were skipped, and no skipped row is ever delivered or in the buffer |
| MySqlReader.FailedScanLosesRow | storageprovider/mysqlprovider/streamiteratorhandler.go:142-161 | For any three decodable rows and any page of two or more there is a run that delivers the first and the third and never the second |
| MySqlReader.BrokenConnectionLooksLikeTheEnd | storageprovider/mysqlprovider/streamiteratorhandler.go:140-183 | For any two decodable rows: a connection that breaks before the second one reports the end of the data, and the next complete query delivers that row |
| MySqlReader.StreamIteratorHandlerMySQL.Grow | storageprovider/mysqlprovider/streamiteratorhandler.go:20-24 | Rows appended above the top keep the read-ahead coherent |
| MySqlRows.FillWindow | storageprovider/mysqlprovider/streamiteratorhandler.go:163-180 | Reading rows of a page covers the window up to the next id although that id does not move past undecodable rows |
| MySqlRows.PageIs | storageprovider/mysqlprovider/streamiteratorhandler.go:123-124 | A page holds the rows from the id on with the smallest ids, in order: a row is missing only if the page is full of smaller ids |
| MySqlRows.WindowIs | storageprovider/mysqlprovider/streamiteratorhandler.go:163-180 | A window is exactly the decodable rows with an id in its range, in id order |
| MySqlRows.PageStopsAtGap | storageprovider/mysqlprovider/streamiteratorhandler.go:163-180 | A page that starts at or before a full page of undecodable rows leaves the next id at or before it |
| MySqlRows.NothingLeftExactly | storageprovider/mysqlprovider/streamiteratorhandler.go:102-106 | When a page has nothing to deliver, decodable rows are left iff one stands behind a gap at or above the start |
| MySqlReader.StreamIteratorHandlerMySQL.CaughtUpExactly | storageprovider/mysqlprovider/streamiteratorhandler.go:88-115 | A cursor that has nothing to deliver has delivered every decodable row from its start on iff it skipped none and none stands behind a full page of undecodable rows at or above the start |
| MySqlReader.StreamIteratorHandlerMySQL.GapIsFinal | storageprovider/mysqlprovider/streamiteratorhandler.go:163-180 | After any calls, failures and appends nothing above the first row of such a gap has been delivered or read ahead, and appends do not close the gap |
| MySqlReader.GapHidesRow | storageprovider/mysqlprovider/streamiteratorhandler.go:163-180 | For any undecodable rows and a page of their number a decodable row behind them is not delivered |
| MySqlReader.StreamTable.GetMessageIdAfterMessageId | storageprovider/mysqlprovider/streamindex.go:195-224 | The next stored id, or an error above the last readable id or at the end of the table |
| MySqlReader.StreamTable.GetMessageId | storageprovider/mysqlprovider/streamindex.go:160-193 | The id itself iff it is readable and stored |
| MySqlReader.StreamTable.GetMessageIdAtTimestamp | storageprovider/mysqlprovider/streamindex.go:226-250 | The lowest id at or after the time, or an error iff all rows are earlier |
| MySqlStore.StreamWriterMySQL.Write | storageprovider/mysqlprovider/streamwriter.go:44-224 | For every point of failure: a transaction that commits with new ids stores exactly the batch, advances the counters by it and reports success; one that fails leaves the table as it was unless its commit is lost; the counters move only on success |
| MySqlStore.TransactIs | storageprovider/mysqlprovider/streamwriter.go:44-185 | Which fates of a non-empty batch are reported as saved, what the table, the catalog row and the counters are after each, spelled out over ids and messages |
| MySqlStore.TransactAllOrNothing | storageprovider/mysqlprovider/streamwriter.go:44-185 | Whatever its fate, a transaction keeps the ids exactly 1..n and changes no stored row |
| MySqlStore.LoadStreamCatalog | storageprovider/mysqlprovider/streamcatalog.go:204-319 | Every catalog row yields ingested and readable counters with its count, ids and times, NULL ids as 0, under its uuid |
| MySqlStore.TableIsExact | storageprovider/mysqlprovider/streamwriter.go:44-185 | Over any run of puts, flushes, transactions of any fate, crashes and reloads: the table holds exactly ids 1..n, the cached count and last id are n, the cached timestamps are those of rows 1 and n to the second, and every message ever reported as saved, in any session, is stored |
| MySqlStore.CommittedIsStored | storageprovider/mysqlprovider/streamwriter.go:145-185 | Over any run from an empty database in which every transaction commits, crashes and reloads included, every save succeeds and the table holds exactly the messages saved, the k-th under id k |
| MySqlStore.ReloadContinues | storageprovider/mysqlprovider/streamcatalog.go:243-297 | After a reload the counters are those of the catalog row and every later message is numbered from just above the stored rows |
| MySqlStore.RowsAreFinal | storageprovider/mysqlprovider/streamwriter.go:109-128 | No step, crash or reload changes or removes a stored row |
| MySqlStore.ReuseIsLag | storageprovider/mysqlprovider/streamwriter.go:109-128 | A save tries to insert a stored id iff the readable counters lag behind the catalog row |
| MySqlStore.LagNeedsLostCommit | storageprovider/mysqlprovider/streamwriter.go:145-172 | Counters start to lag iff a non-empty batch was committed but reported as failed |
| MySqlStore.LagUntilRestart | storageprovider/mysqlprovider/streamcatalog.go:243-297 | While they lag no save changes the database; a reload repairs it, and only a reload |
| MySqlStore.ReuseNeedsLostCommit | storageprovider/mysqlprovider/streamwriter.go:109-172 | Over any run from an empty database, the next batch handed to the writer holds a stored id iff a non-empty batch was committed but reported as failed and no reload followed |
| MySqlStore.NeverReused | storageprovider/mysqlprovider/streamwriter.go:109-128 | Over any run without such a commit no insert reuses a stored id |
| MySqlStore.CommitCanGetLost | storageprovider/mysqlprovider/streamwriter.go:145-172 | For every configuration of a buffered channel a run makes the counters lag |
| JsonFileStore.StreamWriterFile.Write | storageprovider/jsonfileprovider/streamwriter.go:160-238 | Appends exactly the lines before the point of failure behind the old content, counts those, and saves the meta info only when it succeeds |
| JsonFileStore.AppendWrote | storageprovider/jsonfileprovider/streamwriter.go:182-238 | The specification of a write in terms of content, lines kept, counters, size and saved meta info for every point of failure |
| JsonFileStore.StoredIdsIncrease | storageprovider/jsonfileprovider/streamwriter.go:182-238 | Over successful writes cut by any stops, crashes between writes and reloads: the file is lines with strictly increasing ids from 1 and ordered times, and the readable counters and size describe it |
| JsonFileStore.RestartKeeps | storageprovider/jsonfileprovider/streamcatalogfile.go:220-255 | A reload continues above every stored id because the saved ingested counters are never below one |
| JsonFileFaults.RetryRepeatsLines | storageprovider/jsonfileprovider/streamwriter.go:190-235 | The data file that a failed write and its retry leave holds the kept lines and then the whole batch; its ids increase iff the failed write kept no line |
| JsonFileFaults.CrashInsideWriteReusesIds | storageprovider/jsonfileprovider/streamwriter.go:190-237 | After a crash inside a write the first message that the reloaded stream numbers carries an id that is on file iff a line was kept and the last one is above the saved ingested counter |
| JsonFileFaults.ReloadReusesIds | storageprovider/jsonfileprovider/streamcatalogfile.go:220-255 | After any reload the first message numbered carries an id that is on file iff the last line on file is above the saved ingested counter |
| JsonFileFaults.IdsIncreaseExactly | storageprovider/jsonfileprovider/streamwriter.go:182-238 | Over any run of writes that stop anywhere, crashes and reloads the file is the lines of whole messages, and their ids increase iff no write kept a line and failed with the next line coming before a reload whose saved ingested counters cover the file |
| JsonFileFaults.EveryLineCounted | storageprovider/jsonfileprovider/streamwriter.go:182-238 | Over any such run the readable counters count every line on file iff no write kept a line and failed with a reload coming before the next successful write |
| JsonFileFaults.ExposureBegins | storageprovider/jsonfileprovider/streamwriter.go:190-235 | The file becomes exposed exactly by a failed write that kept a line |
| JsonFileFaults.ExposureEnds | storageprovider/jsonfileprovider/streamcatalogfile.go:220-255 | With nothing written, exposure ends exactly with a reload whose saved ingested counters cover the last line |
| JsonFileFaults.SuccessIsUnexposed | storageprovider/jsonfileprovider/streamwriter.go:182-238 | No run of successful writes, crashes between writes and reloads exposes the file |
| JsonFileFaults.RetryCanRepeat | storageprovider/jsonfileprovider/streamwriter.go:190-235 | For every configuration of a buffered channel a run leaves the same line twice on file |
| JsonFileFaults.CrashCanReuse | storageprovider/jsonfileprovider/streamwriter.go:190-237 | For every configuration of a buffered channel a run with a crash writes the same id twice |
| LineFile.LinesOfFlat | storageprovider/jsonfileprovider/streamindexfile.go:106-113 | Splitting concatenated lines gives the lines back |
| LineFile.LinesFrom | storageprovider/jsonfileprovider/streamindexfile.go:144-147 | Reading from the sum of the earlier line lengths yields that line and all later ones |
| LineFile.LineOnFile | storageprovider/jsonfileprovider/streamwriter.go:190-210 | The bytes of message k on file: its encoding and one line feed, at the sum of the lengths of the lines before it |
| IndexFile.RowRoundTrip | storageprovider/jsonfileprovider/streamindexfile.go:40-47 | A 32-byte row decodes to the row that was written |
| IndexFile.LittleEndianBytes | storageprovider/jsonfileprovider/streamindexfile.go:149 | Byte k of an encoded number is its digit to the base 256 of weight 256 to the power of k |
| IndexFile.IndexBytes | storageprovider/jsonfileprovider/streamindexfile.go:40-47 | The bytes of row k of an index file: at 32 k the id, then length, offset and time, 64 bits each with the least significant byte first |
| IndexFile.DecodedRow | storageprovider/jsonfileprovider/streamindexfile.go:434 | What any 32 bytes decode to: weighted sums of the bytes, the last three in two's complement |
| IndexFile.RowsRoundTrip | storageprovider/jsonfileprovider/streamindexfile.go:420-458 | At each rank the index file decodes to the row written there |
| IndexFile.StreamIndexFile.BuildIndex | storageprovider/jsonfileprovider/streamindexfile.go:57-203 | Succeeds iff every line decodes; then the file is 32 bytes for each line, its id, length, offset and time byte by byte, and the statistics are those of the whole file |
| IndexFile.StreamIndexFile.GetRowAtIndexPos | storageprovider/jsonfileprovider/streamindexfile.go:420-447 | Reads the row of a rank from the bytes |
| IndexFile.StreamIndexFile.SearchMessageId | storageprovider/jsonfileprovider/streamindexfile.go:340-378 | Sound always; over increasing ids it answers exactly like a linear scan of the decoded rows |
| IndexFile.StreamIndexFile.SearchTimestamp | storageprovider/jsonfileprovider/streamindexfile.go:380-418 | Over ordered times it fails iff every row is earlier, and otherwise returns the first row at or after the time or one with that very time |
| IndexFile.StreamIndexFile.ReadLastRow | storageprovider/jsonfileprovider/streamindexfile.go:254-300 | The row in the last 32 bytes of any file, which is the last row of a file of whole rows; an error iff the file is shorter |
| IndexFile.StreamIndexFile.GetOffsetLastMessage | storageprovider/jsonfileprovider/streamindexfile.go:209-216 | Id and offset of the row in the last 32 bytes, the last row of a file of whole rows |
| IndexFile.StreamIndexFile.GetOffsetAfterLastMessage | storageprovider/jsonfileprovider/streamindexfile.go:218-225 | The id and offset just after that row |
| IndexFile.StreamIndexFile.GetOffsetAtMessageId | storageprovider/jsonfileprovider/streamindexfile.go:227-234 | Where a linear scan finds the id; a nil row iff the index is empty |
| IndexFile.StreamIndexFile.GetOffsetAfterMessageId | storageprovider/jsonfileprovider/streamindexfile.go:236-243 | Just after where a linear scan finds the id; a nil row iff the index is empty |
| IndexFile.StreamIndexFile.GetOffsetAtTimestamp | storageprovider/jsonfileprovider/streamindexfile.go:245-252 | The offset of a row at or after the time; an error iff all are earlier |
| IndexedStore.IndexReadsBack | storageprovider/jsonfileprovider/streamindexfile.go:102-180 | A rebuilt index decodes to the id, length, offset and time of every stored message |
| IndexedStore.SeekIsLinearScan | storageprovider/jsonfileprovider/streamindexfile.go:227-243 | AT and AFTER a stored id start at the line, or just after it, that a linear scan finds |
| IndexedStore.SeekMisses | storageprovider/jsonfileprovider/streamindexfile.go:340-378 | Ids that are not stored are not found |
| IndexedStore.LastIsTheLastLine | storageprovider/jsonfileprovider/streamindexfile.go:209-225 | In a rebuilt index LAST starts at the last line and AFTER_LAST at the end of the file |
| IndexedStore.TimeIsALine | storageprovider/jsonfileprovider/streamindexfile.go:245-252 | A seek by time starts at the line of a message at or after the time, the first such or one of that very time |
| IndexedStore.RebuildAgrees | storageprovider/jsonfileprovider/streamindexfile.go:182-186 | Over any run of successful writes and reloads, a rebuild reports the writer's count, size, ids and timestamps, and its rows are sorted |
| IndexedStore.ReadToEndIsLinearScan | storageprovider/jsonfileprovider/streamiteratorhandlerfile.go:65-163 | Seek through a rebuilt index and read to the end: exactly the lines of a linear scan from, or just after, the id |
| FileReader.StreamIteratorHandlerFile.Seek | storageprovider/jsonfileprovider/streamiteratorhandlerfile.go:65-105 | The first call answers as the index does: placed at its position, failed without one or with a negative offset, and panicking iff the index is empty and the request is looked up in it; later calls seek the saved physical offset without losing buffered bytes |
| FileReader.StreamIteratorHandlerFile.ReadString | storageprovider/jsonfileprovider/streamiteratorhandlerfile.go:113-118 | For any physical read sizes, one more line of the file, or nothing iff no byte is left |
| FileReader.StreamIteratorHandlerFile.GetNextRecord | storageprovider/jsonfileprovider/streamiteratorhandlerfile.go:113-163 | Delivers the next line with consecutive reported ids, and saves the physical position at the end of the file |
| FileReader.StreamIteratorHandlerFile.Continuity | storageprovider/jsonfileprovider/streamiteratorhandlerfile.go:107-163 | Over any calls and whole-line appends the delivered lines are the file's lines from the start offset, with no gap or repeat |
| ReadPath.DeliversIngested | storageprovider/inmemoryprovider/streamiteratorhandlerinmemory.go:72-79 | Over the log of a stream object an iterator delivers the ingested messages from its start on, record k being the one with id k + 1 |
| ReadPath.ReachedIds | storageprovider/inmemoryprovider/inmemorystream.go:106-142 | There a seek by id finds exactly the ids 1..n without the last of several |
| ReadPath.TableIsConsistent | storageprovider/mysqlprovider/streamindex.go:160-250 | After any run of the MySQL writer the rows and readable counters are what index and handlers rely on |
| ReadPath.StepOnlyGrows | storageprovider/mysqlprovider/streamwriter.go:109-128 | Every step, crash and reload only appends rows above the top, as the read-ahead needs |
| StreamIterator.Handler.GetNextRecord | types/istreamiteratorhandler.go:14-20 | The contract all three handlers meet, for every way a query can end: one more item in order, or nothing delivered and, unless a query was interrupted, the cursor exhausted |
| StreamIterator.StreamIterator.Collect | stream/streamiterator.go:135-219 | The loop ends for any appends during sleeps; the response holds, in order, each decodable item consumed or what the filter emits for it, counts the dropped and the failed ones, and remains open iff it is full |
| StreamIterator.StreamIterator.GetRecords | stream/streamiterator.go:78-240 | Succeeds iff the cursor is placed. On success the records are, in order, the decodable items consumed or the values that the filter emits for them; skipped are those without output, errors those that do not decode or fail; remain iff a message was read and maxRecords is reached, else the cursor is exhausted unless a MySQL query was interrupted; an empty page took its full wait time by the clock; statistics and pages so far are those of everything delivered |
| StreamIterator.SentConcat | stream/streamiterator.go:175-218 | Filtering is independent of page boundaries |
| StreamIterator.SentPicks | stream/streamiterator.go:175-211 | What a run of items sends: the values of exactly the decodable items that no filter holds back, in order |
| StreamIterator.TallyCounts | stream/streamiterator.go:160-211 | How many items are skipped and how many are errors, as sizes of the sets of those items |
| StreamIterator.EveryItemCounted | stream/streamiterator.go:160-211 | Every consumed item is sent, skipped or counted as an error |
| StreamIterator.StreamIterator.Pages | stream/streamiterator.go:120-239 | All pages concatenate to the filtered records from start to cursor in memory, the filtered decodings of the first lines after the start of a file, all of them when nothing is left, and the filtered first decodable rows from the start id in MySQL without those a failed scan skipped, however far the read-ahead went |
| StreamIterator.StreamIterator.ReadPages | stream/streamiterator.go:78-240 | The same for any sequence of calls with any page sizes and appends during and between them; each page value belongs to one delivered item, in order |
| RequestDedup.RequestDeduplicatorManager.CleanupExpiredEntries | web/requestdeduplicator .go:71-84 | The sweep removes exactly the entries older than the time to live |
| RequestDedup.WebAPIServer.PutRecords | web/apistream.go:657-754 | For each case of the put: a remembered batch id is a duplicate and nothing happens; otherwise the id is remembered from now on iff the put is accepted, and malformed or refused records leave no id behind |
| RequestDedup.WebAPIServer.PutRecord | web/apistream.go:585-643 | Rejects a remembered batch id and remembers a new one, also when the put fails |
| RequestDedup.AcceptedPutsAreApart | web/apistream.go:667-744 | Over any run of puts, failures and ticks, two accepted puts with the same stream and non-empty batch id are more than the time to live apart |
| RequestDedup.FailureLeavesNoTrace | web/apistream.go:704-735 | A put that is not accepted leaves the processed ids as they were, except a failed PutRecord with a batch id |
| RequestDedup.FailedPutRecordBlocksRetry | web/apistream.go:594-633 | After a failed PutRecord every retry within the time to live is a duplicate |
| RequestDedup.DuplicateHasCause | web/apistream.go:667-744 | From an empty set, a put is a duplicate only if the same stream and batch was put before, accepted or by PutRecord |
| RequestDedup.AcceptedAgainAfterTick | web/requestdeduplicator .go:71-84 | The first cleanup tick after the time to live makes room for the batch id again |
| RequestDedup.OtherPutsDoNotInterfere | web/apistream.go:667-670 | Puts of another stream or batch never decide about this one |
| PasswordHash.RoundTrip | auth/pbkdf2.go:28-54 | Parsing the printed form gives the structure back iff the digest is known with its id, the iterations are a non-negative int, the salt is non-empty without dollar signs and the hash is non-empty without blanks |
| PasswordHash.ParserIsExact | auth/pbkdf2.go:28-54 | The parser accepts exactly the strings that begin with the printed form of a known digest and a count below 2^63, followed by nothing or a blank, and returns those parts |
| PasswordHash.PrintedForm | auth/pbkdf2.go:93-95 | The printed form, piece by piece |
| PasswordHash.DecimalRoundTrip | auth/pbkdf2.go:41-44 | A printed iteration count parses to itself |
| PasswordHash.DecimalDigits | auth/pbkdf2.go:93-95 | Digit k from the right of a printed count has weight 10 to the power of k, and there is no leading zero |
| PasswordHash.HexDigits | auth/pbkdf2.go:68-92 | A key is printed as two lower-case hexadecimal digits for each byte, high half first |
| PasswordHash.VerifyCases | auth/pbkdf2.go:56-92 | What verification compares for every digest number |
| PasswordHash.VerifyAfterHash | auth/pbkdf2.go:56-140 | A stored hash verifies exactly the passwords that derive the same key |
| PasswordHash.Sha1CannotBeLoaded | auth/pbkdf2.go:97-123 | sha1 hashes are printed but never parsed |

## Left out

- Id, counter and byte-count overflow at 64 bits outside the index rows: ids are unbounded, because 2^64 messages cannot be stored.
- Live index rows: the file writer also appends 20-byte rows to the index file, which the 32-byte reader does not understand; index results are stated for an index produced by BuildIndex.
- StreamObject.Stream.Begin: says nothing about starting a stream object again after Close; its done channel stays closed and the service never does it.
- JsonFileStore.StoredIdsIncrease: assumes that writes succeed and are not cut in the middle; `JsonFileFaults.dfy` says exactly what then happens to the lines, ids and counts. The meta info file is a value: it is overwritten without truncation, and the decoder reads its first JSON value only.
- MySqlStore.LoadStreamCatalog: speaks of the rows that were read; a connection that breaks while the catalog is read ends its loop without an error, and the streams of the rows behind are missing until the next reload.
- The Run loop and PutMessages appear as their atomic steps, so blocking sends, the select and the lock are interleavings and not calls that wait.
- Operating-system errors and torn writes of files: appends are whole lines. The non-recoverable read error of GetRecords, which only such an error causes, is not a branch of the model.
- Byte sizes of in-memory and ingested messages (the printed length of a Go value), the RecordsRead statistic, and the response's UUIDs and milliseconds.
- Locks held by a transaction that is neither committed nor rolled back after a failed marshal or meta update: such a transaction counts as not committed.
- The iterator busy flag is a separate load and store; calls on one iterator are serial here.
- JSON, jq, key derivation: uninterpreted functions (a codec that puts a message on one line and reads it back, a function from record to outcome, a function to a key of the digest's length).
- HTTP routing, conversion of JSON lines to arrays, rate limiting, JWT, RBAC, accounts, configuration, logging and audit log: lookups and plumbing.
- GetStreamsUUIDsFiltered: takes its write lock and then re-enters the read lock, so it has no result to state.
