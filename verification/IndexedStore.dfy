/** The index rebuilt from a stored data file: it reports what the writer counted, and seeking
    through it reads the same lines as a linear scan of the data file. */
module IndexedStore {
  import opened Records
  import opened LineFile
  import opened IndexFile
  import opened JsonFileStore
  import opened Reading
  import opened FileReader
  import IngestPipeline

  /** The messages and their file fit the 64-bit fields of the index rows. */
  ghost predicate Representable(c: Codec, msgs: seq<Message>) {
    && (forall m | m in msgs :: m.id < TWO_64 && FitsInt64(m.time))
    && |Flat(Encoded(c, msgs))| < TWO_63
  }

  /** What BuildIndex leaves in the index file for a data file of these messages. */
  ghost function IndexOf(c: Codec, msgs: seq<Message>): seq<Row>
    requires Faithful(c)
    ensures |IndexOf(c, msgs)| == |msgs|
    ensures forall k | 0 <= k < |msgs| ::
      IndexOf(c, msgs)[k] == Row(msgs[k].id, |Encoded(c, msgs)[k]|, OffsetOf(Encoded(c, msgs), k), msgs[k].time)
  {
    EncodedLines(c, msgs);
    RowsOf(c, Encoded(c, msgs))
  }

  lemma LineFits(ls: seq<Bytes>, k: nat)
    requires k < |ls|
    ensures OffsetOf(ls, k) + |ls[k]| <= |Flat(ls)|
  {
    OffsetNext(ls, k);
    assert ls == ls[..k + 1] + ls[k + 1..];
    FlatConcat(ls[..k + 1], ls[k + 1..]);
  }

  /** The index file decodes to the rows that the rebuild computed. */
  lemma IndexReadsBack(c: Codec, msgs: seq<Message>)
    requires Faithful(c) && Representable(c, msgs)
    ensures Lines(Flat(Encoded(c, msgs))) == Encoded(c, msgs) && Decodable(c, Encoded(c, msgs))
    ensures Rows(EncodeAll(RowsOf(c, Encoded(c, msgs)))) == IndexOf(c, msgs)
  {
    EncodedLines(c, msgs);
    LinesOfFlat(Encoded(c, msgs));
    var rows := IndexOf(c, msgs);
    forall r | r in rows
      ensures Fits(r)
    {
      var k :| 0 <= k < |rows| && rows[k] == r;
      LineFits(Encoded(c, msgs), k);
    }
    RowsRoundTrip(rows);
  }

  /** A reader placed at the offset sees exactly these lines up to the end of the file. */
  ghost predicate ReadsFrom(content: Bytes, offset: int, lines: seq<Bytes>) {
    0 <= offset <= |content| && Lines(content[offset..]) == lines
  }

  lemma ReadsFromLine(lines: seq<Bytes>, k: nat)
    requires AllLines(lines) && k <= |lines|
    ensures ReadsFrom(Flat(lines), OffsetOf(lines, k), lines[k..])
  {
    LinesFrom(lines, k);
  }

  lemma RowsIncrease(c: Codec, msgs: seq<Message>)
    requires Faithful(c)
    ensures IdsIncrease(msgs) ==> RowIdsIncrease(IndexOf(c, msgs))
    ensures TimesOrdered(msgs) ==> RowTimesOrdered(IndexOf(c, msgs))
  {
  }

  lemma FindStored(c: Codec, msgs: seq<Message>, k: nat)
    requires Faithful(c) && IdsIncrease(msgs) && k < |msgs|
    ensures AtId(IndexOf(c, msgs), msgs[k].id) == At(msgs[k].id, OffsetOf(Encoded(c, msgs), k))
    ensures AfterId(IndexOf(c, msgs), msgs[k].id) == At(msgs[k].id + 1, OffsetOf(Encoded(c, msgs), k + 1))
  {
    var rows := IndexOf(c, msgs);
    RowsIncrease(c, msgs);
    FindIdAt(rows, k);
    OffsetNext(Encoded(c, msgs), k);
    assert FindId(rows, rows[k].id) == Some(rows[k]);
  }

  /** Through the index, AT_MESSAGE_ID of the stored message k starts exactly at line k and
      AFTER_MESSAGE_ID just after it: reading on gives what a linear scan gives from there. */
  lemma SeekIsLinearScan(c: Codec, msgs: seq<Message>, k: nat)
    requires Faithful(c) && IdsIncrease(msgs) && k < |msgs|
    ensures
      var at := AtId(IndexOf(c, msgs), msgs[k].id);
      at.At? && at.id == msgs[k].id && ReadsFrom(Flat(Encoded(c, msgs)), at.offset, Encoded(c, msgs)[k..])
    ensures
      var after := AfterId(IndexOf(c, msgs), msgs[k].id);
      && after.At? && after.id == msgs[k].id + 1
      && ReadsFrom(Flat(Encoded(c, msgs)), after.offset, Encoded(c, msgs)[k + 1..])
  {
    EncodedLines(c, msgs);
    FindStored(c, msgs, k);
    ReadsFromLine(Encoded(c, msgs), k);
    ReadsFromLine(Encoded(c, msgs), k + 1);
  }

  /** Ids that are not stored are not found. */
  lemma SeekMisses(c: Codec, msgs: seq<Message>, id: nat)
    requires Faithful(c) && forall m | m in msgs :: m.id != id
    ensures AtId(IndexOf(c, msgs), id) == NotFound && AfterId(IndexOf(c, msgs), id) == NotFound
  {
    FindIdNone(IndexOf(c, msgs), id);
  }

  lemma TailOfRows(rows: seq<Row>)
    requires rows != [] && Rows(EncodeAll(rows)) == rows
    ensures TailRow(EncodeAll(rows)) == Some(rows[|rows| - 1])
  {
    AllBytes(rows);
    TailIsLast(EncodeAll(rows));
    hide EncodeAll, TailRow, Rows, RowBytes;
  }

  lemma ReadsLastLine(lines: seq<Bytes>, row: Row)
    requires AllLines(lines) && lines != []
    requires row.offset == OffsetOf(lines, |lines| - 1) && row.length == |lines[|lines| - 1]|
    ensures ReadsFrom(Flat(lines), row.offset, [lines[|lines| - 1]])
    ensures ReadsFrom(Flat(lines), row.offset + row.length, [])
  {
    OffsetNext(lines, |lines| - 1);
    ReadsFromLine(lines, |lines| - 1);
    ReadsFromLine(lines, |lines|);
    hide Flat, ReadsFrom;
    assert lines[|lines| - 1..] == [lines[|lines| - 1]];
  }

  lemma LastRow(c: Codec, msgs: seq<Message>) returns (lines: seq<Bytes>, row: Row)
    requires Faithful(c) && msgs != []
    ensures lines == Encoded(c, msgs) && AllLines(lines) && |lines| == |msgs|
    ensures row == IndexOf(c, msgs)[|msgs| - 1] && row.id == msgs[|msgs| - 1].id
    ensures row.offset == OffsetOf(lines, |lines| - 1) && row.length == |lines[|lines| - 1]|
  {
    EncodedLines(c, msgs);
    hide *;
    lines, row := Encoded(c, msgs), IndexOf(c, msgs)[|msgs| - 1];
  }

  lemma TailOfIndex(c: Codec, msgs: seq<Message>)
    requires Faithful(c) && Representable(c, msgs) && msgs != []
    ensures TailRow(EncodeAll(IndexOf(c, msgs))) == Some(IndexOf(c, msgs)[|msgs| - 1])
  {
    IndexReadsBack(c, msgs);
    EncodedLines(c, msgs);
    assert IndexOf(c, msgs) == RowsOf(c, Encoded(c, msgs));
    hide *;
    TailOfRows(IndexOf(c, msgs));
  }

  /** In a rebuilt index LAST_MESSAGE starts at the last line, and AFTER_LAST_MESSAGE at the end. */
  lemma LastIsTheLastLine(c: Codec, msgs: seq<Message>) returns (tail: Row)
    requires Faithful(c) && Representable(c, msgs) && msgs != []
    ensures TailRow(EncodeAll(IndexOf(c, msgs))) == Some(tail) && tail.id == msgs[|msgs| - 1].id
    ensures ReadsFrom(Flat(Encoded(c, msgs)), tail.offset, [Encoded(c, msgs)[|msgs| - 1]])
    ensures ReadsFrom(Flat(Encoded(c, msgs)), tail.offset + tail.length, [])
  {
    hide *;
    TailOfIndex(c, msgs);
    var lines, row := LastRow(c, msgs);
    ReadsLastLine(lines, row);
    tail := row;
  }

  /** AT_TIMESTAMP starts at the line of a message at or after the time: the first such message,
      or one of that very time. */
  lemma TimeIsALine(c: Codec, msgs: seq<Message>, time: int, row: Row) returns (k: nat)
    requires Faithful(c) && AtOrAfter(IndexOf(c, msgs), time, row)
    ensures k < |msgs| && msgs[k].time >= time
    ensures msgs[k].time == time || forall j | 0 <= j < k :: msgs[j].time < time
    ensures row.id == msgs[k].id && ReadsFrom(Flat(Encoded(c, msgs)), row.offset, Encoded(c, msgs)[k..])
  {
    EncodedLines(c, msgs);
    hide *;
    var rows := IndexOf(c, msgs);
    k := LateRow(rows, time, row);
    ReadsFromLine(Encoded(c, msgs), k);
    assert forall j | 0 <= j < k :: rows[j].time == msgs[j].time;
  }

  lemma LateRow(rows: seq<Row>, time: int, row: Row) returns (k: nat)
    requires AtOrAfter(rows, time, row)
    ensures k < |rows| && rows[k] == row && row.time >= time
    ensures row.time == time || forall j | 0 <= j < k :: rows[j].time < time
  {
    k :| 0 <= k < |rows| && rows[k] == row && row.time >= time
      && (row.time == time || forall j | 0 <= j < k :: rows[j].time < time);
  }

  lemma StatsAgree(c: Codec, files: Files, stored: seq<Message>)
    requires Faithful(c) && Agree(c, files, stored)
    ensures
      var lines, r := Lines(files.content), files.readable;
      && lines == Encoded(c, stored) && Decodable(c, lines)
      && StatsOf(c, lines).count == r.count && StatsOf(c, lines).size == files.size
      && (stored != [] ==>
            StatsOf(c, lines) == Stats(r.count, files.size, r.firstId, r.lastId, r.firstTime, r.lastTime))
  {
    EncodedLines(c, stored);
    LinesOfFlat(Encoded(c, stored));
  }

  /** A rebuilt index is sorted by id and by time, and reports the message count, the byte
      size, the first and last ids and the first and last timestamps that the writer counted. */
  ghost predicate IndexAgrees(c: Codec, files: Files, stored: seq<Message>)
    requires Faithful(c)
  {
    var lines, r := Lines(files.content), files.readable;
    && lines == Encoded(c, stored) && Decodable(c, lines)
    && RowIdsIncrease(IndexOf(c, stored)) && RowTimesOrdered(IndexOf(c, stored))
    && StatsOf(c, lines).count == r.count && StatsOf(c, lines).size == files.size
    && (stored != [] ==>
          StatsOf(c, lines) == Stats(r.count, files.size, r.firstId, r.lastId, r.firstTime, r.lastTime))
  }

  lemma NodeAgrees(n: FileNode)
    requires Faithful(n.codec) && FileInv(n)
    ensures IndexAgrees(n.codec, n.files, Stored(n))
  {
    StoredOrdered(n);
    StatsAgree(n.codec, n.files, Stored(n));
    RowsIncrease(n.codec, Stored(n));
  }

  /** End to end: the index agrees after any run of successful writes, cut by any number of
      stops, crashes between writes and reloads of the JSON-file provider. */
  lemma RebuildAgrees(c: Codec, cfg: IngestPipeline.Config, clock: int, evs: seq<FileEvent>)
    requires Faithful(c) && FileRuns(NewNode(c, cfg, clock), evs) && WritesSucceed(evs)
    ensures
      var n := FileAfter(NewNode(c, cfg, clock), evs);
      IndexAgrees(c, n.files, Stored(n))
  {
    NewInv(c, cfg, clock);
    hide FileInv, FileRuns, FileAfter, NewNode, IndexAgrees;
    FileRunKeeps(NewNode(c, cfg, clock), evs);
    NodeAgrees(FileAfter(NewNode(c, cfg, clock), evs));
  }

  lemma PlacedAtLine(h: StreamIteratorHandlerFile, msgs: seq<Message>, k: nat, after: bool)
    requires Faithful(h.codec) && IdsIncrease(msgs) && k < |msgs|
    requires Rows(h.index.file) == IndexOf(h.codec, msgs)
    requires h.ResolvesTo(if after then AfterMessageId(msgs[k].id) else AtMessageId(msgs[k].id), At(h.startId, h.start))
    ensures ReadsFrom(Flat(Encoded(h.codec, msgs)), h.start, Encoded(h.codec, msgs)[if after then k + 1 else k..])
  {
    hide Encoded, Flat, IdsIncrease, AtId, AfterId, Rows, RowIdsIncrease, ReadsFrom, IndexOf;
    hide FileReader.StreamIteratorHandlerFile.ResolvesTo;
    RowsIncrease(h.codec, msgs);
    SeekIsLinearScan(h.codec, msgs, k);
    h.ResolvedId(msgs[k].id, At(h.startId, h.start));
  }

  /** The whole read path: a handler that was placed by AT_MESSAGE_ID or AFTER_MESSAGE_ID of a
      stored id through a rebuilt index, and has read to the end of the file, has delivered
      exactly the lines that a linear scan finds from (or just after) that id. */
  lemma ReadToEndIsLinearScan(h: StreamIteratorHandlerFile, msgs: seq<Message>, k: nat, after: bool)
    requires Faithful(h.codec) && IdsIncrease(msgs) && k < |msgs|
    requires h.Valid() && h.file.content == Flat(Encoded(h.codec, msgs))
    requires Rows(h.index.file) == IndexOf(h.codec, msgs)
    requires h.ResolvesTo(if after then AfterMessageId(msgs[k].id) else AtMessageId(msgs[k].id), At(h.startId, h.start))
    requires h.Left() == 0
    ensures h.delivered == Encoded(h.codec, msgs)[if after then k + 1 else k..]
  {
    PlacedAtLine(h, msgs, k, after);
    hide IndexOf, Encoded, Flat, FileReader.StreamIteratorHandlerFile.ResolvesTo, IdsIncrease, Rows;
    h.StartsInside();
    h.Continuity();
    assert h.file.content[h.position - |h.buffered|..] == [];
  }
}
