/** The MySQL iterator handler: a read-ahead buffer over an id-ordered table that only grows. */
module MySqlReader {
  import opened Records
  import opened Reading
  import opened MySqlRows

  // ---------------------------------------------------------------- the table and its index

  /** The stream table with the readable counters that the index of the stream looks at. */
  class StreamTable {
    var rows: seq<SqlRow>
    var readable: Counters

    constructor ()
      ensures Valid() && rows == [] && readable == NO_MESSAGES
    {
      rows, readable := [], NO_MESSAGES;
    }

    ghost predicate Valid()
      reads this
    {
      Consistent(rows, readable)
    }

    lemma IsConsistent()
      requires Valid()
      ensures Ascending(rows) && readable.lastId <= Top(rows) && readable.firstId <= 1
    {
    }

    /** Rows committed by the writer. */
    method Append(more: seq<SqlRow>)
      requires Valid() && Ascending(rows + more) && forall r | r in more :: r.id > Top(rows)
      modifies this`rows
      ensures Valid() && rows == old(rows) + more
    {
      assert more != [] ==> Top(rows + more) == more[|more| - 1].id && more[|more| - 1] in more;
      assert more == [] ==> rows + more == rows;
      hide Ascending;
      rows := rows + more;
    }

    method GetMessageId(id: nat) returns (r: Option<nat>)
      ensures r.Some? <==> id <= readable.lastId && exists row :: row in rows && row.id == id
      ensures r.Some? ==> r.value == id
    {
      if id > readable.lastId {
        return None;
      }
      return if exists row | row in rows :: row.id == id then Some(id) else None;
    }

    method GetMessageIdAfterMessageId(id: nat) returns (r: Option<nat>)
      ensures r.Some? <==> id <= readable.lastId && Query(rows, id + 1) != []
      ensures r.Some? ==> r.value == Query(rows, id + 1)[0].id
    {
      if id > readable.lastId {
        return None;
      }
      var page := Select(rows, id + 1, 1);
      return if |page| > 0 then Some(page[0].id) else None;
    }

    /** The lowest id whose timestamp is not before the given time. */
    method GetMessageIdAtTimestamp(time: int) returns (r: Option<nat>)
      ensures r.None? <==> forall row | row in rows :: row.time < time
      ensures r.Some? ==> exists k | 0 <= k < |rows| ::
        rows[k].id == r.value && rows[k].time >= time && forall j | 0 <= j < k :: rows[j].time < time
    {
      for k := 0 to |rows|
        invariant forall j | 0 <= j < k :: rows[j].time < time
      {
        if rows[k].time >= time {
          return Some(rows[k].id);
        }
      }
      return None;
    }
  }

  // ---------------------------------------------------------------- the handler

  /** At most so many first rows, and what follows them. */
  function Head(rows: seq<SqlRow>, n: nat): seq<SqlRow> {
    if n <= |rows| then rows[..n] else rows
  }

  function Tail(rows: seq<SqlRow>, n: nat): seq<SqlRow> {
    if n <= |rows| then rows[n..] else []
  }

  /** Where each request starts, or None for an error. */
  ghost predicate StartsAt(rows: seq<SqlRow>, readable: Counters, request: Request, next: Option<nat>) {
    match request
    case FirstMessage => next == Some(readable.firstId)
    case LastMessage => next == Some(readable.lastId)
    case AfterLastMessage => next == Some(if readable.count == 0 then 0 else readable.lastId + 1)
    case AtMessageId(id) =>
      next == if id <= readable.lastId && exists row :: row in rows && row.id == id then Some(id) else None
    case AfterMessageId(id) =>
      next == if id <= readable.lastId && Query(rows, id + 1) != [] then Some(Query(rows, id + 1)[0].id) else None
    case AtTimestamp(time) =>
      if forall row | row in rows :: row.time < time then next == None
      else exists k | 0 <= k < |rows| ::
        next == Some(rows[k].id) && rows[k].time >= time && forall j | 0 <= j < k :: rows[j].time < time
    case Unknown => next == None
  }

  /** No request starts further than just above the top. */
  lemma StartsInside(rows: seq<SqlRow>, readable: Counters, request: Request, next: nat)
    requires Ascending(rows) && readable.lastId <= Top(rows) && readable.firstId <= 1
    requires StartsAt(rows, readable, request, Some(next))
    ensures next <= Top(rows) + 1
  {
    TopIsLargest(rows);
    match request
    case AfterMessageId(id) => assert Query(rows, id + 1)[0] in Query(rows, id + 1);
    case AtTimestamp(time) =>
      hide Query;
      var k :| 0 <= k < |rows| && next == rows[k].id;
      assert rows[k] in rows;
    case _ =>
  }

  class StreamIteratorHandlerMySQL {
    const table: StreamTable
    const bufferSize: nat
    var initialized: bool
    var nextRecordIdRead: nat
    var buffer: seq<SqlRow>
    var bufferIndex: nat
    var bufferNextId: nat
    ghost var start: nat
    ghost var delivered: seq<SqlRow>
    ghost var skipped: seq<SqlRow>   // decoded rows that a failed scan made the handler pass over

    constructor (table: StreamTable, bufferSize: nat)
      requires table.Valid()
      ensures Valid() && !initialized && delivered == [] && skipped == []
      ensures this.table == table && this.bufferSize == bufferSize
    {
      hide StreamTable.Valid, Tracks;
      TracksPlaced(table.rows, bufferSize, 0);
      this.table, this.bufferSize := table, bufferSize;
      initialized, nextRecordIdRead := false, 0;
      buffer, bufferIndex, bufferNextId := [], 0, 0;
      start, delivered, skipped := 0, [], [];
    }

    function Unread(): seq<SqlRow>
      reads this
    {
      Tail(buffer, bufferIndex)
    }

    /** The read-ahead refines a plain cursor that skips what failed scans made it skip. */
    ghost predicate Valid()
      reads this, table
    {
      && table.Valid()
      && Tracks(table.rows, bufferSize, start, bufferNextId, delivered, Unread(), skipped)
      && (!initialized ==> delivered == [] && buffer == [] && start == bufferNextId && skipped == [])
    }

    /** An upper bound on the records left to deliver. */
    ghost function Left(): nat
      reads this, table
    {
      |Unread()| + |Query(table.rows, bufferNextId)|
    }

    /** The rows that a query of this fate would decode now. */
    ghost function Fetched(fate: QueryFate): seq<SqlRow>
      reads this, table
    {
      var page := Select(table.rows, bufferNextId, bufferSize);
      Decodable(page[..RowsRead(fate, |page|)])
    }

    /** A query of this fate would fail now. */
    ghost predicate Fails(fate: QueryFate)
      reads this, table
    {
      fate.Refused? || (fate.ScanFails? && fate.at < |Select(table.rows, bufferNextId, bufferSize)|)
    }

    /** The rows to deliver next: those of the buffer, or those of a query when it is used up. */
    ghost function Upcoming(fate: QueryFate): seq<SqlRow>
      reads this, table
    {
      if Unread() != [] then Unread() else Fetched(fate)
    }

    /** The next id after a read with a query of this fate, if it takes one. */
    ghost function AfterFetch(fate: QueryFate): nat
      reads this, table
    {
      if Unread() != [] || fate.Refused? then bufferNextId else NextId(bufferNextId, Fetched(fate))
    }

    /** The page that a complete query would read next has nothing to deliver. */
    ghost predicate Exhausted()
      reads this, table
    {
      Unread() == [] && Decodable(Select(table.rows, bufferNextId, bufferSize)) == []
    }

    /** The id that the index resolves the request to. */
    method Resolve(request: Request) returns (next: Option<nat>)
      ensures StartsAt(table.rows, table.readable, request, next)
    {
      hide Query;
      match request {
        case FirstMessage => next := Some(table.readable.firstId);
        case LastMessage => next := Some(table.readable.lastId);
        case AfterLastMessage => next := Some(if table.readable.count == 0 then 0 else table.readable.lastId + 1);
        case AtMessageId(id) => next := table.GetMessageId(id);
        case AfterMessageId(id) => next := table.GetMessageIdAfterMessageId(id);
        case AtTimestamp(time) => next := table.GetMessageIdAtTimestamp(time);
        case Unknown => next := None;
      }
    }

    /** Places the cursor on the first call. Later calls change nothing. */
    method Seek(request: Request) returns (ok: bool)
      requires Valid()
      modifies this`initialized, this`nextRecordIdRead, this`bufferNextId, this`bufferIndex, this`start
      ensures Valid() && (ok <==> initialized)
      ensures old(initialized) ==>
        ok && start == old(start) && Unread() == old(Unread()) && bufferNextId == old(bufferNextId)
      ensures !old(initialized) ==> StartsAt(table.rows, table.readable, request, if ok then Some(start) else None)
      ensures !old(initialized) && ok ==> start == bufferNextId == nextRecordIdRead && bufferIndex == 0
    {
      hide StreamTable.Valid, Tracks, StartsAt;
      if initialized {
        return true;
      }
      var next := Resolve(request);
      if next.None? {
        return false;
      }
      table.IsConsistent();
      StartsInside(table.rows, table.readable, request, next.value);
      Place(next.value);
      return true;
    }

    method Place(next: nat)
      requires Valid() && !initialized && next <= Top(table.rows) + 1
      modifies this`initialized, this`nextRecordIdRead, this`bufferNextId, this`bufferIndex, this`start
      ensures Valid() && initialized && start == bufferNextId == nextRecordIdRead == next && bufferIndex == 0
    {
      hide StreamTable.Valid, Tracks;
      TracksPlaced(table.rows, bufferSize, next);
      initialized := true;
      nextRecordIdRead, bufferNextId, bufferIndex := next, next, 0;
      start := next;
    }

    /** Scans the rows of a page into the buffer, dropping those that do not decode. A broken
        connection ends the loop like the last row does, and nothing asks for its error. */
    method ScanRows(page: seq<SqlRow>, fate: QueryFate) returns (ok: bool)
      modifies this`buffer, this`bufferNextId
      ensures ok <==> !(fate.ScanFails? && fate.at < |page|)
      ensures buffer == Decodable(page[..RowsRead(fate, |page|)])
      ensures bufferNextId == NextId(old(bufferNextId), buffer)
    {
      buffer := [];
      for i := 0 to |page|
        invariant i <= RowsRead(fate, |page|)
        invariant buffer == Decodable(page[..i])
        invariant bufferNextId == NextId(old(bufferNextId), buffer)
      {
        if fate == CutShort(i) {
          return true;
        }
        if fate == ScanFails(i) {
          return false;
        }
        assert page[..i + 1][..i] == page[..i];
        if page[i].message.Some? {
          buffer := buffer + [page[i]];
          bufferNextId := page[i].id + 1;
        }
      }
      return true;
    }

    /** Reads one page into the buffer. The window grows by what was read, even when the page is
        not read to its end, and never reaches beyond a gap. */
    method FillBuffer(fate: QueryFate) returns (ok: bool)
      requires Valid() && Unread() == []
      modifies this`buffer, this`bufferNextId
      ensures ok <==> !old(Fails(fate))
      ensures fate.Refused? ==> buffer == old(buffer) && bufferNextId == old(bufferNextId)
      ensures !fate.Refused? ==>
        && buffer == old(Fetched(fate)) && bufferNextId == NextId(old(bufferNextId), buffer)
        && Tracks(table.rows, bufferSize, start, bufferNextId, delivered, buffer, skipped)
        && |buffer| + |Query(table.rows, bufferNextId)| <= old(Left())
    {
      if fate.Refused? {
        return false;
      }
      ghost var from := bufferNextId;
      var page := Select(table.rows, bufferNextId, bufferSize);
      hide Tracks, Decodable, Query, Select;
      ok := ScanRows(page, fate);
      TracksFill(table.rows, bufferSize, start, from, delivered, skipped, page[..RowsRead(fate, |page|)]);
    }

    /** Delivers the next row of the buffer, refilling it when it is used up. A scan that fails
        replaces the buffer but not its index, and so skips the first rows that it decoded. */
    method GetNextRecord(fate: QueryFate) returns (o: Outcome)
      requires Valid() && initialized
      modifies this`buffer, this`bufferNextId, this`bufferIndex, this`nextRecordIdRead, this`delivered, this`skipped
      ensures Valid() && initialized
      ensures o ==
        if old(Unread() == [] && Fails(fate)) then End(true)
        else if old(Upcoming(fate)) == [] then End(false)
        else Got(old(Upcoming(fate))[0].id, old(Upcoming(fate))[0].message)
      ensures delivered == old(delivered) + (if o.Got? then [old(Upcoming(fate))[0]] else [])
      ensures bufferNextId == old(AfterFetch(fate))
      ensures skipped == old(skipped) +
        if o == End(true) && fate.ScanFails? then Head(old(Fetched(fate)), old(bufferIndex)) else []
      ensures Unread() ==
        if o.Got? then old(Upcoming(fate))[1..]
        else if o == End(true) && fate.ScanFails? then Tail(old(Fetched(fate)), old(bufferIndex)) else []
      ensures o.Got? ==> Left() < old(Left()) && nextRecordIdRead == o.id + 1 && bufferIndex > 0
      ensures !o.Got? ==> Left() <= old(Left()) && nextRecordIdRead == old(nextRecordIdRead)
      // without an error nothing is left, but for a page that was cut short
      ensures o == End(false) ==> bufferNextId == old(bufferNextId) && Fetched(fate) == []
      ensures o == End(false) && !fate.CutShort? ==> Exhausted()
    {
      hide Decodable, Query, Tracks, StreamTable.Valid;
      var ok := Fetch(fate);
      if !ok {
        return End(true);
      }
      if |buffer| == 0 {
        return End(false);
      }
      o := Pop();
    }

    /** Refills the buffer when it is used up. */
    method Fetch(fate: QueryFate) returns (ok: bool)
      requires Valid() && initialized
      modifies this`buffer, this`bufferNextId, this`bufferIndex, this`skipped
      ensures Valid() && Left() <= old(Left())
      ensures ok <==> !old(Unread() == [] && Fails(fate))
      ensures ok ==>
        Unread() == old(Upcoming(fate)) && skipped == old(skipped) && (buffer == [] || bufferIndex < |buffer|)
      ensures bufferNextId == old(AfterFetch(fate))
      ensures ok && buffer == [] ==>
        bufferNextId == old(bufferNextId) && Fetched(fate) == [] && (!fate.CutShort? ==> Exhausted())
      ensures !ok && fate.ScanFails? ==>
        && skipped == old(skipped) + Head(old(Fetched(fate)), old(bufferIndex))
        && Unread() == Tail(old(Fetched(fate)), old(bufferIndex))
      ensures !ok && fate.Refused? ==> skipped == old(skipped) && Unread() == []
    {
      hide Decodable, Query, Select, Tracks, StreamTable.Valid;
      if bufferIndex < |buffer| {
        return true;
      }
      assert Unread() == [];
      ok := FillBuffer(fate);
      if ok {
        ghost var page := Select(table.rows, old(bufferNextId), bufferSize);
        assert page[..|page|] == page;
        StartOfBuffer();
      } else if fate.ScanFails? {
        SkipRows();
      }
    }

    /** After a failed scan the next reads start at the old index of the new buffer. */
    ghost method SkipRows()
      requires table.Valid() && initialized
      requires Tracks(table.rows, bufferSize, start, bufferNextId, delivered, buffer, skipped)
      modifies this`skipped
      ensures Valid() && skipped == old(skipped) + Head(buffer, bufferIndex) && Unread() == Tail(buffer, bufferIndex)
      ensures Left() <= |buffer| + |Query(table.rows, bufferNextId)|
    {
      hide Tracks, Query;
      var k := if bufferIndex <= |buffer| then bufferIndex else |buffer|;
      table.IsConsistent();
      TracksSkip(table.rows, bufferSize, start, bufferNextId, delivered, buffer, skipped, k);
      hide StreamTable.Valid;
      skipped := skipped + buffer[..k];
      assert buffer[|buffer|..] == [];
    }

    method StartOfBuffer()
      requires table.Valid() && initialized
      requires Tracks(table.rows, bufferSize, start, bufferNextId, delivered, buffer, skipped)
      modifies this`bufferIndex
      ensures Valid() && bufferIndex == 0 && Unread() == buffer
    {
      hide Tracks, StreamTable.Valid;
      bufferIndex := 0;
      assert buffer[0..] == buffer;
    }

    method Pop() returns (o: Outcome)
      requires Valid() && initialized && bufferIndex < |buffer|
      modifies this`bufferIndex, this`nextRecordIdRead, this`delivered
      ensures Valid() && Left() < old(Left()) && bufferIndex > 0
      ensures o == Got(old(Unread())[0].id, old(Unread())[0].message) && nextRecordIdRead == o.id + 1
      ensures delivered == old(delivered) + [old(Unread())[0]] && Unread() == old(Unread())[1..]
    {
      hide Tracks, StreamTable.Valid, Query;
      var record := buffer[bufferIndex];
      TracksPop(table.rows, bufferSize, start, bufferNextId, delivered, Unread(), skipped);
      assert Unread()[1..] == buffer[bufferIndex + 1..];
      bufferIndex := bufferIndex + 1;
      nextRecordIdRead := record.id + 1;
      delivered := delivered + [record];
      return Got(record.id, record.message);
    }

    /** Rows committed by the writer between two reads. */
    method Grow(more: seq<SqlRow>)
      requires Valid() && Ascending(table.rows + more) && forall r | r in more :: r.id > Top(table.rows)
      modifies table`rows
      ensures Valid() && Left() <= old(Left()) + |more| && Unread() == old(Unread())
      ensures table.rows == old(table.rows) + more
    {
      hide Tracks, Query;
      TracksGrow(table.rows, more, bufferSize, start, bufferNextId, delivered, Unread(), skipped);
      table.Append(more);
    }

    /** Rows are lost exactly when some were skipped: then, and only then, the rows delivered and
        in the buffer are not all decodable rows between the start and the next id. */
    lemma LossIsReal()
      requires Valid()
      ensures skipped == [] <==> delivered + Unread() == Window(table.rows, start, bufferNextId)
      ensures forall r | r in skipped :: r in Window(table.rows, start, bufferNextId) && r !in delivered + Unread()
    {
      SkippedIsLost(table.rows, bufferSize, start, bufferNextId, delivered, Unread(), skipped);
    }

    /** A cursor that has nothing to deliver has delivered every decodable row from its start on,
        if and only if it skipped none and none stands behind a gap. */
    lemma CaughtUpExactly()
      requires Valid() && Exhausted()
      ensures delivered == Decodable(Query(table.rows, start)) <==>
        skipped == [] && !HiddenByGap(table.rows, bufferSize, start)
    {
      DeliveredAllExactly(table.rows, bufferSize, start, bufferNextId, delivered, skipped);
    }

    /** A gap at or above the start is never crossed, whatever fails and whatever is appended:
        nothing above its first row is ever delivered or read ahead. */
    lemma GapIsFinal(k: nat, more: seq<SqlRow>)
      requires Valid() && GapAt(table.rows, k, bufferSize) && start <= table.rows[k].id
      ensures forall r | r in delivered + Unread() :: r.id < table.rows[k].id
      ensures GapAt(table.rows + more, k, bufferSize) && (table.rows + more)[k] == table.rows[k]
    {
      BeforeGap(table.rows, bufferSize, start, bufferNextId, delivered, Unread(), skipped, k);
    }
  }

  // ---------------------------------------------------------------- runs that lose rows

  lemma BeginIs(front: seq<SqlRow>, rest: seq<SqlRow>, from: nat)
    requires Ascending(front + rest)
    requires forall r | r in front :: r.id < from
    requires forall r | r in rest :: r.id >= from
    ensures Begin(front + rest, from) == |front|
  {
    var rows := front + rest;
    BeginSplits(rows, from);
    hide Begin, Ascending;
    var k := Begin(rows, from);
    assert forall i | 0 <= i < |front| :: rows[i] == front[i];
    assert forall i | 0 <= i < |rest| :: rows[|front| + i] == rest[i];
    assert k < |rows| ==> (rows[k].id < from <==> k < |front|);
    assert |front| < |rows| ==> (rows[|front|].id < from <==> |front| < k);
  }

  /** The rows that follow the first rows of a table. */
  lemma QueryAfter(front: seq<SqlRow>, rest: seq<SqlRow>, from: nat)
    requires Ascending(front + rest)
    requires forall r | r in front :: r.id < from
    requires forall r | r in rest :: r.id >= from
    ensures Query(front + rest, from) == rest
  {
    BeginIs(front, rest, from);
    QueryIsTail(front + rest, from);
    hide *;
    assert (front + rest)[|front|..] == rest;
  }

  lemma SelectAfter(front: seq<SqlRow>, rest: seq<SqlRow>, from: nat, size: nat)
    requires Ascending(front + rest)
    requires forall r | r in front :: r.id < from
    requires forall r | r in rest :: r.id >= from
    ensures Select(front + rest, from, size) == Head(rest, size)
  {
    QueryAfter(front, rest, from);
    hide Query, Ascending;
    assert rest[..|rest|] == rest;
  }

  lemma {:induction false} DecodableAll(rows: seq<SqlRow>)
    requires forall r | r in rows :: r.message.Some?
    ensures Decodable(rows) == rows
  {
    if rows != [] {
      DecodableAll(rows[..|rows| - 1]);
    }
  }

  /** What a query decodes when at most one page of decodable rows is left. */
  lemma FetchedIs(h: StreamIteratorHandlerMySQL, front: seq<SqlRow>, rest: seq<SqlRow>, fate: QueryFate)
    requires h.Valid() && h.table.rows == front + rest && |rest| <= h.bufferSize
    requires forall r | r in front :: r.id < h.bufferNextId
    requires forall r | r in rest :: r.id >= h.bufferNextId && r.message.Some?
    ensures h.Fetched(fate) == rest[..RowsRead(fate, |rest|)]
    ensures h.Fails(fate) <==> fate.Refused? || (fate.ScanFails? && fate.at < |rest|)
  {
    h.table.IsConsistent();
    hide StreamTable.Valid, Tracks, Decodable, Query, Select, Ascending;
    SelectAfter(front, rest, h.bufferNextId, h.bufferSize);
    assert Head(rest, h.bufferSize) == rest;
    DecodableAll(rest[..RowsRead(fate, |rest|)]);
  }

  /** A handler placed on the first message of a table with these rows. */
  method ReadFromStart(rows: seq<SqlRow>, bufferSize: nat) returns (h: StreamIteratorHandlerMySQL)
    requires Ascending(rows) && forall r | r in rows :: r.id > 0
    ensures fresh(h) && fresh(h.table) && h.bufferSize == bufferSize && h.table.rows == rows
    ensures h.Valid() && h.initialized && h.Unread() == [] && h.skipped == [] && h.start == h.bufferNextId == 0
  {
    hide StreamTable.Valid, Tracks, Decodable, Query, Select, Ascending;
    var table := new StreamTable();
    h := new StreamIteratorHandlerMySQL(table, bufferSize);
    assert [] + rows == rows;
    h.Grow(rows);
    var ok := h.Seek(FirstMessage);
  }

  /** A handler that has delivered the only row of its table. */
  method ReadOneRow(a: SqlRow, bufferSize: nat) returns (h: StreamIteratorHandlerMySQL, o: Outcome)
    requires 0 < a.id && a.message.Some? && bufferSize >= 1
    ensures fresh(h) && fresh(h.table) && h.bufferSize == bufferSize && h.table.rows == [a]
    ensures h.Valid() && h.initialized && h.Unread() == [] && h.skipped == [] && h.bufferIndex > 0
    ensures o == Got(a.id, a.message) && h.bufferNextId == a.id + 1
  {
    hide StreamTable.Valid, Tracks, Decodable, Query, Select;
    hide StreamIteratorHandlerMySQL.Fetched, StreamIteratorHandlerMySQL.Fails, StreamIteratorHandlerMySQL.Exhausted;
    h := ReadFromStart([a], bufferSize);
    assert h.table.rows == [] + [a];
    FetchedIs(h, [], [a], Complete);
    o := h.GetNextRecord(Complete);
  }

  /** A handler that has passed over the second of three rows. */
  method SkipOneRow(a: SqlRow, b: SqlRow, c: SqlRow, bufferSize: nat)
    returns (h: StreamIteratorHandlerMySQL, o1: Outcome, o2: Outcome)
    requires 0 < a.id < b.id < c.id && a.message.Some? && b.message.Some? && c.message.Some? && bufferSize >= 2
    ensures fresh(h) && fresh(h.table) && h.bufferSize == bufferSize && h.table.rows == [a, b] + [c]
    ensures h.Valid() && h.initialized && h.Unread() == [] && h.skipped == [b] && h.bufferNextId == b.id + 1
    ensures o1 == Got(a.id, a.message) && o2 == End(true)
  {
    hide StreamTable.Valid, Tracks, Decodable, Query, Select;
    hide StreamIteratorHandlerMySQL.Fetched, StreamIteratorHandlerMySQL.Fails, StreamIteratorHandlerMySQL.Exhausted;
    h, o1 := ReadOneRow(a, bufferSize);
    h.Grow([b, c]);
    FetchedIs(h, [a], [b, c], ScanFails(1));
    o2 := h.GetNextRecord(ScanFails(1));
  }

  /** For any three decodable rows and any page of two or more: after the first row was delivered,
      a scan that fails at the third one makes the handler pass over the second one for good. */
  method FailedScanLosesRow(a: SqlRow, b: SqlRow, c: SqlRow, bufferSize: nat) returns (os: seq<Outcome>)
    requires 0 < a.id < b.id < c.id && a.message.Some? && b.message.Some? && c.message.Some? && bufferSize >= 2
    ensures os == [Got(a.id, a.message), End(true), Got(c.id, c.message), End(false)]
  {
    hide StreamTable.Valid, Tracks, Decodable, Query, Select;
    hide StreamIteratorHandlerMySQL.Fetched, StreamIteratorHandlerMySQL.Fails, StreamIteratorHandlerMySQL.Exhausted;
    var h, o1, o2 := SkipOneRow(a, b, c, bufferSize);
    FetchedIs(h, [a, b], [c], Complete);
    var o3 := h.GetNextRecord(Complete);
    assert h.table.rows == [a, b, c] + [];
    FetchedIs(h, [a, b, c], [], Complete);
    var o4 := h.GetNextRecord(Complete);
    os := [o1, o2, o3, o4];
  }

  /** For any decodable row: a connection that breaks before it is read looks like the end of the
      table, and the next complete query delivers the row. */
  method BrokenConnectionLooksLikeTheEnd(a: SqlRow, b: SqlRow, bufferSize: nat) returns (os: seq<Outcome>)
    requires 0 < a.id < b.id && a.message.Some? && b.message.Some? && bufferSize >= 1
    ensures os == [Got(a.id, a.message), End(false), Got(b.id, b.message)]
  {
    hide StreamTable.Valid, Tracks, Decodable, Query, Select;
    hide StreamIteratorHandlerMySQL.Fetched, StreamIteratorHandlerMySQL.Fails, StreamIteratorHandlerMySQL.Exhausted;
    var h, o1 := ReadOneRow(a, bufferSize);
    h.Grow([b]);
    FetchedIs(h, [a], [b], CutShort(0));
    var o2 := h.GetNextRecord(CutShort(0));
    FetchedIs(h, [a], [b], Complete);
    var o3 := h.GetNextRecord(Complete);
    os := [o1, o2, o3];
  }

  lemma {:induction false} DecodableNone(rows: seq<SqlRow>)
    requires forall r | r in rows :: r.message.None?
    ensures Decodable(rows) == []
  {
    if rows != [] {
      DecodableNone(rows[..|rows| - 1]);
    }
  }

  lemma GapIsPage(gap: seq<SqlRow>, behind: SqlRow)
    requires gap != [] && Ascending(gap + [behind]) && behind.message.Some? && forall r | r in gap :: r.message.None?
    ensures Select(gap + [behind], 0, |gap|) == gap && Decodable(gap) == []
  {
    var rows := gap + [behind];
    DecodableNone(gap);
    SelectAfter([], rows, 0, |gap|);
    hide Ascending, Select, Decodable;
    assert [] + rows == rows && rows[..|gap|] == gap;
  }

  lemma GapHides(gap: seq<SqlRow>, behind: SqlRow)
    requires gap != [] && behind.message.Some? && forall r | r in gap :: r.message.None?
    ensures HiddenByGap(gap + [behind], |gap|, 0)
  {
    var rows := gap + [behind];
    DecodableAll([behind]);
    hide Decodable, HiddenByGap;
    assert rows[|gap|..] == [behind];
    assert forall i | 0 <= i < |gap| :: rows[i] == gap[i];
    HiddenAt(rows, |gap|, 0, 0);
  }

  lemma FetchedNothing(h: StreamIteratorHandlerMySQL, gap: seq<SqlRow>, behind: SqlRow)
    requires gap != [] && Ascending(gap + [behind]) && behind.message.Some? && forall r | r in gap :: r.message.None?
    requires h.table.rows == gap + [behind] && h.bufferSize == |gap| && h.bufferNextId == 0
    ensures h.Fetched(Complete) == [] && !h.Fails(Complete)
  {
    GapIsPage(gap, behind);
    hide Decodable, Select, Ascending;
    assert gap[..|gap|] == gap;
  }

  /** For any rows that do not decode and as large a page: the row behind them is not delivered. */
  method GapHidesRow(gap: seq<SqlRow>, behind: SqlRow) returns (o: Outcome)
    requires gap != [] && Ascending(gap + [behind]) && forall r | r in gap + [behind] :: r.id > 0
    requires behind.message.Some? && forall r | r in gap :: r.message.None?
    ensures o == End(false) && HiddenByGap(gap + [behind], |gap|, 0)
  {
    GapHides(gap, behind);
    hide StreamTable.Valid, Tracks, Decodable, Query, Select, HiddenByGap, Ascending;
    hide StreamIteratorHandlerMySQL.Fetched, StreamIteratorHandlerMySQL.Fails, StreamIteratorHandlerMySQL.Exhausted;
    var h := ReadFromStart(gap + [behind], |gap|);
    FetchedNothing(h, gap, behind);
    o := h.GetNextRecord(Complete);
  }
}
