/** The in-memory iterator handler: an index into the record log. */
module InMemoryReader {
  import opened Records
  import opened Reading
  import opened InMemoryLog

  /** Where each request starts, or None for an error. */
  ghost predicate StartsAt(records: seq<Message>, request: Request, at: Option<nat>) {
    match request
    case FirstMessage => at == Some(0)
    case LastMessage => at == Some(|records|)
    case AfterLastMessage => at == Some(|records| + 1)
    case AtMessageId(id) =>
      && (at.Some? ==> at.value < |records| && records[at.value].id == id)
      && (IdsIncrease(records) ==> (at.Some? <==> Reached(records, id)))
    case AfterMessageId(id) =>
      && (at.Some? ==> 0 < at.value <= |records| && records[at.value - 1].id == id)
      && (IdsIncrease(records) ==> (at.Some? <==> Reached(records, id)))
    case AtTimestamp(time) =>
      && (at.Some? ==> at.value < |records| && records[at.value].time >= time)
      && (TimesOrdered(records) ==>
            && (at.Some? <==> TimeReached(records, time))
            && TimestampSearch(records, time) == if at.Some? then Found(at.value) else Missing)
    case Unknown => at == None
  }

  class StreamIteratorHandlerInMemory {
    const log: InMemoryStream
    var initialized: bool
    var nextReadRecordIndex: nat
    ghost var start: nat
    ghost var delivered: seq<Item>

    constructor (log: InMemoryStream)
      ensures Valid() && !initialized && this.log == log && delivered == []
    {
      this.log := log;
      initialized, nextReadRecordIndex := false, 0;
      start, delivered := 0, [];
    }

    /** The handler is a plain cursor: it has delivered exactly the records from its start up to
        the next index. A start beyond the end of the log waits for the log to grow past it. */
    ghost predicate Valid()
      reads this, log
    {
      && start <= nextReadRecordIndex
      && (if nextReadRecordIndex <= |log.records|
          then delivered == Items(log.records[start..nextReadRecordIndex])
          else delivered == [] && nextReadRecordIndex == start)
      && (!initialized ==> delivered == [])
    }

    /** How many records are left to deliver. */
    ghost function Left(): nat
      reads this, log
    {
      if nextReadRecordIndex <= |log.records| then |log.records| - nextReadRecordIndex else 0
    }

    /** Places the cursor on the first call. Later calls change nothing. */
    method Seek(request: Request) returns (ok: bool)
      requires Valid()
      modifies this
      ensures Valid() && delivered == old(delivered)
      ensures old(initialized) ==> ok && nextReadRecordIndex == old(nextReadRecordIndex) && start == old(start)
      ensures ok <==> initialized
      ensures !old(initialized) && ok ==> nextReadRecordIndex == start
      ensures !old(initialized) ==>
        StartsAt(log.records, request, if ok then Some(start) else None)
    {
      if initialized {
        return true;
      }
      var found := Missing;
      match request {
        case FirstMessage => found := Found(0);
        case LastMessage => found := Found(|log.records|);
        case AfterLastMessage => found := Found(|log.records| + 1);
        case AtMessageId(id) => found := log.GetIndexAtMessageId(id);
        case AfterMessageId(id) => found := log.GetIndexAfterMessageId(id);
        case AtTimestamp(time) => found := log.GetIndexAtTimestamp(time);
        case Unknown =>
      }
      nextReadRecordIndex := if found.Found? then found.rank else 0;
      start := nextReadRecordIndex;
      ok := found.Found?;
      initialized := ok;
      if start <= |log.records| {
        assert log.records[start..start] == [];
      }
    }

    /** Delivers the record under the cursor. The reported id is the index, from 0 on. */
    method GetNextRecord() returns (o: Outcome)
      requires Valid() && initialized
      modifies this`nextReadRecordIndex, this`delivered
      ensures Valid()
      ensures o.Got? <==> old(Left()) > 0
      ensures o.Got? ==> delivered == old(delivered) + [o.item] && Left() == old(Left()) - 1
      ensures o.Got? ==> o.id == old(nextReadRecordIndex) && o.item == Some(log.records[o.id])
      ensures !o.Got? ==>
        o == End(false) && delivered == old(delivered) && nextReadRecordIndex == old(nextReadRecordIndex)
    {
      var index := nextReadRecordIndex;
      var r := log.GetRecordAtIndex(index);
      if r.Nothing? {
        return End(false);
      }
      nextReadRecordIndex := index + 1;
      delivered := delivered + [Some(r.record)];
      assert log.records[start..index + 1] == log.records[start..index] + [r.record];
      return Got(index, Some(r.record));
    }

    /** Records appended by the writer, at most so many of them, between two reads. */
    method Grow(arriving: seq<Message>)
      requires Valid()
      modifies log
      ensures Valid() && Left() <= old(Left()) + |arriving|
      ensures old(log.records) <= log.records
    {
      for i := 0 to |arriving|
        invariant Valid() && Left() <= old(Left()) + i
        invariant old(log.records) <= log.records
      {
        ghost var before := log.records;
        var ok := log.AddRecord(arriving[i]);
        if nextReadRecordIndex <= |before| {
          assert log.records[start..nextReadRecordIndex] == before[start..nextReadRecordIndex];
        } else if nextReadRecordIndex <= |log.records| {
          assert log.records[start..nextReadRecordIndex] == [];
        }
      }
    }
  }
}
