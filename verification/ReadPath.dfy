/** From the writers to the readers: what a stream has stored is what its iterator handlers assume
    and deliver. */
module ReadPath {
  import opened Records
  import opened Reading
  import opened InMemoryLog
  import opened InMemoryReader
  import opened InMemoryIngest
  import opened StreamObject
  import opened MySqlRows
  import MySqlStore
  import IngestPipeline

  // ---------------------------------------------------------------- in memory

  lemma NumberedIncrease(msgs: seq<Message>, base: nat)
    requires NumberedFrom(msgs, base)
    ensures IdsIncrease(msgs)
  {
  }

  /** Over the log of a stream object an iterator delivers the ingested messages themselves: its
      record k is the message with id k + 1. */
  lemma DeliversIngested(s: Stream, h: StreamIteratorHandlerInMemory)
    requires s.Valid() && h.Valid() && h.log == s.ingestBuffer.writer.log
    ensures IdsIncrease(h.log.records) && TimesOrdered(h.log.records)
    ensures h.nextReadRecordIndex <= |h.log.records| ==>
      && h.nextReadRecordIndex <= |s.numbered|
      && h.delivered == Items(s.numbered[h.start..h.nextReadRecordIndex])
      && NumberedFrom(s.numbered[h.start..h.nextReadRecordIndex], h.start)
  {
    InvReadsPrefix(s.State());
    hide NodeInv;
    NumberedIncrease(h.log.records, 0);
    if h.nextReadRecordIndex <= |h.log.records| {
      PartOfPrefix(h.log.records, s.numbered, h.start, h.nextReadRecordIndex);
    }
  }

  lemma PartOfPrefix(records: seq<Message>, numbered: seq<Message>, from: nat, to: nat)
    requires records <= numbered && from <= to <= |records| && NumberedFrom(records, 0)
    ensures records[from..to] == numbered[from..to] && NumberedFrom(numbered[from..to], from)
  {
    assert forall k | 0 <= k < to - from :: numbered[from..to][k] == records[from + k];
  }

  /** There a stored id is its own position, and the search misses exactly the last of several. */
  lemma ReachedIds(records: seq<Message>, id: nat)
    requires NumberedFrom(records, 0)
    ensures Reached(records, id) <==> 1 <= id <= |records| && (|records| == 1 || id < |records|)
  {
    if 1 <= id <= |records| {
      assert records[id - 1].id == id;
    }
  }

  // ---------------------------------------------------------------- MySQL

  /** The table in id order, with the messages that decode. */
  ghost function RowsOf(db: MySqlStore.Database, decode: Message -> Option<Message>): (rows: seq<SqlRow>)
    requires MySqlStore.Exact(db)
    ensures |rows| == db.cached.count
  {
    seq(db.cached.count, k requires 0 <= k < db.cached.count =>
      SqlRow(k + 1, db.table[k + 1].time, decode(db.table[k + 1])))
  }

  lemma RowsNumbered(db: MySqlStore.Database, decode: Message -> Option<Message>)
    requires MySqlStore.Exact(db)
    ensures forall k | 0 <= k < db.cached.count :: RowsOf(db, decode)[k].id == k + 1
    ensures Ascending(RowsOf(db, decode)) && Top(RowsOf(db, decode)) == db.cached.count
    ensures forall r | r in RowsOf(db, decode) :: r.id > 0
  {
  }

  /** After any run the rows and the readable counters are what the handlers rely on. */
  lemma TableIsConsistent(cfg: IngestPipeline.Config, clock: int, evs: seq<MySqlStore.SqlEvent>,
                          decode: Message -> Option<Message>)
    requires MySqlStore.SqlRuns(MySqlStore.FromDatabase(cfg, MySqlStore.EMPTY_DATABASE, clock), evs)
    ensures
      var n := MySqlStore.SqlAfter(MySqlStore.FromDatabase(cfg, MySqlStore.EMPTY_DATABASE, clock), evs);
      MySqlStore.Exact(n.db) && Consistent(RowsOf(n.db, decode), n.readable)
  {
    MySqlStore.EmptyIsInStep(cfg, clock);
    MySqlStore.SqlRunKeeps(MySqlStore.FromDatabase(cfg, MySqlStore.EMPTY_DATABASE, clock), evs);
    var n := MySqlStore.SqlAfter(MySqlStore.FromDatabase(cfg, MySqlStore.EMPTY_DATABASE, clock), evs);
    RowsNumbered(n.db, decode);
    hide RowsOf, MySqlStore.SqlRuns, MySqlStore.SqlAfter, MySqlStore.Exact;
  }

  /** And every step of the writer, a crash or a reload only appends rows above the top, as the
      handlers need to keep their cursors. */
  lemma StepOnlyGrows(n: MySqlStore.SqlNode, ev: MySqlStore.SqlEvent, decode: Message -> Option<Message>)
    returns (more: seq<SqlRow>)
    requires MySqlStore.SqlInv(n) && MySqlStore.SqlEnabled(n, ev)
    ensures MySqlStore.Exact(MySqlStore.SqlApply(n, ev).db)
    ensures RowsOf(MySqlStore.SqlApply(n, ev).db, decode) == RowsOf(n.db, decode) + more
    ensures Ascending(RowsOf(n.db, decode) + more)
    ensures forall r | r in more :: r.id > Top(RowsOf(n.db, decode))
  {
    MySqlStore.SqlStepKeeps(n, ev);
    MySqlStore.RowsAreFinal(n, ev);
    var before, after := n.db, MySqlStore.SqlApply(n, ev).db;
    hide MySqlStore.SqlApply, MySqlStore.SqlEnabled, MySqlStore.InStep, MySqlStore.AllStored;
    more := GrownRows(before, after, decode);
  }

  lemma GrownRows(before: MySqlStore.Database, after: MySqlStore.Database, decode: Message -> Option<Message>)
    returns (more: seq<SqlRow>)
    requires MySqlStore.Exact(before) && MySqlStore.Exact(after)
    requires forall id | id in before.table :: id in after.table && after.table[id] == before.table[id]
    ensures RowsOf(after, decode) == RowsOf(before, decode) + more
    ensures Ascending(RowsOf(before, decode) + more)
    ensures forall r | r in more :: r.id > Top(RowsOf(before, decode))
  {
    RowsNumbered(before, decode);
    RowsNumbered(after, decode);
    var first, all := RowsOf(before, decode), RowsOf(after, decode);
    assert |first| <= |all| by {
      assert before.cached.count == 0 || before.cached.count in before.table;
    }
    more := all[|first|..];
    forall k | 0 <= k < |first|
      ensures first[k] == all[k]
    {
      assert k + 1 in before.table;
    }
    assert all == first + more;
    hide RowsOf, MySqlStore.Exact;
  }
}
