/** The MySQL writer and the catalog reload: one transaction per batch, cached counters in the
    catalog row, and the ids that a restarted stream hands out next. */
module MySqlStore {
  import opened Records
  import opened IngestPipeline

  /** The cached columns of the catalog row. The id columns are NULL before the first write. */
  datatype CatalogRow = CatalogRow(count: nat, firstId: Option<nat>, lastId: Option<nat>, firstTime: int, lastTime: int)

  /** The stream table, keyed by its primary key, and its catalog row. */
  datatype Database = Database(table: map<nat, Message>, cached: CatalogRow)

  /** Where a transaction stops. CommitLost: the server committed and the client saw an error. */
  datatype Fate =
    | Commits | BeginFails | MarshalFails(at: nat) | InsertFails(at: nat) | MetaFails | CommitFails | CommitLost

  datatype Outcome = Outcome(db: Database, readable: Counters, ok: bool)

  const EMPTY_DATABASE := Database(map[], CatalogRow(0, None, None, 0, 0))

  /** Timestamps are cached with a resolution of one second. */
  function Seconds(time: int): int {
    time - time % 1_000_000_000
  }

  /** Inserts in order. A stored primary key refuses the statement. */
  function InsertAll(table: map<nat, Message>, batch: seq<Message>): Option<map<nat, Message>>
    decreases |batch|
  {
    if batch == [] then Some(table)
    else if batch[0].id in table then None
    else InsertAll(table[batch[0].id := batch[0]], batch[1..])
  }

  /** The readable counters after a committed batch. */
  function Committed(readable: Counters, ingestedFirstId: nat, batch: seq<Message>): Counters
    requires batch != []
  {
    Absorb(OpenCounters(readable, ingestedFirstId, batch), batch)
  }

  function CacheRow(readable: Counters, ingestedFirstId: nat, batch: seq<Message>): CatalogRow
    requires batch != []
  {
    var c := Committed(readable, ingestedFirstId, batch);
    CatalogRow(c.count, Some(ingestedFirstId), Some(c.lastId), Seconds(c.firstTime), Seconds(c.lastTime))
  }

  predicate FailsEarly(fate: Fate, size: nat) {
    fate.BeginFails? || (fate.MarshalFails? && fate.at < size) || (fate.InsertFails? && fate.at < size)
  }

  function Transact(db: Database, readable: Counters, ingestedFirstId: nat, batch: seq<Message>, fate: Fate): Outcome {
    if batch == [] then Outcome(db, readable, true)
    else if FailsEarly(fate, |batch|) || InsertAll(db.table, batch).None? || fate.MetaFails? || fate.CommitFails? then
      Outcome(db, readable, false)
    else
      var db' := Database(InsertAll(db.table, batch).value, CacheRow(readable, ingestedFirstId, batch));
      if fate.CommitLost? then Outcome(db', readable, false)
      else Outcome(db', Committed(readable, ingestedFirstId, batch), true)
  }

  /** The counters rebuilt from one catalog row, for the ingested and the readable messages. */
  function Loaded(row: CatalogRow): Counters {
    Counters(row.count,
             if row.firstId.Some? then row.firstId.value else 0,
             if row.lastId.Some? then row.lastId.value else 0,
             row.firstTime, row.lastTime)
  }

  // ---------------------------------------------------------------- what a transaction does

  /** No id of the batch is stored or comes twice. */
  ghost predicate NewIds(table: map<nat, Message>, batch: seq<Message>) {
    && (forall m | m in batch :: m.id !in table)
    && (forall i, j | 0 <= i < j < |batch| :: batch[i].id != batch[j].id)
  }

  /** The ways a transaction can end that report success. */
  predicate Reports(fate: Fate, size: nat) {
    fate.Commits? || ((fate.MarshalFails? || fate.InsertFails?) && fate.at >= size)
  }

  /** The table holds every message of the batch under its id, and nothing else has changed. */
  ghost predicate Inserted(before: map<nat, Message>, batch: seq<Message>, after: map<nat, Message>) {
    && (forall id: nat :: id in after <==> id in before || exists m :: m in batch && m.id == id)
    && (forall id: nat | id in before :: id in after && after[id] == before[id])
    && (forall m | m in batch :: m.id in after && after[m.id] == m)
  }

  /** The counters advance by the batch. */
  ghost predicate Advanced(before: Counters, ingestedFirstId: nat, batch: seq<Message>, after: Counters)
    requires batch != []
  {
    after == Counters(before.count + |batch|,
                      if before.count == 0 then ingestedFirstId else before.firstId,
                      batch[|batch| - 1].id,
                      if before.count == 0 then batch[0].time else before.firstTime,
                      batch[|batch| - 1].time)
  }

  /** The catalog row caches them, with times to the second. */
  ghost predicate Cached(c: Counters, ingestedFirstId: nat, row: CatalogRow) {
    row == CatalogRow(c.count, Some(ingestedFirstId), Some(c.lastId),
                      c.firstTime - c.firstTime % 1_000_000_000, c.lastTime - c.lastTime % 1_000_000_000)
  }

  /** A transaction of a batch, spelled out: it stores all of the batch when the ids are new and
      nothing fails before the commit, and reports so unless the answer gets lost. */
  ghost predicate Transacted(db: Database, readable: Counters, ingestedFirstId: nat, batch: seq<Message>, fate: Fate,
                             out: Outcome)
    requires batch != []
  {
    && (out.ok <==> NewIds(db.table, batch) && Reports(fate, |batch|))
    && (if out.ok then Advanced(readable, ingestedFirstId, batch, out.readable) else out.readable == readable)
    && (if NewIds(db.table, batch) && (Reports(fate, |batch|) || fate.CommitLost?) then
          && Inserted(db.table, batch, out.db.table)
          && exists c :: Advanced(readable, ingestedFirstId, batch, c) && Cached(c, ingestedFirstId, out.db.cached)
        else out.db == db)
  }

  lemma {:induction false} InsertAllIs(table: map<nat, Message>, batch: seq<Message>)
    ensures InsertAll(table, batch).Some? <==> NewIds(table, batch)
    ensures InsertAll(table, batch).Some? ==> Inserted(table, batch, InsertAll(table, batch).value)
    decreases |batch|
  {
    if batch != [] {
      var m, rest := batch[0], batch[1..];
      assert batch == [m] + rest;
      if m.id in table {
        assert m in batch;
      } else {
        var next := table[m.id := m];
        InsertAllIs(next, rest);
        if NewIds(table, batch) {
          NewIdsTail(table, m, rest);
        }
        if NewIds(next, rest) {
          NewIdsHead(table, m, rest);
        }
        hide NewIds, Inserted;
        if InsertAll(table, batch).Some? {
          InsertedCons(table, m, rest, InsertAll(table, batch).value);
        }
      }
    }
  }

  lemma NewIdsTail(table: map<nat, Message>, m: Message, rest: seq<Message>)
    requires NewIds(table, [m] + rest)
    ensures NewIds(table[m.id := m], rest)
  {
    var all := [m] + rest;
    forall k | 0 <= k < |rest|
      ensures rest[k].id !in table[m.id := m]
    {
      assert all[k + 1] == rest[k] && rest[k] in all && all[0].id != all[k + 1].id;
    }
    forall i, j | 0 <= i < j < |rest|
      ensures rest[i].id != rest[j].id
    {
      assert all[i + 1].id != all[j + 1].id;
    }
  }

  lemma NewIdsHead(table: map<nat, Message>, m: Message, rest: seq<Message>)
    requires m.id !in table && NewIds(table[m.id := m], rest)
    ensures NewIds(table, [m] + rest)
  {
    var all := [m] + rest;
    forall i, j | 0 <= i < j < |all|
      ensures all[i].id != all[j].id
    {
      assert all[j] == rest[j - 1] && rest[j - 1] in rest;
      assert i > 0 ==> all[i] == rest[i - 1];
    }
    forall x | x in all
      ensures x.id !in table
    {
      assert x == m || x in rest;
    }
  }

  lemma InsertedCons(table: map<nat, Message>, m: Message, rest: seq<Message>, after: map<nat, Message>)
    requires m.id !in table && Inserted(table[m.id := m], rest, after)
    ensures Inserted(table, [m] + rest, after)
  {
    var next, all := table[m.id := m], [m] + rest;
    forall id: nat
      ensures id in after <==> id in table || exists x :: x in all && x.id == id
    {
      if exists x :: x in rest && x.id == id {
        var x :| x in rest && x.id == id;
        assert x in all;
      }
      if id == m.id {
        assert m in all;
      }
    }
    forall id: nat | id in table
      ensures id in after && after[id] == table[id]
    {
      assert id in next && next[id] == table[id];
    }
    assert m.id in next && after[m.id] == m;
  }

  lemma TransactIs(db: Database, readable: Counters, ingestedFirstId: nat, batch: seq<Message>, fate: Fate)
    requires batch != []
    ensures Transacted(db, readable, ingestedFirstId, batch, fate, Transact(db, readable, ingestedFirstId, batch, fate))
  {
    InsertAllIs(db.table, batch);
    hide InsertAll, NewIds, Inserted;
    assert Advanced(readable, ingestedFirstId, batch, Committed(readable, ingestedFirstId, batch));
  }

  class StreamWriterMySQL {
    var db: Database
    var ingestedFirstId: nat
    var readable: Counters

    constructor (db: Database, loaded: Counters)
      ensures this.db == db && readable == loaded && ingestedFirstId == loaded.firstId
    {
      this.db, readable, ingestedFirstId := db, loaded, loaded.firstId;
    }

    /** Inserts the rows of the batch one by one, inside the transaction. */
    method InsertRows(batch: seq<Message>, fate: Fate)
      returns (ok: bool, transaction: map<nat, Message>, inserted: nat, lastId: nat, lastTime: int)
      requires batch != [] && !fate.BeginFails?
      ensures ok <==> !FailsEarly(fate, |batch|) && InsertAll(db.table, batch).Some?
      ensures ok ==> InsertAll(db.table, batch) == Some(transaction) && inserted == |batch|
      ensures ok ==> lastId == batch[|batch| - 1].id && lastTime == batch[|batch| - 1].time
    {
      ok, transaction, inserted, lastId, lastTime := false, db.table, 0, 0, readable.lastTime;
      for i := 0 to |batch|
        invariant inserted == i && !ok
        invariant (fate.MarshalFails? || fate.InsertFails?) ==> i <= fate.at
        invariant InsertAll(transaction, batch[i..]) == InsertAll(db.table, batch)
        invariant i > 0 ==> lastId == batch[i - 1].id && lastTime == batch[i - 1].time
      {
        if fate.MarshalFails? && fate.at == i {
          return;
        }
        if batch[i].id in transaction || (fate.InsertFails? && fate.at == i) {
          assert batch[i..][0] == batch[i];
          return;
        }
        transaction := transaction[batch[i].id := batch[i]];
        assert batch[i..][0] == batch[i] && batch[i..][1..] == batch[i + 1..];
        inserted, lastTime, lastId := inserted + 1, batch[i].time, batch[i].id;
      }
      ok := true;
    }

    /** The transactional batch. The counters change only after the commit. */
    method Write(batch: seq<Message>, fate: Fate) returns (ok: bool)
      modifies this`db, this`readable
      ensures Outcome(db, readable, ok) == Transact(old(db), old(readable), ingestedFirstId, batch, fate)
      ensures batch == [] ==> ok && db == old(db) && readable == old(readable)
      ensures batch != [] ==>
        Transacted(old(db), old(readable), ingestedFirstId, batch, fate, Outcome(db, readable, ok))
    {
      if |batch| == 0 {
        return true;
      }
      TransactIs(db, readable, ingestedFirstId, batch, fate);
      hide Transacted, InsertAll;
      if fate.BeginFails? {
        return false;
      }
      var transaction, inserted, lastId, lastTime;
      ok, transaction, inserted, lastId, lastTime := InsertRows(batch, fate);
      if !ok || fate.MetaFails? || fate.CommitFails? {
        return false;
      }
      var firstTime := if readable.count == 0 then batch[0].time else readable.firstTime;
      db := Database(transaction,
                     CatalogRow(readable.count + inserted, Some(ingestedFirstId), Some(lastId),
                                Seconds(firstTime), Seconds(lastTime)));
      if fate.CommitLost? {
        return false;
      }
      if readable.count == 0 {
        readable := readable.(firstId := ingestedFirstId, lastId := 0, firstTime := batch[0].time);
      }
      readable := readable.(count := readable.count + inserted, lastId := lastId, lastTime := lastTime);
      return true;
    }
  }

  /** The counters are those of the catalog row, with 0 for a NULL id. */
  ghost predicate Restores(row: CatalogRow, c: Counters) {
    && c.count == row.count && c.firstTime == row.firstTime && c.lastTime == row.lastTime
    && c.firstId == (match row.firstId case Some(id) => id case None => 0)
    && c.lastId == (match row.lastId case Some(id) => id case None => 0)
  }

  /** LoadStreamCatalog: one stream info per row, and the uuids in row order. */
  method LoadStreamCatalog(rows: seq<(string, CatalogRow)>)
    returns (streams: map<string, (Counters, Counters)>, uuids: seq<string>)
    requires forall i, j | 0 <= i < j < |rows| :: rows[i].0 != rows[j].0
    ensures |uuids| == |rows| && forall i | 0 <= i < |rows| :: uuids[i] == rows[i].0
    ensures forall i | 0 <= i < |rows| ::
      rows[i].0 in streams && streams[rows[i].0] == (Loaded(rows[i].1), Loaded(rows[i].1))
    ensures forall i | 0 <= i < |rows| ::
      rows[i].0 in streams && Restores(rows[i].1, streams[rows[i].0].0) && Restores(rows[i].1, streams[rows[i].0].1)
    ensures forall u | u in streams :: u in uuids
  {
    streams, uuids := map[], [];
    for i := 0 to |rows|
      invariant |uuids| == i && forall k | 0 <= k < i :: uuids[k] == rows[k].0
      invariant forall k | 0 <= k < i ::
        rows[k].0 in streams && streams[rows[k].0] == (Loaded(rows[k].1), Loaded(rows[k].1))
      invariant forall u | u in streams :: u in uuids
    {
      var (uuid, row) := rows[i];
      var ingested := Counters(row.count, 0, 0, row.firstTime, row.lastTime);
      if row.firstId.Some? {
        ingested := ingested.(firstId := row.firstId.value);
      }
      if row.lastId.Some? {
        ingested := ingested.(lastId := row.lastId.value);
      }
      streams := streams[uuid := (ingested, ingested)];
      uuids := uuids + [uuid];
    }
  }

  // ---------------------------------------------------------------- the machine

  /** The last field is history: the messages that earlier sessions reported as saved. */
  datatype SqlNode = SqlNode(pipe: Pipe, db: Database, readable: Counters, prior: seq<Message>)

  /** A pipeline step with the fate of its transaction, or a stop or crash followed by a reload. */
  datatype SqlEvent = Local(e: Event, fate: Fate) | Restart(clock: int)

  function FromDatabase(cfg: Config, db: Database, clock: int): SqlNode {
    SqlNode(Fresh(cfg, Loaded(db.cached), clock), db, Loaded(db.cached), [])
  }

  function Saving(n: SqlNode, e: Event, fate: Fate): Outcome {
    match Batch(n.pipe, e)
    case Some(batch) => Transact(n.db, n.readable, n.pipe.intake.ingested.firstId, batch, fate)
    case None => Outcome(n.db, n.readable, false)
  }

  predicate SqlEnabled(n: SqlNode, ev: SqlEvent) {
    match ev
    case Restart(clock) => n.pipe.intake.clock <= clock
    case Local(e, fate) =>
      Enabled(n.pipe, e) && (Batch(n.pipe, e).Some? ==> e.saved == Saving(n, e, fate).ok)
  }

  function SqlApply(n: SqlNode, ev: SqlEvent): SqlNode
    requires SqlEnabled(n, ev)
  {
    match ev
    case Restart(clock) => FromDatabase(n.pipe.cfg, n.db, clock).(prior := n.prior + n.pipe.flow.cleared)
    case Local(e, fate) => SqlNode(Apply(n.pipe, e), Saving(n, e, fate).db, Saving(n, e, fate).readable, n.prior)
  }

  ghost predicate SqlRuns(n: SqlNode, evs: seq<SqlEvent>)
    decreases |evs|
  {
    evs != [] ==> SqlEnabled(n, evs[0]) && SqlRuns(SqlApply(n, evs[0]), evs[1..])
  }

  ghost function SqlAfter(n: SqlNode, evs: seq<SqlEvent>): SqlNode
    requires SqlRuns(n, evs)
    decreases |evs|
  {
    if evs == [] then n else SqlAfter(SqlApply(n, evs[0]), evs[1..])
  }

  // ---------------------------------------------------------------- the invariant

  /** The stored ids are exactly 1..n, each under its own key, and the cached counters say n,
      with the first id and the first and last timestamps to the second. */
  ghost predicate Exact(db: Database) {
    && (forall id: nat :: id in db.table <==> 1 <= id <= db.cached.count)
    && (forall id: nat | id in db.table :: db.table[id].id == id)
    && Loaded(db.cached).lastId == db.cached.count
    && Loaded(db.cached).firstId <= 1
    && (db.cached.count > 0 ==>
          && Loaded(db.cached).firstId == 1
          && db.cached.firstTime == Seconds(db.table[1].time)
          && db.cached.lastTime == Seconds(db.table[db.cached.count].time))
  }

  /** The readable counters know the first timestamp, to the second after a reload. */
  ghost predicate KnowsFirst(readable: Counters, db: Database) {
    readable.count > 0 ==> 1 in db.table && Seconds(readable.firstTime) == Seconds(db.table[1].time)
  }

  /** The readable counters as an index uses them. */
  ghost predicate FromOne(readable: Counters) {
    readable.lastId == readable.count && readable.firstId <= 1
  }

  lemma SecondsTwice(time: int)
    ensures Seconds(Seconds(time)) == Seconds(time)
  {
  }

  /** Those of the messages that the catalog row counts are stored under their ids. */
  ghost predicate Holds(db: Database, msgs: seq<Message>) {
    forall m | m in msgs && m.id <= db.cached.count :: m.id in db.table && db.table[m.id] == m
  }

  /** The table holds the cleared messages of the session, and possibly the head of the buffer:
      then a commit was reported as failed and the readable counters lag behind. */
  ghost predicate InStep(n: SqlNode) {
    var base, f := Base(n.pipe.loaded), n.pipe.flow;
    && n.readable.count == base + |f.cleared|
    && n.pipe.loaded.count == base
    && n.readable.count <= n.db.cached.count <= n.readable.count + |f.buffer|
    && (n.pipe.loaded.count > 0 ==> n.pipe.loaded.firstId == 1)
    && Holds(n.db, f.cleared) && Holds(n.db, f.buffer)
    && KnowsFirst(n.readable, n.db) && FromOne(n.readable)
  }

  ghost predicate AllStored(db: Database, msgs: seq<Message>) {
    forall m | m in msgs :: m.id in db.table && db.table[m.id] == m
  }

  ghost predicate SqlInv(n: SqlNode) {
    Inv(n.pipe) && Exact(n.db) && InStep(n) && AllStored(n.db, n.prior)
  }

  /** Consecutive new ids go in; an id that is already there refuses the whole batch. */
  lemma {:induction false} InsertNumbered(table: map<nat, Message>, n: nat, batch: seq<Message>)
    requires forall id: nat :: id in table <==> 1 <= id <= n
    requires NumberedFrom(batch, n)
    requires forall id: nat | id in table :: table[id].id == id
    ensures
      var r := InsertAll(table, batch);
      && r.Some?
      && (forall id: nat | id in r.value :: r.value[id].id == id)
      && (forall id: nat :: id in r.value <==> 1 <= id <= n + |batch|)
      && (forall id: nat | id in table :: r.value[id] == table[id])
      && (forall m | m in batch :: m.id in r.value && r.value[m.id] == m)
    decreases |batch|
  {
    if batch != [] {
      InsertNumbered(table[batch[0].id := batch[0]], n + 1, batch[1..]);
      assert batch == [batch[0]] + batch[1..];
    }
  }

  /** A lagging writer: the first id of its next batch is already stored. */
  predicate Lags(n: SqlNode) {
    n.readable.count < n.db.cached.count
  }

  /** The batch that follows the cleared messages takes the ids after the readable count. */
  lemma BatchIds(n: SqlNode, e: Event)
    requires SqlInv(n) && Enabled(n.pipe, e) && Batch(n.pipe, e).Some?
    ensures NumberedFrom(Batch(n.pipe, e).value, n.readable.count)
    ensures Lags(n) ==> Batch(n.pipe, e).value != [] && Batch(n.pipe, e).value[0].id in n.db.table
    ensures Batch(n.pipe, e).value != [] || n.readable.count > 0 ==> n.pipe.intake.ingested.firstId == 1
  {
    SaveStep(n.pipe, e);
    var batch, f := Batch(n.pipe, e).value, n.pipe.flow;
    ClearedIds(n, batch);
    if batch != [] {
      assert |f.numbered| >= |f.cleared + batch| > 0;
    }
  }

  /** The rows of the batch are stored, on top of everything that was stored before. */
  ghost predicate Extends(before: Database, after: Database, n: nat, batch: seq<Message>) {
    && after.cached.count == n + |batch|
    && (forall id | id in before.table :: id in after.table && after.table[id] == before.table[id])
    && (forall m | m in batch :: m.id in after.table && after.table[m.id] == m)
  }

  /** What a transaction leaves behind, whatever its fate: all of the batch or nothing of it. */
  lemma TransactAllOrNothing(db: Database, readable: Counters, first: nat, batch: seq<Message>, fate: Fate)
    requires Exact(db) && readable.count <= db.cached.count && NumberedFrom(batch, readable.count)
    requires readable.count < db.cached.count ==> batch != []
    requires readable.count == 0 && batch != [] ==> first == 1
    requires readable.count > 0 ==> first == 1
    requires KnowsFirst(readable, db) && FromOne(readable)
    ensures
      var out := Transact(db, readable, first, batch, fate);
      && Exact(out.db)
      && (out.db == db || Extends(db, out.db, readable.count, batch))
      && (if out.ok then out.db.cached.count == out.readable.count == readable.count + |batch|
          else out.readable == readable)
      && (readable.count < db.cached.count ==> out == Outcome(db, readable, false))
      && KnowsFirst(out.readable, out.db) && FromOne(out.readable)
  {
    if readable.count == db.cached.count && batch != [] {
      InsertNumbered(db.table, readable.count, batch);
      assert batch[|batch| - 1] in batch && batch[|batch| - 1].id == readable.count + |batch|;
      assert batch[0] in batch;
    }
  }

  lemma TransactKeeps(n: SqlNode, e: Event, fate: Fate)
    requires SqlInv(n) && Enabled(n.pipe, e) && Batch(n.pipe, e).Some?
    ensures
      var batch, out := Batch(n.pipe, e).value, Saving(n, e, fate);
      && Exact(out.db)
      && (out.db == n.db || Extends(n.db, out.db, n.readable.count, batch))
      && (if out.ok then out.db.cached.count == out.readable.count == n.readable.count + |batch|
          else out.readable == n.readable)
      && (Lags(n) ==> out == Outcome(n.db, n.readable, false))
      && KnowsFirst(out.readable, out.db) && FromOne(out.readable)
  {
    BatchIds(n, e);
    TransactAllOrNothing(n.db, n.readable, n.pipe.intake.ingested.firstId, Batch(n.pipe, e).value, fate);
  }

  /** What is stored stays stored when the buffer grows into a batch and the batch is written. */
  lemma StillHolds(n: SqlNode, db: Database, batch: seq<Message>)
    requires Exact(n.db) && InStep(n) && n.pipe.flow.buffer <= batch && NumberedFrom(batch, n.readable.count)
    requires forall m | m in n.pipe.flow.cleared :: m.id <= n.readable.count
    requires db == n.db || Extends(n.db, db, n.readable.count, batch)
    ensures Holds(db, n.pipe.flow.cleared) && Holds(db, batch)
  {
    if db == n.db {
      forall m | m in batch && m.id <= db.cached.count
        ensures m in n.pipe.flow.buffer
      {
        var k :| 0 <= k < |batch| && batch[k] == m;
        assert n.pipe.flow.buffer[k] == batch[k];
      }
    }
  }

  lemma ClearedIds(n: SqlNode, batch: seq<Message>)
    requires SqlInv(n) && n.pipe.flow.cleared + batch <= n.pipe.flow.numbered
    ensures NumberedFrom(batch, n.readable.count)
    ensures forall m | m in n.pipe.flow.cleared :: m.id <= n.readable.count
  {
    var f := n.pipe.flow;
    forall k | 0 <= k < |batch|
      ensures batch[k].id == n.readable.count + 1 + k
    {
      assert batch[k] == (f.cleared + batch)[|f.cleared| + k] == f.numbered[|f.cleared| + k];
    }
    forall m | m in f.cleared
      ensures m.id <= n.readable.count
    {
      var k :| 0 <= k < |f.cleared| && f.cleared[k] == m;
      assert (f.cleared + batch)[k] == f.numbered[k];
    }
  }

  lemma SaveKeepsStep(n: SqlNode, e: Event, fate: Fate)
    requires SqlInv(n) && SqlEnabled(n, Local(e, fate)) && Batch(n.pipe, e).Some?
    ensures InStep(SqlApply(n, Local(e, fate)))
  {
    var batch := Batch(n.pipe, e).value;
    SaveStep(n.pipe, e);
    TransactKeeps(n, e, fate);
    ClearedIds(n, batch);
    StillHolds(n, Saving(n, e, fate).db, batch);
  }

  lemma OtherKeepsStep(n: SqlNode, e: Event, fate: Fate)
    requires SqlInv(n) && SqlEnabled(n, Local(e, fate)) && Batch(n.pipe, e).None?
    ensures InStep(SqlApply(n, Local(e, fate)))
  {
    var f := Apply(n.pipe, e).flow;
    SaveStep(n.pipe, e);
    StepKeeps(n.pipe, e);
    assert f.numbered == f.cleared + f.buffer + f.channel + Blocked(f);
    var t := n.(pipe := Apply(n.pipe, e));
    ClearedBuffer(n, t);
  }

  lemma ClearedBuffer(n: SqlNode, t: SqlNode)
    requires SqlInv(n) && Inv(t.pipe) && t.pipe.loaded == n.pipe.loaded && t.db == n.db && t.readable == n.readable
    requires t.pipe.flow.cleared == n.pipe.flow.cleared && n.pipe.flow.buffer <= t.pipe.flow.buffer
    ensures InStep(t)
  {
    hide Exact, Counted, KnowsFirst, Staged;
    var f := t.pipe.flow;
    forall m | m in f.buffer && m.id <= n.db.cached.count
      ensures m in n.pipe.flow.buffer
    {
      var k :| 0 <= k < |f.buffer| && f.buffer[k] == m;
      assert f.numbered[|f.cleared| + k] == m;
      assert n.pipe.flow.buffer[k] == m;
    }
  }

  /** Stored rows are never changed or removed. */
  lemma RowsAreFinal(n: SqlNode, ev: SqlEvent)
    requires SqlInv(n) && SqlEnabled(n, ev)
    ensures forall id | id in n.db.table ::
      id in SqlApply(n, ev).db.table && SqlApply(n, ev).db.table[id] == n.db.table[id]
  {
    if ev.Local? && Batch(n.pipe, ev.e).Some? {
      TransactKeeps(n, ev.e, ev.fate);
    }
  }

  lemma LocalKeeps(n: SqlNode, e: Event, fate: Fate)
    requires SqlInv(n) && SqlEnabled(n, Local(e, fate))
    ensures SqlInv(SqlApply(n, Local(e, fate)))
  {
    StepKeeps(n.pipe, e);
    RowsAreFinal(n, Local(e, fate));
    if Batch(n.pipe, e).Some? {
      TransactKeeps(n, e, fate);
      SaveKeepsStep(n, e, fate);
    } else {
      OtherKeepsStep(n, e, fate);
    }
  }

  lemma ClearedStored(n: SqlNode)
    requires SqlInv(n)
    ensures AllStored(n.db, n.pipe.flow.cleared)
  {
    var f := n.pipe.flow;
    assert f.cleared + f.buffer <= f.numbered;
    ClearedIds(n, f.buffer);
  }

  lemma SqlStepKeeps(n: SqlNode, ev: SqlEvent)
    requires SqlInv(n) && SqlEnabled(n, ev)
    ensures SqlInv(SqlApply(n, ev))
  {
    match ev
    case Local(e, fate) => LocalKeeps(n, e, fate);
    case Restart(_) =>
      ClearedStored(n);
      if n.db.cached.count > 0 {
        SecondsTwice(n.db.table[1].time);
      }
  }

  lemma {:induction false} SqlRunKeeps(n: SqlNode, evs: seq<SqlEvent>)
    requires SqlInv(n) && SqlRuns(n, evs)
    ensures SqlInv(SqlAfter(n, evs))
    decreases |evs|
  {
    if evs != [] {
      SqlStepKeeps(n, evs[0]);
      SqlRunKeeps(SqlApply(n, evs[0]), evs[1..]);
    }
  }

  // ---------------------------------------------------------------- results

  /** Over any run of puts, flushes, transactions of any fate, crashes and reloads, the table
      holds exactly the ids 1..n, the catalog row says n, and every message that a save ever
      reported as written, in this session or an earlier one, is stored under its id. */
  lemma TableIsExact(cfg: Config, clock: int, evs: seq<SqlEvent>)
    requires SqlRuns(FromDatabase(cfg, EMPTY_DATABASE, clock), evs)
    ensures
      var n := SqlAfter(FromDatabase(cfg, EMPTY_DATABASE, clock), evs);
      && (forall id: nat :: id in n.db.table <==> 1 <= id <= n.db.cached.count)
      && Loaded(n.db.cached).lastId == n.db.cached.count
      && (n.db.cached.count > 0 ==>
            && n.db.cached.firstTime == Seconds(n.db.table[1].time)
            && n.db.cached.lastTime == Seconds(n.db.table[n.db.cached.count].time))
      && AllStored(n.db, n.prior + n.pipe.flow.cleared)
  {
    SqlRunKeeps(FromDatabase(cfg, EMPTY_DATABASE, clock), evs);
    ClearedStored(SqlAfter(FromDatabase(cfg, EMPTY_DATABASE, clock), evs));
  }

  /** A save tries to reuse a stored id if and only if the readable counters lag behind the
      catalog row, that is after a commit that was reported as failed. */
  lemma ReuseIsLag(n: SqlNode, e: Event)
    requires SqlInv(n) && Enabled(n.pipe, e) && Batch(n.pipe, e).Some?
    ensures (exists m :: m in Batch(n.pipe, e).value && m.id in n.db.table) <==> Lags(n)
  {
    BatchIds(n, e);
  }

  /** A non-empty batch is committed while its save reports a failure. */
  predicate CommitGetsLost(n: SqlNode, ev: SqlEvent) {
    ev.Local? && ev.fate.CommitLost? && Batch(n.pipe, ev.e).Some? && Batch(n.pipe, ev.e).value != []
  }

  /** A transaction in step leaves the counters behind exactly when its commit gets lost. */
  lemma TransactLags(db: Database, readable: Counters, first: nat, batch: seq<Message>, fate: Fate)
    requires readable.count == db.cached.count && InsertAll(db.table, batch).Some?
    ensures
      var out := Transact(db, readable, first, batch, fate);
      out.readable.count < out.db.cached.count <==> fate.CommitLost? && batch != []
  {
    hide InsertAll;
    assert batch != [] ==> CacheRow(readable, first, batch).count == readable.count + |batch|;
  }

  /** Only a commit reported as failed makes the counters lag; without one they are equal. */
  lemma LagNeedsLostCommit(n: SqlNode, ev: SqlEvent)
    requires SqlInv(n) && SqlEnabled(n, ev) && !Lags(n)
    ensures Lags(SqlApply(n, ev)) <==> CommitGetsLost(n, ev)
  {
    if ev.Local? && Batch(n.pipe, ev.e).Some? {
      InsertsInStep(n, ev.e);
      hide SqlInv, Transact, InsertAll, Batch, Apply, Enabled;
      TransactLags(n.db, n.readable, n.pipe.intake.ingested.firstId, Batch(n.pipe, ev.e).value, ev.fate);
    }
  }

  lemma InsertsInStep(n: SqlNode, e: Event)
    requires SqlInv(n) && Enabled(n.pipe, e) && Batch(n.pipe, e).Some? && !Lags(n)
    ensures InsertAll(n.db.table, Batch(n.pipe, e).value).Some? && n.readable.count == n.db.cached.count
  {
    BatchIds(n, e);
    InsertNumbered(n.db.table, n.readable.count, Batch(n.pipe, e).value);
  }

  /** From then on no save succeeds and the database stays as it is, until a reload repairs it. */
  lemma LagUntilRestart(n: SqlNode, ev: SqlEvent)
    requires SqlInv(n) && SqlEnabled(n, ev) && Lags(n)
    ensures SqlApply(n, ev).db == n.db
    ensures Lags(SqlApply(n, ev)) <==> ev.Local?
  {
    if ev.Local? && Batch(n.pipe, ev.e).Some? {
      TransactKeeps(n, ev.e, ev.fate);
    }
  }

  // ---------------------------------------------------------------- reuse over runs

  ghost predicate NoReload(evs: seq<SqlEvent>) {
    forall ev | ev in evs :: ev.Local?
  }

  /** Somewhere in the run a commit gets lost and no reload follows it. */
  ghost predicate LostUnrepaired(n: SqlNode, evs: seq<SqlEvent>)
    requires SqlRuns(n, evs)
    decreases |evs|
  {
    evs != [] &&
    ((CommitGetsLost(n, evs[0]) && NoReload(evs[1..])) || LostUnrepaired(SqlApply(n, evs[0]), evs[1..]))
  }

  lemma LagStep(n: SqlNode, ev: SqlEvent)
    requires SqlInv(n) && SqlEnabled(n, ev)
    ensures Lags(SqlApply(n, ev)) <==> CommitGetsLost(n, ev) || (Lags(n) && ev.Local?)
  {
    if Lags(n) {
      LagUntilRestart(n, ev);
    } else {
      LagNeedsLostCommit(n, ev);
    }
  }

  lemma {:induction false} LagFrom(n: SqlNode, evs: seq<SqlEvent>)
    requires SqlInv(n) && SqlRuns(n, evs)
    ensures Lags(SqlAfter(n, evs)) <==> LostUnrepaired(n, evs) || (Lags(n) && NoReload(evs))
    decreases |evs|
  {
    hide SqlInv, SqlApply, SqlEnabled, Lags, CommitGetsLost;
    if evs != [] {
      SqlStepKeeps(n, evs[0]);
      LagStep(n, evs[0]);
      LagFrom(SqlApply(n, evs[0]), evs[1..]);
      assert evs == [evs[0]] + evs[1..];
      assert NoReload(evs) <==> evs[0].Local? && NoReload(evs[1..]);
    }
  }

  lemma EmptyIsInStep(cfg: Config, clock: int)
    ensures SqlInv(FromDatabase(cfg, EMPTY_DATABASE, clock)) && !Lags(FromDatabase(cfg, EMPTY_DATABASE, clock))
  {
  }

  /** Over any run from an empty database, the next batch that a step hands to the writer holds
      a stored id if and only if some commit got lost and no reload followed it. */
  lemma ReuseNeedsLostCommit(cfg: Config, clock: int, evs: seq<SqlEvent>, e: Event)
    requires SqlRuns(FromDatabase(cfg, EMPTY_DATABASE, clock), evs)
    requires Enabled(SqlAfter(FromDatabase(cfg, EMPTY_DATABASE, clock), evs).pipe, e)
    requires Batch(SqlAfter(FromDatabase(cfg, EMPTY_DATABASE, clock), evs).pipe, e).Some?
    ensures
      var n := SqlAfter(FromDatabase(cfg, EMPTY_DATABASE, clock), evs);
      (exists m :: m in Batch(n.pipe, e).value && m.id in n.db.table)
        <==> LostUnrepaired(FromDatabase(cfg, EMPTY_DATABASE, clock), evs)
  {
    var n := FromDatabase(cfg, EMPTY_DATABASE, clock);
    EmptyIsInStep(cfg, clock);
    hide SqlInv, Lags, Batch, Enabled;
    SqlRunKeeps(n, evs);
    LagFrom(n, evs);
    ReuseIsLag(SqlAfter(n, evs), e);
  }

  lemma {:induction false} NothingLost(n: SqlNode, evs: seq<SqlEvent>)
    requires SqlRuns(n, evs) && forall ev | ev in evs && ev.Local? :: !ev.fate.CommitLost?
    ensures !LostUnrepaired(n, evs)
    decreases |evs|
  {
    if evs != [] {
      NothingLost(SqlApply(n, evs[0]), evs[1..]);
    }
  }

  /** In particular no insert ever reuses a stored id when every commit is reported truthfully. */
  lemma NeverReused(cfg: Config, clock: int, evs: seq<SqlEvent>, e: Event)
    requires SqlRuns(FromDatabase(cfg, EMPTY_DATABASE, clock), evs)
    requires forall ev | ev in evs && ev.Local? :: !ev.fate.CommitLost?
    requires Enabled(SqlAfter(FromDatabase(cfg, EMPTY_DATABASE, clock), evs).pipe, e)
    requires Batch(SqlAfter(FromDatabase(cfg, EMPTY_DATABASE, clock), evs).pipe, e).Some?
    ensures
      var n := SqlAfter(FromDatabase(cfg, EMPTY_DATABASE, clock), evs);
      forall m | m in Batch(n.pipe, e).value :: m.id !in n.db.table
  {
    NothingLost(FromDatabase(cfg, EMPTY_DATABASE, clock), evs);
    ReuseNeedsLostCommit(cfg, clock, evs, e);
  }

  // ---------------------------------------------------------------- runs of committed batches

  ghost predicate AllCommit(evs: seq<SqlEvent>) {
    forall ev | ev in evs && ev.Local? :: ev.fate == Commits
  }

  /** Whether every save of the run succeeds. */
  ghost predicate AllStoredAtOnce(n: SqlNode, evs: seq<SqlEvent>)
    requires SqlRuns(n, evs)
    decreases |evs|
  {
    evs != [] ==>
      && (evs[0].Local? && Batch(n.pipe, evs[0].e).Some? ==> evs[0].e.saved)
      && AllStoredAtOnce(SqlApply(n, evs[0]), evs[1..])
  }

  /** The messages ever reported as saved, and that the catalog row counts exactly those. */
  function Saved(n: SqlNode): seq<Message> {
    n.prior + n.pipe.flow.cleared
  }

  ghost predicate Committing(n: SqlNode) {
    SqlInv(n) && !Lags(n) && |n.prior| == Base(n.pipe.loaded) && NumberedFrom(n.prior, 0)
  }

  lemma SavedIs(n: SqlNode)
    requires Committing(n)
    ensures NumberedFrom(Saved(n), 0) && |Saved(n)| == n.db.cached.count && AllStored(n.db, Saved(n))
  {
    var f := n.pipe.flow;
    assert f.cleared <= f.numbered;
    assert NumberedFrom(f.cleared, |n.prior|) by {
      assert forall k | 0 <= k < |f.cleared| :: f.cleared[k] == f.numbered[k];
    }
    ClearedStored(n);
    hide SqlInv;
    NumberedOn(n.prior, f.cleared);
  }

  lemma NumberedOn(a: seq<Message>, b: seq<Message>)
    requires NumberedFrom(a, 0) && NumberedFrom(b, |a|)
    ensures NumberedFrom(a + b, 0)
  {
  }

  lemma ReloadCommits(n: SqlNode, clock: int)
    requires Committing(n) && SqlEnabled(n, Restart(clock))
    ensures Committing(SqlApply(n, Restart(clock)))
  {
    SqlStepKeeps(n, Restart(clock));
    SavedIs(n);
    assert Loaded(n.db.cached).lastId == n.db.cached.count;
    hide SqlInv, AllStored, NumberedFrom;
  }

  lemma CommitsOk(db: Database, readable: Counters, ingestedFirstId: nat, batch: seq<Message>)
    requires InsertAll(db.table, batch).Some?
    ensures Transact(db, readable, ingestedFirstId, batch, Commits).ok
  {
  }

  lemma SaveSucceeds(n: SqlNode, e: Event)
    requires SqlInv(n) && !Lags(n) && SqlEnabled(n, Local(e, Commits)) && Batch(n.pipe, e).Some?
    ensures e.saved
  {
    InsertsInStep(n, e);
    CommitsOk(n.db, n.readable, n.pipe.intake.ingested.firstId, Batch(n.pipe, e).value);
    hide Transact, InsertAll, SqlInv, Batch, Enabled;
  }

  lemma SaveCommits(n: SqlNode, e: Event)
    requires Committing(n) && SqlEnabled(n, Local(e, Commits))
    ensures Committing(SqlApply(n, Local(e, Commits)))
    ensures Batch(n.pipe, e).Some? ==> e.saved
  {
    hide SqlInv, NumberedFrom, Transact, Saving, Batch, Enabled, Apply, Lags;
    SqlStepKeeps(n, Local(e, Commits));
    LagNeedsLostCommit(n, Local(e, Commits));
    LoadedStays(n.pipe, e);
    if Batch(n.pipe, e).Some? {
      SaveSucceeds(n, e);
    }
  }

  lemma CommitStep(n: SqlNode, ev: SqlEvent)
    requires Committing(n) && SqlEnabled(n, ev) && (ev.Local? ==> ev.fate == Commits)
    ensures Committing(SqlApply(n, ev))
    ensures ev.Local? && Batch(n.pipe, ev.e).Some? ==> ev.e.saved
  {
    match ev
    case Restart(clock) => ReloadCommits(n, clock);
    case Local(e, _) => SaveCommits(n, e);
  }

  lemma {:induction false} CommitRun(n: SqlNode, evs: seq<SqlEvent>)
    requires Committing(n) && SqlRuns(n, evs) && AllCommit(evs)
    ensures Committing(SqlAfter(n, evs)) && AllStoredAtOnce(n, evs)
    decreases |evs|
  {
    if evs != [] {
      CommitStep(n, evs[0]);
      hide Committing, SqlApply, SqlEnabled;
      CommitRun(SqlApply(n, evs[0]), evs[1..]);
    }
  }

  /** When every transaction commits, every save succeeds, over crashes and reloads too, and the
      table holds exactly the messages saved: the k-th of them under id k. */
  lemma CommittedIsStored(cfg: Config, clock: int, evs: seq<SqlEvent>)
    requires SqlRuns(FromDatabase(cfg, EMPTY_DATABASE, clock), evs) && AllCommit(evs)
    ensures AllStoredAtOnce(FromDatabase(cfg, EMPTY_DATABASE, clock), evs)
    ensures
      var n := SqlAfter(FromDatabase(cfg, EMPTY_DATABASE, clock), evs);
      && n.db.cached.count == |Saved(n)|
      && (forall id: nat :: id in n.db.table <==> 1 <= id <= |Saved(n)|)
      && (forall k | 0 <= k < |Saved(n)| :: Saved(n)[k].id == k + 1 && n.db.table[k + 1] == Saved(n)[k])
  {
    EmptyIsInStep(cfg, clock);
    CommitRun(FromDatabase(cfg, EMPTY_DATABASE, clock), evs);
    SavedIs(SqlAfter(FromDatabase(cfg, EMPTY_DATABASE, clock), evs));
  }

  /** After a reload numbering goes on just above the stored rows. */
  lemma ReloadContinues(n: SqlNode, clock: int, es: seq<Event>)
    requires SqlInv(n) && SqlEnabled(n, Restart(clock)) && Runs(SqlApply(n, Restart(clock)).pipe, es)
    ensures Restores(n.db.cached, SqlApply(n, Restart(clock)).readable)
    ensures
      var numbered := After(SqlApply(n, Restart(clock)).pipe, es).flow.numbered;
      forall k | 0 <= k < |numbered| :: numbered[k].id == n.db.cached.count + 1 + k
  {
    SqlStepKeeps(n, Restart(clock));
    RunKeeps(SqlApply(n, Restart(clock)).pipe, es);
  }

  // ---------------------------------------------------------------- a run that loses a commit

  lemma {:induction false} SqlRunsOn(n: SqlNode, evs: seq<SqlEvent>, more: seq<SqlEvent>)
    requires SqlRuns(n, evs) && SqlRuns(SqlAfter(n, evs), more)
    ensures SqlRuns(n, evs + more) && SqlAfter(n, evs + more) == SqlAfter(SqlAfter(n, evs), more)
    decreases |evs|
  {
    hide SqlApply, SqlEnabled;
    if evs == [] {
      assert evs + more == more;
    } else {
      assert (evs + more)[1..] == evs[1..] + more;
      SqlRunsOn(SqlApply(n, evs[0]), evs[1..], more);
    }
  }

  lemma SqlOneMore(n: SqlNode, evs: seq<SqlEvent>, ev: SqlEvent)
    requires SqlRuns(n, evs) && SqlEnabled(SqlAfter(n, evs), ev)
    ensures SqlRuns(n, evs + [ev]) && SqlAfter(n, evs + [ev]) == SqlApply(SqlAfter(n, evs), ev)
  {
    hide SqlApply, SqlEnabled;
    var t := SqlAfter(n, evs);
    assert [ev][1..] == [];
    assert SqlRuns(t, [ev]) && SqlAfter(t, [ev]) == SqlApply(t, ev);
    SqlRunsOn(n, evs, [ev]);
  }

  /** Pipeline steps that save nothing do not touch the database. */
  lemma {:induction false} SilentRun(n: SqlNode, es: seq<Event>) returns (evs: seq<SqlEvent>)
    requires Runs(n.pipe, es) && forall e | e in es :: !e.Receive? && !e.Flush? && !e.Stop?
    ensures SqlRuns(n, evs) && SqlAfter(n, evs) == n.(pipe := After(n.pipe, es))
    decreases |es|
  {
    if es == [] {
      evs := [];
    } else {
      var ev := Local(es[0], Commits);
      assert SqlApply(n, ev) == n.(pipe := Apply(n.pipe, es[0]));
      var rest := SilentRun(SqlApply(n, ev), es[1..]);
      evs := [ev] + rest;
      assert evs[1..] == rest;
    }
  }

  lemma LostCommitStep(n: SqlNode, e: Event)
    requires SqlInv(n) && Enabled(n.pipe, e) && Batch(n.pipe, e).Some? && Batch(n.pipe, e).value != [] && !e.saved
    ensures SqlEnabled(n, Local(e, CommitLost)) && Lags(SqlApply(n, Local(e, CommitLost)))
  {
    hide SqlInv, InsertAll, CacheRow, Batch, Apply, Enabled;
    assert !Saving(n, e, CommitLost).ok;
    LagStep(n, Local(e, CommitLost));
  }

  lemma ReceivesOne(s: Pipe)
    requires s.control == Control(Running, false, false, false) && |s.flow.channel| == 1 && s.flow.buffer == []
    ensures Enabled(s, Receive(false))
    ensures
      if SavesNow(s.cfg, s.flow.channel) then Batch(s, Receive(false)) == Some(s.flow.channel)
      else
        && Batch(s, Receive(false)).None?
        && Enabled(Apply(s, Receive(false)), Flush(false))
        && Batch(Apply(s, Receive(false)), Flush(false)) == Some(s.flow.channel)
  {
    assert TakeMessage(s.cfg, s.flow).buffer == s.flow.channel;
  }

  /** The commit of the one message on its way gets lost. */
  lemma LoseCommit(n: SqlNode) returns (evs: seq<SqlEvent>)
    requires SqlInv(n) && n.pipe.control == Control(Running, false, false, false)
    requires |n.pipe.flow.channel| == 1 && n.pipe.flow.buffer == []
    ensures SqlRuns(n, evs) && Lags(SqlAfter(n, evs))
  {
    var first, second := Local(Receive(false), CommitLost), Local(Flush(false), CommitLost);
    ReceivesOne(n.pipe);
    hide SqlInv, Lags, Enabled, Batch, Apply, Saving;
    evs := [first];
    if SavesNow(n.pipe.cfg, n.pipe.flow.channel) {
      LostCommitStep(n, Receive(false));
      SqlOneMore(n, [], first);
    } else {
      SqlOneMore(n, [], first);
      SqlStepKeeps(n, first);
      LostCommitStep(SqlApply(n, first), Flush(false));
      SqlOneMore(n, [first], second);
      evs := evs + [second];
    }
  }

  /** For every configuration of a buffered channel a run makes the counters lag, after which the
      next save that has a batch tries to insert a stored id. */
  lemma CommitCanGetLost(cfg: Config, clock: int)
    requires cfg.channelSize > 0
    ensures exists evs: seq<SqlEvent> ::
      && SqlRuns(FromDatabase(cfg, EMPTY_DATABASE, clock), evs)
      && Lags(SqlAfter(FromDatabase(cfg, EMPTY_DATABASE, clock), evs))
  {
    var n := FromDatabase(cfg, EMPTY_DATABASE, clock);
    EmptyIsInStep(cfg, clock);
    var es := OneMessageRun(cfg, clock);
    hide SqlInv, SqlRuns, SqlAfter, Lags, Runs, After;
    var evs := SilentRun(n, es);
    SqlRunKeeps(n, evs);
    var more := LoseCommit(SqlAfter(n, evs));
    SqlRunsOn(n, evs, more);
    assert SqlRuns(n, evs + more);
  }
}
