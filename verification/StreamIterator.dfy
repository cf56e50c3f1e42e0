/** The stream iterator: one GetRecords loop over any of the three storage handlers, with
    filtering, paging, error counting and long polling. */
module StreamIterator {
  import opened Records
  import opened Reading
  import opened LineFile
  import InMemoryReader
  import FileReader
  import MySqlRows
  import MySqlReader

  // ---------------------------------------------------------------- handlers

  /** The storage handlers behind types.IStreamIteratorHandler. */
  datatype Handler =
    | InMemory(m: InMemoryReader.StreamIteratorHandlerInMemory)
    | JsonFile(f: FileReader.StreamIteratorHandlerFile)
    | MySql(q: MySqlReader.StreamIteratorHandlerMySQL)
  {
    ghost function Repr(): set<object> {
      match this
      case InMemory(m) => {m, m.log}
      case JsonFile(f) => {f, f.file}
      case MySql(q) => {q, q.table}
    }

    /** The handler's cursor agrees with its store, as each handler states it. */
    ghost predicate Valid()
      reads Repr()
    {
      match this
      case InMemory(m) => m.Valid()
      case JsonFile(f) => f.Valid()
      case MySql(q) => q.Valid()
    }

    ghost predicate Saved()
      reads Repr()
    {
      this.JsonFile? ==> f.Saved()
    }

    ghost predicate Ready()
      reads Repr()
    {
      match this
      case InMemory(m) => m.initialized
      case JsonFile(f) => f.initialized
      case MySql(q) => q.initialized
    }

    /** Everything delivered so far, in order. */
    ghost function History(): seq<Item>
      reads Repr()
    {
      match this
      case InMemory(m) => m.delivered
      case JsonFile(f) => DecodedLines(f.codec, f.delivered)
      case MySql(q) => MySqlRows.Payload(q.delivered)
    }

    /** The id to report for the latest item. */
    ghost function LastId(): int
      reads Repr()
    {
      match this
      case InMemory(m) => m.nextReadRecordIndex - 1
      case JsonFile(f) => f.nextRecordIdRead - 1
      case MySql(q) => q.nextRecordIdRead - 1
    }

    /** Where the cursor was placed: an index, an offset or an id. */
    ghost function Start(): nat
      reads Repr()
    {
      match this
      case InMemory(m) => m.start
      case JsonFile(f) => f.start
      case MySql(q) => q.start
    }

    /** Where the store as it is now places a request, if it does. */
    ghost predicate Places(request: Request, ok: bool, at: nat)
      reads Repr(), if JsonFile? then {f.index} else {}
    {
      match this
      case InMemory(m) => InMemoryReader.StartsAt(m.log.records, request, if ok then Some(at) else None)
      case JsonFile(f) =>
        exists p, r ::
          && f.ResolvesTo(request, p) && f.Answers(p, r)
          && (ok <==> r == FileReader.Placed) && (ok ==> p.At? && p.offset == at)
      case MySql(q) => MySqlReader.StartsAt(q.table.rows, q.table.readable, request, if ok then Some(at) else None)
    }

    ghost function Left(): nat
      reads Repr()
    {
      match this
      case InMemory(m) => m.Left()
      case JsonFile(f) => f.Left()
      case MySql(q) => q.Left()
    }

    /** The cursor has nothing to deliver from where it stands. */
    ghost predicate Exhausted()
      reads Repr()
    {
      match this
      case InMemory(m) => m.Left() == 0
      case JsonFile(f) => f.Left() == 0
      case MySql(q) => q.Exhausted()
    }

    method SeekFile(request: Request) returns (r: FileReader.SeekResult)
      requires JsonFile?
      requires Valid() && Saved()
      modifies Repr()
      ensures Valid() && Saved() && History() == old(History())
      ensures Ready() <==> r == FileReader.Placed
      ensures old(Ready()) ==> r == FileReader.Placed && Start() == old(Start())
      ensures !old(Ready()) ==>
        exists ok: bool, at: nat :: old(Places(request, ok, at)) && ok == Ready() && (ok ==> at == Start())
    {
      hide FileReader.StreamIteratorHandlerFile.Coherent, FileReader.StreamIteratorHandlerFile.ResolvesTo;
      r := f.Seek(request);
      ghost var ok, at := Ready(), Start();
      assert !old(Ready()) ==> old(Places(request, ok, at));
    }

    method SeekMemory(request: Request) returns (r: FileReader.SeekResult)
      requires InMemory?
      requires Valid() && Saved()
      modifies Repr()
      ensures Valid() && Saved() && History() == old(History())
      ensures Ready() <==> r == FileReader.Placed
      ensures old(Ready()) ==> r == FileReader.Placed && Start() == old(Start())
      ensures !old(Ready()) ==>
        exists ok: bool, at: nat :: old(Places(request, ok, at)) && ok == Ready() && (ok ==> at == Start())
    {
      hide InMemoryReader.StartsAt;
      var placed := m.Seek(request);
      r := if placed then FileReader.Placed else FileReader.Failed;
      ghost var ok, at := Ready(), Start();
      assert !old(Ready()) ==> old(Places(request, ok, at));
    }

    method SeekTable(request: Request) returns (r: FileReader.SeekResult)
      requires MySql?
      requires Valid() && Saved()
      modifies Repr()
      ensures Valid() && Saved() && History() == old(History())
      ensures Ready() <==> r == FileReader.Placed
      ensures old(Ready()) ==> r == FileReader.Placed && Start() == old(Start())
      ensures !old(Ready()) ==>
        exists ok: bool, at: nat :: old(Places(request, ok, at)) && ok == Ready() && (ok ==> at == Start())
    {
      hide MySqlReader.StartsAt, MySqlReader.StreamIteratorHandlerMySQL.Valid;
      var placed := q.Seek(request);
      r := if placed then FileReader.Placed else FileReader.Failed;
      ghost var ok, at := Ready(), Start();
      assert !old(Ready()) ==> old(Places(request, ok, at));
    }

    /** Places the cursor on the first call. Later calls leave it where it is. */
    method Seek(request: Request) returns (r: FileReader.SeekResult)
      requires Valid() && Saved()
      modifies Repr()
      ensures Valid() && Saved() && History() == old(History())
      ensures Ready() <==> r == FileReader.Placed
      ensures old(Ready()) ==> r == FileReader.Placed && Start() == old(Start())
      ensures !old(Ready()) ==>
        exists ok: bool, at: nat :: old(Places(request, ok, at)) && ok == Ready() && (ok ==> at == Start())
    {
      hide *;
      match this {
        case InMemory(_) => r := SeekMemory(request);
        case JsonFile(_) => r := SeekFile(request);
        case MySql(_) => r := SeekTable(request);
      }
    }

    method SaveSeek()
      requires Valid()
      modifies Repr()
      ensures Valid() && Saved() && History() == old(History()) && LastId() == old(LastId())
      ensures Ready() == old(Ready()) && Start() == old(Start()) && (old(Exhausted()) ==> Exhausted())
    {
      hide FileReader.StreamIteratorHandlerFile.Coherent, MySqlReader.StreamIteratorHandlerMySQL.Valid;
      hide InMemoryReader.StreamIteratorHandlerInMemory.Valid, MySqlReader.StreamIteratorHandlerMySQL.Exhausted;
      if this.JsonFile? {
        f.SaveSeek();
      }
    }

    method NextLine() returns (o: Outcome)
      requires JsonFile? && Valid() && Ready()
      modifies Repr()
      ensures Valid() && Ready() && Start() == old(Start())
      ensures o.Got? ==> History() == old(History()) + [o.item] && Left() < old(Left()) && LastId() == o.id
      ensures !o.Got? ==> History() == old(History()) && Left() <= old(Left()) && Saved() && LastId() == old(LastId())
      ensures !o.Got? ==> o == End(false) && Exhausted()
    {
      hide FileReader.StreamIteratorHandlerFile.Coherent;
      o := f.GetNextRecord();
      if o.Got? {
        DecodedOneMore(f.codec, f.delivered);
        assert f.delivered[..|f.delivered| - 1] == old(f.delivered);
      }
    }

    method NextRow(fate: MySqlRows.QueryFate) returns (o: Outcome)
      requires MySql? && Valid() && Ready()
      modifies Repr()
      ensures Valid() && Ready() && Start() == old(Start())
      ensures o.Got? ==> History() == old(History()) + [o.item] && Left() < old(Left()) && LastId() == o.id
      ensures !o.Got? ==> History() == old(History()) && Left() <= old(Left()) && Saved() && LastId() == old(LastId())
      ensures o == End(false) && !fate.CutShort? ==> Exhausted()
      ensures o == End(true) ==> !fate.Complete?
    {
      hide MySqlReader.StreamIteratorHandlerMySQL.Valid;
      o := q.GetNextRecord(fate);
      if o.Got? {
        ghost var row :| q.delivered == old(q.delivered) + [row] && o == Got(row.id, row.message);
        assert MySqlRows.Payload(q.delivered) == MySqlRows.Payload(old(q.delivered)) + [row.message];
      }
    }

    /** One more item, the end of what is available, or a failure. Unless the database is reliable a
        query may end in any way; it is interrupted when it does not read its page to the end. */
    method GetNextRecord(reliable: bool) returns (o: Outcome, ghost interrupted: bool)
      requires Valid() && Ready()
      modifies Repr()
      ensures Valid() && Ready() && Start() == old(Start())
      ensures o.Got? ==> History() == old(History()) + [o.item] && Left() < old(Left()) && LastId() == o.id
      ensures !o.Got? ==> History() == old(History()) && Left() <= old(Left()) && Saved() && LastId() == old(LastId())
      ensures o == End(false) && !interrupted ==> Exhausted()
      ensures o == End(true) ==> interrupted
      ensures interrupted ==> this.MySql? && !reliable
    {
      interrupted := false;
      match this {
        case InMemory(m) =>
          o := m.GetNextRecord();
        case JsonFile(_) =>
          hide *;
          o := NextLine();
        case MySql(_) =>
          hide *;
          var fate: MySqlRows.QueryFate := *;
          fate := if reliable then MySqlRows.Complete else fate;
          o := NextRow(fate);
          interrupted := !fate.Complete?;
      }
    }

    /** The writer runs: it appends anything that increases what is left by at most the budget. */
    method Arrive(budget: nat) returns (spent: nat)
      requires Valid()
      modifies Repr()
      ensures Valid() && Ready() == old(Ready()) && History() == old(History()) && LastId() == old(LastId())
      ensures Start() == old(Start()) && (old(Saved()) ==> Saved())
      ensures spent <= budget && Left() <= old(Left()) + spent
    {
      hide MySqlRows.Tracks, FileReader.StreamIteratorHandlerFile.Coherent;
      spent := 0;
      match this {
        case InMemory(m) =>
          var arriving: seq<Message> := *;
          if |arriving| <= budget {
            spent := |arriving|;
            m.Grow(arriving);
          }
        case JsonFile(f) =>
          var chunk: Bytes := *;
          if |chunk| <= budget && (|chunk| == 0 || chunk[|chunk| - 1] == NL) {
            spent := |chunk|;
            FlatOfLines(chunk);
            f.Grow(Lines(chunk));
          }
        case MySql(q) =>
          var more: seq<MySqlRows.SqlRow> := *;
          if |more| <= budget && MySqlRows.Ascending(q.table.rows + more) &&
             forall r | r in more :: r.id > MySqlRows.Top(q.table.rows) {
            spent := |more|;
            q.Grow(more);
          }
      }
    }
  }

  /** A read, with any appends that come before it. */
  method NextAfterArrivals(h: Handler, budget: nat, reliable: bool)
    returns (o: Outcome, unspent: nat, ghost interrupted: bool)
    requires h.Valid() && h.Ready()
    modifies h.Repr()
    ensures h.Valid() && h.Ready() && h.Start() == old(h.Start()) && unspent <= budget
    ensures o.Got? ==> h.History() == old(h.History()) + [o.item] && h.LastId() == o.id
    ensures o.Got? ==> unspent + h.Left() < budget + old(h.Left())
    ensures !o.Got? ==> h.History() == old(h.History()) && h.Saved() && h.LastId() == old(h.LastId())
    ensures o.End? && !interrupted ==> h.Exhausted()
    ensures interrupted ==> h.MySql? && !reliable
  {
    var spent := h.Arrive(budget);
    unspent := budget - spent;
    o, interrupted := h.GetNextRecord(reliable);
  }

  function DecodedLines(c: Codec, lines: seq<Bytes>): (items: seq<Item>)
    ensures |items| == |lines|
  {
    seq(|lines|, k requires 0 <= k < |lines| => c.decode(lines[k]))
  }

  lemma DecodedOneMore(c: Codec, lines: seq<Bytes>)
    requires lines != []
    ensures DecodedLines(c, lines) == DecodedLines(c, lines[..|lines| - 1]) + [c.decode(lines[|lines| - 1])]
  {
  }

  // ---------------------------------------------------------------- filtering

  /** What the jq filter makes of a record: a value, or no value with or without an error. */
  datatype JqResult = Emits(value: string) | Fails | NoOutput

  datatype Value = Whole(m: Message) | Emitted(value: string)

  datatype Effect = Sends(value: Value) | Skips | Errs

  type Filter = Option<Message -> JqResult>

  function EffectOf(jq: Filter, item: Item): Effect {
    if item.None? then Errs
    else if jq.None? then Sends(Whole(item.value))
    else
      match jq.value(item.value)
      case Emits(v) => Sends(Emitted(v))
      case Fails => Errs
      case NoOutput => Skips
  }

  /** The values that a run of items sends to the consumer. */
  function Sent(jq: Filter, items: seq<Item>): seq<Value> {
    if items == [] then []
    else
      var init := Sent(jq, items[..|items| - 1]);
      match EffectOf(jq, items[|items| - 1])
      case Sends(v) => init + [v]
      case _ => init
  }

  /** How many of the items have the effect. */
  function Tally(jq: Filter, items: seq<Item>, e: Effect): nat {
    if items == [] then 0
    else Tally(jq, items[..|items| - 1], e) + if EffectOf(jq, items[|items| - 1]) == e then 1 else 0
  }

  lemma {:induction false} SentConcat(jq: Filter, a: seq<Item>, b: seq<Item>)
    ensures Sent(jq, a + b) == Sent(jq, a) + Sent(jq, b)
  {
    if b == [] {
      assert a + b == a;
    } else {
      assert (a + b)[..|a + b| - 1] == a + b[..|b| - 1];
      SentConcat(jq, a, b[..|b| - 1]);
    }
  }

  /** Every consumed item is sent, skipped or counted as an error. */
  lemma {:induction false} EveryItemCounted(jq: Filter, items: seq<Item>)
    ensures |Sent(jq, items)| + Tally(jq, items, Skips) + Tally(jq, items, Errs) == |items|
  {
    if items != [] {
      EveryItemCounted(jq, items[..|items| - 1]);
    }
  }

  // ---------------------------------------------------------------- what a page shows

  /** The records are the values of the items at these positions, in order: the message itself
      without a filter, otherwise what the filter emits for it. No other item has a value. */
  ghost predicate Picks(jq: Filter, items: seq<Item>, at: seq<nat>, records: seq<Value>) {
    && |at| == |records|
    && (forall j, k | 0 <= j < k < |at| :: at[j] < at[k])
    && (forall i: nat :: i in at <==>
          i < |items| && items[i].Some? && (jq.None? || jq.value(items[i].value).Emits?))
    && (forall k | 0 <= k < |at| ::
          && at[k] < |items| && items[at[k]].Some?
          && if jq.None? then records[k] == Whole(items[at[k]].value)
             else
               && jq.value(items[at[k]].value).Emits?
               && records[k] == Emitted(jq.value(items[at[k]].value).value))
  }

  /** The messages that the filter drops without a value. */
  ghost function Dropped(jq: Filter, items: seq<Item>): set<nat> {
    set i: nat | i < |items| && items[i].Some? && jq.Some? && jq.value(items[i].value) == NoOutput
  }

  /** The records that do not decode and the messages on which the filter fails. */
  ghost function Faulty(jq: Filter, items: seq<Item>): set<nat> {
    set i: nat | i < |items| && (items[i].None? || (jq.Some? && jq.value(items[i].value) == Fails))
  }

  lemma {:induction false} SentPicks(jq: Filter, items: seq<Item>) returns (at: seq<nat>)
    ensures Picks(jq, items, at, Sent(jq, items))
  {
    if items == [] {
      at := [];
    } else {
      var init, last := items[..|items| - 1], items[|items| - 1];
      at := SentPicks(jq, init);
      if EffectOf(jq, last).Sends? {
        PicksMore(jq, init, last, at, Sent(jq, init), EffectOf(jq, last).value);
        at := at + [|init|];
      } else {
        PicksNoMore(jq, init, last, at, Sent(jq, init));
      }
      assert init + [last] == items;
    }
  }

  lemma PicksMore(jq: Filter, init: seq<Item>, last: Item, at: seq<nat>, records: seq<Value>, v: Value)
    requires Picks(jq, init, at, records) && EffectOf(jq, last) == Sends(v)
    ensures Picks(jq, init + [last], at + [|init|], records + [v])
  {
    var all, positions := init + [last], at + [|init|];
    forall i: nat
      ensures i in positions <==> i < |all| && all[i].Some? && (jq.None? || jq.value(all[i].value).Emits?)
    {
      assert i in positions <==> i in at || i == |init|;
      assert i < |init| ==> all[i] == init[i];
    }
  }

  lemma PicksNoMore(jq: Filter, init: seq<Item>, last: Item, at: seq<nat>, records: seq<Value>)
    requires Picks(jq, init, at, records) && !EffectOf(jq, last).Sends?
    ensures Picks(jq, init + [last], at, records)
  {
    var all := init + [last];
    forall i: nat
      ensures i in at <==> i < |all| && all[i].Some? && (jq.None? || jq.value(all[i].value).Emits?)
    {
      assert i < |init| ==> all[i] == init[i];
    }
  }

  lemma {:induction false} TallyCounts(jq: Filter, items: seq<Item>)
    ensures Tally(jq, items, Skips) == |Dropped(jq, items)|
    ensures Tally(jq, items, Errs) == |Faulty(jq, items)|
  {
    if items == [] {
      assert Dropped(jq, items) == {} && Faulty(jq, items) == {};
    } else {
      var init, last := items[..|items| - 1], items[|items| - 1];
      TallyCounts(jq, init);
      DroppedMore(jq, init, last);
      FaultyMore(jq, init, last);
      hide EffectOf, Dropped, Faulty;
      assert init + [last] == items;
    }
  }

  lemma DroppedMore(jq: Filter, init: seq<Item>, last: Item)
    ensures |Dropped(jq, init + [last])| == |Dropped(jq, init)| + if EffectOf(jq, last) == Skips then 1 else 0
  {
    var all, more := init + [last], Dropped(jq, init + [last]);
    assert forall i: nat | i < |init| :: all[i] == init[i];
    assert more - {|init|} == Dropped(jq, init);
    assert |init| in more <==> EffectOf(jq, last) == Skips;
  }

  lemma FaultyMore(jq: Filter, init: seq<Item>, last: Item)
    ensures |Faulty(jq, init + [last])| == |Faulty(jq, init)| + if EffectOf(jq, last) == Errs then 1 else 0
  {
    var all, more := init + [last], Faulty(jq, init + [last]);
    assert forall i: nat | i < |init| :: all[i] == init[i];
    assert more - {|init|} == Faulty(jq, init);
    assert |init| in more <==> EffectOf(jq, last) == Errs;
  }

  // ---------------------------------------------------------------- the iterator

  datatype Status = Success | Error | Busy | Panic

  datatype Response = Response(
    status: Status, count: nat, countErrors: nat, countSkipped: nat, remain: bool,
    lastRecordIdRead: nat, records: seq<Value>)

  datatype Stats = Stats(recordsErrors: nat, recordsSkipped: nat, recordsSent: nat)

  /** The response so far is the image of the items consumed so far. */
  ghost predicate Mirrors(jq: Filter, items: seq<Item>, r: Response) {
    && r.records == Sent(jq, items)
    && r.count == |r.records|
    && r.countSkipped == Tally(jq, items, Skips)
    && r.countErrors == Tally(jq, items, Errs)
  }

  /** A page is full once a message was read and as many records as wanted are there. */
  ghost predicate PageIsFull(consumed: seq<Item>, count: nat, maxRecords: nat) {
    count >= maxRecords && exists i | 0 <= i < |consumed| :: consumed[i].Some?
  }

  lemma NothingIsFull(maxRecords: nat)
    ensures !PageIsFull([], 0, maxRecords)
  {
  }

  lemma FullGrows(consumed: seq<Item>, item: Item, count: nat, more: nat, maxRecords: nat)
    requires !PageIsFull(consumed, count, maxRecords) && (item.None? ==> more == count)
    ensures PageIsFull(consumed + [item], more, maxRecords) <==> item.Some? && more >= maxRecords
  {
    assert (consumed + [item])[|consumed|] == item;
    assert forall i | 0 <= i < |consumed| :: (consumed + [item])[i] == consumed[i];
  }

  /** A response shows the values of the items, and counts those it drops and those it fails on. */
  ghost predicate Shows(jq: Filter, items: seq<Item>, r: Response) {
    && (exists at: seq<nat> :: Picks(jq, items, at, r.records))
    && r.count == |r.records|
    && r.countSkipped == |Dropped(jq, items)|
    && r.countErrors == |Faulty(jq, items)|
  }

  lemma MirrorsShows(jq: Filter, items: seq<Item>, r: Response)
    requires Mirrors(jq, items, r)
    ensures Shows(jq, items, r)
  {
    var at := SentPicks(jq, items);
    TallyCounts(jq, items);
  }

  /** One turn of the loop body for a record that was found. */
  function Account(jq: Filter, r: Response, item: Item): Response {
    match EffectOf(jq, item)
    case Sends(v) => r.(count := r.count + 1, records := r.records + [v])
    case Skips => r.(countSkipped := r.countSkipped + 1)
    case Errs => r.(countErrors := r.countErrors + 1)
  }

  lemma AccountMirrors(jq: Filter, items: seq<Item>, r: Response, item: Item)
    requires Mirrors(jq, items, r)
    ensures Mirrors(jq, items + [item], Account(jq, r, item))
    ensures
      var now := Account(jq, r, item);
      && now.status == r.status && now.remain == r.remain && now.count == |now.records|
      && |now.records| <= |r.records| + 1 && (item.None? ==> now.records == r.records)
  {
    assert (items + [item])[..|items|] == items;
  }

  lemma PageAccounts(jq: Filter, before: seq<Item>, all: seq<Item>, page: Response)
    requires before <= all && Mirrors(jq, all[|before|..], page)
    ensures Sent(jq, all) == Sent(jq, before) + page.records
    ensures page.count + page.countSkipped + page.countErrors == |all| - |before|
  {
    var consumed := all[|before|..];
    assert all == before + consumed;
    SentConcat(jq, before, consumed);
    EveryItemCounted(jq, consumed);
  }

  /** The clock, in seconds. */
  class Clock {
    var now: nat

    constructor (now: nat)
      ensures this.now == now
    {
      this.now := now;
    }

    /** Time goes by on its own. */
    method Pass()
      modifies this
      ensures now >= old(now)
    {
      var later: nat :| now <= later;
      now := later;
    }

    method Sleep()
      modifies this
      ensures now > old(now)
    {
      now := now + 1;
      Pass();
    }
  }

  class StreamIterator {
    const handler: Handler
    const clock: Clock
    const jq: Filter
    const request: Request
    const maxWaitTimeSeconds: int
    var busy: bool
    var lastRecordIdRead: nat
    var stats: Stats
    ghost var sent: seq<Value>    // the records of all successful responses

    constructor (handler: Handler, jq: Filter, request: Request, maxWaitTimeSeconds: int, clock: Clock)
      requires handler.Valid() && handler.Saved() && handler.History() == [] && clock !in handler.Repr()
      ensures Valid() && !busy && sent == []
      ensures this.handler == handler && this.jq == jq && this.clock == clock
      ensures this.request == request && this.maxWaitTimeSeconds == maxWaitTimeSeconds
    {
      this.handler, this.jq, this.request, this.maxWaitTimeSeconds := handler, jq, request, maxWaitTimeSeconds;
      this.clock := clock;
      busy, lastRecordIdRead, stats := false, 0, Stats(0, 0, 0);
      sent := [];
    }

    /** Page independence: whatever the page sizes were, the successful responses concatenate to
        the filtered image of everything the handler delivered. */
    ghost predicate Valid()
      reads this, handler.Repr()
    {
      && this !in handler.Repr() && clock !in handler.Repr()
      && handler.Valid() && handler.Saved()
      && sent == Sent(jq, handler.History())
    }

    /** Long polling, for an empty page only: sleeps for a second unless the wait time is over by
        the clock. Without a sleep nothing happens. */
    method Wait(page: Response, started: nat) returns (again: bool)
      requires handler.Valid() && handler.Ready() && page.count == 0
      requires clock !in handler.Repr() && started <= clock.now
      modifies handler.Repr(), clock
      ensures handler.Valid() && handler.Ready() && handler.Start() == old(handler.Start())
      ensures handler.History() == old(handler.History()) && handler.LastId() == old(handler.LastId())
      ensures clock.now >= old(clock.now)
      ensures again ==> old(clock.now) < clock.now && old(clock.now) < started + maxWaitTimeSeconds
      ensures !again ==> clock.now >= started + maxWaitTimeSeconds && (old(handler.Exhausted()) ==> handler.Exhausted())
    {
      hide Handler.Valid, Handler.Saved, Handler.Ready, Handler.History, Handler.Start;
      hide Handler.LastId, Handler.Left, Handler.Exhausted;
      clock.Pass();
      again := clock.now - started < maxWaitTimeSeconds;
      if again {
        clock.Sleep();
        var unbounded: nat := *;
        var _ := handler.Arrive(unbounded);
      }
    }

    /** The loop of GetRecords. Other goroutines may append before every read, within a budget
        that bounds them over the whole call, and without any bound while the call sleeps. */
    method TakePage(maxRecords: nat, reliable: bool)
      returns (r: Response, lastId: nat, ghost interrupted: bool)
      requires handler.Valid() && handler.Ready() && clock !in handler.Repr()
      modifies handler.Repr(), clock
      ensures handler.Valid() && handler.Ready() && handler.Start() == old(handler.Start())
      ensures old(handler.History()) <= handler.History()
      ensures r.status == Success
      ensures clock.now >= old(clock.now)
      ensures r.count == 0 && !r.remain ==> clock.now >= old(clock.now) + maxWaitTimeSeconds
      ensures |r.records| <= (if maxRecords == 0 then 1 else maxRecords)
      ensures
        var consumed := handler.History()[|old(handler.History())|..];
        && Mirrors(jq, consumed, r)
        && lastId == (if consumed == [] then 0 else handler.LastId())
        && (r.remain <==> PageIsFull(consumed, |r.records|, maxRecords))
        && (!r.remain && !interrupted ==> handler.Exhausted())
      ensures interrupted ==> handler.MySql? && !reliable
    {
      hide Handler.Valid, Handler.Saved, Handler.Ready, Handler.History, Handler.Start;
      hide Handler.LastId, Handler.Left, Handler.Exhausted, PageIsFull;
      r := Response(Success, 0, 0, 0, false, 0, []);
      lastId, interrupted := 0, false;
      var started := clock.now;
      var budget: nat := *;
      ghost var before := handler.History();
      ghost var consumed: seq<Item> := [];
      NothingIsFull(maxRecords);
      while true
        invariant handler.Valid() && handler.Ready() && handler.Start() == old(handler.Start())
        invariant clock.now >= started
        invariant handler.History() == before + consumed
        invariant Mirrors(jq, consumed, r) && !r.remain && r.status == Success
        invariant lastId == (if consumed == [] then 0 else handler.LastId())
        invariant |r.records| < maxRecords || r.records == []
        invariant !PageIsFull(consumed, |r.records|, maxRecords)
        invariant interrupted ==> handler.MySql? && !reliable
        decreases if clock.now < started + maxWaitTimeSeconds then started + maxWaitTimeSeconds - clock.now else 0,
                  budget + handler.Left()
      {
        var o: Outcome;
        o, budget, interrupted := NextAfterArrivals(handler, budget, reliable);
        if o.End? {
          if r.count == 0 && maxWaitTimeSeconds > 0 {
            var again := Wait(r, started);
            if again {
              continue;
            }
          }
          break;
        }
        lastId := o.id;
        AccountMirrors(jq, consumed, r, o.item);
        FullGrows(consumed, o.item, |r.records|, |Account(jq, r, o.item).records|, maxRecords);
        r := Account(jq, r, o.item);
        consumed := consumed + [o.item];
        assert before + consumed == handler.History();
        if o.item.Some? && |r.records| >= maxRecords {
          r := r.(remain := true);
          break;
        }
      }
      assert (before + consumed)[|before|..] == consumed;
    }

    /** The page that the loop of GetRecords collects, in terms of the items it consumed. */
    method Collect(maxRecords: nat, reliable: bool)
      returns (r: Response, lastId: nat, ghost interrupted: bool)
      requires handler.Valid() && handler.Ready() && clock !in handler.Repr()
      modifies handler.Repr(), clock
      ensures handler.Valid() && handler.Ready() && handler.Start() == old(handler.Start())
      ensures old(handler.History()) <= handler.History()
      ensures r.status == Success
      ensures clock.now >= old(clock.now)
      ensures r.count == 0 && !r.remain ==> clock.now >= old(clock.now) + maxWaitTimeSeconds
      ensures |r.records| <= (if maxRecords == 0 then 1 else maxRecords)
      ensures
        var consumed := handler.History()[|old(handler.History())|..];
        && Mirrors(jq, consumed, r) && Shows(jq, consumed, r)
        && lastId == (if consumed == [] then 0 else handler.LastId())
        && (r.remain <==> PageIsFull(consumed, |r.records|, maxRecords))
        && (!r.remain && !interrupted ==> handler.Exhausted())
      ensures interrupted ==> handler.MySql? && !reliable
    {
      hide *;
      ghost var before := handler.History();
      r, lastId, interrupted := TakePage(maxRecords, reliable);
      MirrorsShows(jq, handler.History()[|before|..], r);
    }

    /** One page. A busy iterator answers at once and changes nothing.
        An empty page without more to come is only sent when the wait time is over. */
    method GetRecords(maxRecords: nat, reliable: bool)
      returns (r: Response, ghost interrupted: bool)
      requires Valid()
      modifies this, clock, handler.Repr()
      ensures Valid() && busy == old(busy)
      ensures old(busy) ==>
        r.status == Busy && handler.History() == old(handler.History()) && clock.now == old(clock.now)
      ensures old(handler.History()) <= handler.History()
      ensures r.status != Success ==>
        sent == old(sent) && stats == old(stats) && lastRecordIdRead == old(lastRecordIdRead)
      ensures r.status == Success ==>
        var consumed := handler.History()[|old(handler.History())|..];
        && Mirrors(jq, consumed, r) && Shows(jq, consumed, r)
        && r.count + r.countSkipped + r.countErrors == |consumed|
        && r.count <= (if maxRecords == 0 then 1 else maxRecords)
        && (r.remain <==> PageIsFull(consumed, r.count, maxRecords))
        && (r.count == 0 && !r.remain ==> clock.now >= old(clock.now) + maxWaitTimeSeconds)
        && (!r.remain && !interrupted ==> handler.Exhausted())
        && r.lastRecordIdRead == lastRecordIdRead == (if consumed == [] then 0 else handler.LastId())
        && sent == old(sent) + r.records
        && stats == Stats(old(stats).recordsErrors + r.countErrors, old(stats).recordsSkipped + r.countSkipped,
                          old(stats).recordsSent + r.count)
      ensures interrupted ==> handler.MySql? && !reliable
      // the first call places the cursor, and a call succeeds as soon as it is placed
      ensures !old(busy) ==> (r.status == Success <==> handler.Ready())
      ensures old(handler.Ready()) ==> handler.Ready() && handler.Start() == old(handler.Start())
      ensures !old(busy) && !old(handler.Ready()) ==>
        exists ok: bool, at: nat ::
          old(handler.Places(request, ok, at)) && ok == handler.Ready() && (ok ==> at == handler.Start())
    {
      hide Handler.Valid, Handler.Saved, Handler.Ready, Handler.History, Handler.Start, Handler.Places;
      hide Handler.LastId, Handler.Left, Handler.Exhausted, Shows;
      if busy {
        return Response(Busy, 0, 0, 0, false, 0, []), false;
      }
      var placed := handler.Seek(request);
      if placed != FileReader.Placed {
        return Response(if placed == FileReader.Panicked then Panic else Error, 0, 0, 0, false, 0, []), false;
      }
      ghost var before := handler.History();
      assert sent == Sent(jq, before);
      var page: Response;
      var lastId: nat;
      page, lastId, interrupted := Collect(maxRecords, reliable);
      r := Finish(page, lastId, before);
      MirrorsShows(jq, handler.History()[|before|..], r);
    }

    /** The end of a successful call: statistics, the saved offset and the response. */
    method Finish(page: Response, lastId: nat, ghost before: seq<Item>) returns (r: Response)
      requires handler.Valid() && handler.Ready() && before <= handler.History() && page.status == Success
      requires this !in handler.Repr() && sent == Sent(jq, before)
      requires Mirrors(jq, handler.History()[|before|..], page)
      modifies this`lastRecordIdRead, this`stats, this`sent, handler.Repr()
      ensures Valid() && handler.History() == old(handler.History()) && handler.LastId() == old(handler.LastId())
      ensures handler.Ready() && handler.Start() == old(handler.Start())
      ensures r == page.(lastRecordIdRead := lastId) && lastRecordIdRead == lastId
      ensures page.count + page.countSkipped + page.countErrors == |handler.History()| - |before|
      ensures sent == old(sent) + page.records
      ensures stats == Stats(old(stats).recordsErrors + page.countErrors, old(stats).recordsSkipped + page.countSkipped,
                             old(stats).recordsSent + page.count)
      ensures old(handler.Exhausted()) ==> handler.Exhausted()
    {
      hide Handler.Valid, Handler.Saved, Handler.Ready, Handler.History, Handler.Start;
      hide Handler.LastId, Handler.Left, Handler.Exhausted;
      lastRecordIdRead := lastId;
      stats := Stats(stats.recordsErrors + page.countErrors, stats.recordsSkipped + page.countSkipped,
                     stats.recordsSent + page.count);
      ghost var all := handler.History();
      handler.SaveSeek();
      PageAccounts(jq, before, all, page);
      hide Sent, Mirrors;
      sent := sent + page.records;
      return page.(lastRecordIdRead := lastId);
    }

    /** Other goroutines append between two calls. */
    method Arrivals()
      requires Valid()
      modifies handler.Repr()
      ensures Valid() && handler.History() == old(handler.History())
    {
      hide Handler.Valid, Handler.Saved, Handler.Ready, Handler.History, Handler.LastId, Handler.Left;
      var unbounded: nat := *;
      var _ := handler.Arrive(unbounded);
    }

    /** What the pages of an iterator hold, as one scan of the store would give it: in memory the
        filtered records from the start to the cursor; from a file the filtered decodings of the
        first lines after the start, all of them when nothing is left; from MySQL the filtered
        first decodable rows from the start id on that no failed scan skipped, however far the
        read-ahead went. */
    ghost predicate PagesAre(pages: seq<Value>)
      requires handler.Valid()
      reads this, handler.Repr()
    {
      match handler
      case InMemory(m) =>
        pages == if m.nextReadRecordIndex <= |m.log.records|
                 then Sent(jq, Items(m.log.records[m.start..m.nextReadRecordIndex])) else []
      case JsonFile(f) =>
        if f.start <= |f.file.content| then
          var lines, read := Lines(f.file.content[f.start..]), |f.delivered|;
          && read <= |lines| && pages == Sent(jq, DecodedLines(f.codec, lines[..read]))
          && (handler.Left() == 0 ==> read == |lines|)
        else pages == []
      case MySql(q) =>
        var rows := MySqlRows.Without(MySqlRows.Window(q.table.rows, q.start, q.bufferNextId), q.skipped);
        var read := |q.delivered|;
        && read <= |rows| && pages == Sent(jq, MySqlRows.Payload(rows[..read]))
        && (q.Unread() == [] ==> read == |rows|)
    }

    lemma Pages()
      requires Valid()
      ensures PagesAre(sent)
    {
      match handler
      case InMemory(m) =>
      case JsonFile(f) =>
        if f.start <= |f.file.content| {
          f.StartsInside();
          f.Continuity();
          assert Lines(f.file.content[f.start..])[..|f.delivered|] == f.delivered;
          if handler.Left() == 0 {
            assert f.file.content[f.position - |f.buffered|..] == [];
          }
        }
      case MySql(q) =>
        assert (q.delivered + q.Unread())[..|q.delivered|] == q.delivered;
    }

    /** Page independence over any number of calls: whatever the page sizes are and whatever is
        appended during and between the calls, the successful responses concatenate to what one
        scan of the store gives. Calls that fail and are repeated add nothing. */
    method ReadPages(sizes: seq<nat>, reliable: bool) returns (pages: seq<Value>)
      requires Valid() && !busy && sent == []
      modifies this, clock, handler.Repr()
      ensures Valid() && pages == Sent(jq, handler.History()) && PagesAre(pages)
      ensures exists at: seq<nat> :: Picks(jq, handler.History(), at, pages)
    {
      hide Handler.Valid, Handler.Saved, Handler.Ready, Handler.History, Handler.LastId, Handler.Left;
      pages := [];
      for i := 0 to |sizes|
        invariant Valid() && !busy && sent == pages
      {
        Arrivals();
        var r, _ := GetRecords(sizes[i], reliable);
        pages := pages + if r.status == Success then r.records else [];
      }
      Arrivals();
      Pages();
      ghost var _ := SentPicks(jq, handler.History());
    }
  }
}
