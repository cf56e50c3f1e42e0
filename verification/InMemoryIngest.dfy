/** The ingest pipeline in front of the in-memory writer: the machine over its steps, what
    every run of it keeps, and the stream object whose methods take those steps. */
module InMemoryIngest {
  import opened Records
  import opened IngestPipeline

  /** What consumers can read, with its running counters. */
  datatype Store = Store(records: seq<Message>, readable: Counters)

  /** How many of the wanted records fit under the cap. Zero means no cap. */
  function Room(cap: nat, have: nat, want: nat): (n: nat)
    ensures n <= want
  {
    if cap == 0 || have + want <= cap then want else if have >= cap then 0 else cap - have
  }

  predicate Accepts(cap: nat, st: Store, batch: seq<Message>) {
    Room(cap, |st.records|, |batch|) == |batch|
  }

  /** Write stores as much of the batch as fits and does not undo it when the rest fails. */
  function Write(cap: nat, ingestedFirstId: nat, st: Store, batch: seq<Message>): Store {
    if batch == [] then st
    else
      var taken := batch[..Room(cap, |st.records|, |batch|)];
      Store(st.records + taken, Absorb(OpenCounters(st.readable, ingestedFirstId, batch), taken))
  }

  /** The next record fits as long as there is room. */
  lemma RoomIs(cap: nat, have: nat, want: nat, i: nat)
    requires i < want
    ensures i < Room(cap, have, want) <==> cap == 0 || have + i < cap
  {
  }

  lemma WriteIs(cap: nat, firstId: nat, st: Store, batch: seq<Message>)
    ensures batch == [] ==> Write(cap, firstId, st, batch) == st && Accepts(cap, st, batch)
    ensures batch != [] ==>
      var taken := batch[..Room(cap, |st.records|, |batch|)];
      && Write(cap, firstId, st, batch) ==
         Store(st.records + taken, Absorb(OpenCounters(st.readable, firstId, batch), taken))
      && (Accepts(cap, st, batch) <==> Room(cap, |st.records|, |batch|) == |batch|)
  {
  }

  /** What a write does: it stores the longest prefix of the batch that the cap admits, counts
      exactly the records it stored, and succeeds when the whole batch fits. */
  ghost predicate Took(cap: nat, firstId: nat, before: Store, batch: seq<Message>, after: Store, ok: bool) {
    var had, has, was, now := |before.records|, |after.records|, before.readable, after.readable;
    && (ok <==> batch == [] || cap == 0 || had + |batch| <= cap)
    && before.records <= after.records && after.records <= before.records + batch
    && has == (if ok then had + |batch| else if had >= cap then had else cap)
    && now.count == was.count + (has - had)
    && (has > had ==> now.lastId == after.records[has - 1].id && now.lastTime == after.records[has - 1].time)
    && (has == had ==> now.lastTime == was.lastTime)
    && (if batch != [] && was.count == 0 then
          now.firstId == firstId && now.firstTime == batch[0].time && (has == had ==> now.lastId == 0)
        else
          now.firstId == was.firstId && now.firstTime == was.firstTime && (has == had ==> now.lastId == was.lastId))
  }

  lemma WriteTook(cap: nat, firstId: nat, st: Store, batch: seq<Message>)
    ensures Took(cap, firstId, st, batch, Write(cap, firstId, st, batch), Accepts(cap, st, batch))
    ensures Accepts(cap, st, batch) <==> batch == [] || cap == 0 || |st.records| + |batch| <= cap
  {
  }

  datatype Node = Node(cap: nat, pipe: Pipe, store: Store)

  function FreshNode(cfg: Config, cap: nat, clock: int): Node {
    Node(cap, Fresh(cfg, NO_MESSAGES, clock), Store([], NO_MESSAGES))
  }

  /** A step whose save succeeds exactly when the writer accepts the whole batch. */
  predicate NodeEnabled(n: Node, e: Event) {
    && Enabled(n.pipe, e)
    && (Batch(n.pipe, e).Some? ==> (e.saved <==> Accepts(n.cap, n.store, Batch(n.pipe, e).value)))
  }

  function NodeApply(n: Node, e: Event): Node
    requires NodeEnabled(n, e)
  {
    var batch := Batch(n.pipe, e);
    Node(n.cap, Apply(n.pipe, e),
         if batch.Some? then Write(n.cap, n.pipe.intake.ingested.firstId, n.store, batch.value) else n.store)
  }

  /** The receive step spelled out. */
  lemma Receives(n: Node, saved: bool)
    requires n.pipe.control.phase != Idle && !n.pipe.control.exited && CanReceive(n.pipe.cfg, n.pipe.flow)
    ensures
      var taken, e := TakeMessage(n.pipe.cfg, n.pipe.flow), Receive(saved);
      var control := ControlStep(n.pipe.cfg, n.pipe.control, e);
      if SavesNow(n.pipe.cfg, taken.buffer) then
        && (NodeEnabled(n, e) <==> saved == Accepts(n.cap, n.store, taken.buffer))
        && (NodeEnabled(n, e) ==>
              NodeApply(n, e) == Node(n.cap, n.pipe.(control := control, flow := AfterSave(taken, saved)),
                                      Write(n.cap, n.pipe.intake.ingested.firstId, n.store, taken.buffer)))
      else
        NodeEnabled(n, e) && NodeApply(n, e) == Node(n.cap, n.pipe.(control := control, flow := taken), n.store)
  {
  }

  ghost predicate NodeRuns(n: Node, es: seq<Event>)
    decreases |es|
  {
    es != [] ==> NodeEnabled(n, es[0]) && NodeRuns(NodeApply(n, es[0]), es[1..])
  }

  ghost function NodeAfter(n: Node, es: seq<Event>): Node
    requires NodeRuns(n, es)
    decreases |es|
  {
    if es == [] then n else NodeAfter(NodeApply(n, es[0]), es[1..])
  }

  /** The records are the cleared messages, or the cap is reached inside the buffered batch. */
  ghost predicate Aligned(cap: nat, cleared: seq<Message>, buffer: seq<Message>, records: seq<Message>) {
    records == cleared
    || (cap > 0 && |records| == cap && cleared <= records && records <= cleared + buffer)
  }

  ghost predicate NodeInv(n: Node) {
    && Inv(n.pipe)
    && n.pipe.loaded == NO_MESSAGES
    && (n.cap > 0 ==> |n.store.records| <= n.cap)
    && Describes(n.store.readable, n.store.records)
    && Aligned(n.cap, n.pipe.flow.cleared, n.pipe.flow.buffer, n.store.records)
  }

  /** Writing the batch behind the cleared messages, first try or retry, stays aligned. */
  lemma WriteAligned(cap: nat, first: nat, st: Store, cleared: seq<Message>, buffer: seq<Message>, batch: seq<Message>)
    requires Aligned(cap, cleared, buffer, st.records) && buffer <= batch
    requires cap > 0 ==> |st.records| <= cap
    ensures
      var st' := Write(cap, first, st, batch);
      && (cap > 0 ==> |st'.records| <= cap)
      && if Accepts(cap, st, batch) then st'.records == cleared + batch
         else Aligned(cap, cleared, batch, st'.records)
  {
    if st.records == cleared {
      assert cleared + batch[..|batch|] == cleared + batch;
    } else if batch != [] {
      assert Room(cap, |st.records|, |batch|) == 0;
      assert st.records + batch[..0] == st.records;
      assert cleared + buffer <= cleared + batch;
    }
  }

  lemma WriteDescribes(cap: nat, first: nat, st: Store, batch: seq<Message>)
    requires Describes(st.readable, st.records)
    requires batch != [] && st.records == [] ==> batch[0].id == first
    ensures Describes(Write(cap, first, st, batch).readable, Write(cap, first, st, batch).records)
  {
    if batch != [] {
      AbsorbDescribes(st.readable, st.records, first, batch, Room(cap, |st.records|, |batch|));
    }
  }

  /** The first batch ever written starts with the first id ever ingested. */
  lemma FirstBatch(n: Node, e: Event)
    requires NodeInv(n) && NodeEnabled(n, e)
    requires Batch(n.pipe, e).Some? && Batch(n.pipe, e).value != [] && n.store.records == []
    ensures Batch(n.pipe, e).value[0].id == n.pipe.intake.ingested.firstId
  {
    SaveStep(n.pipe, e);
    var batch, f := Batch(n.pipe, e).value, n.pipe.flow;
    assert f.cleared == [];
    assert f.cleared + batch == batch;
    assert f.numbered[0] == batch[0];
  }

  lemma StoreKeeps(n: Node, e: Event)
    requires NodeInv(n) && NodeEnabled(n, e) && Batch(n.pipe, e).Some?
    ensures
      var batch := Batch(n.pipe, e).value;
      var st := Write(n.cap, n.pipe.intake.ingested.firstId, n.store, batch);
      && (n.cap > 0 ==> |st.records| <= n.cap)
      && Describes(st.readable, st.records)
      && if e.saved then st.records == n.pipe.flow.cleared + batch
         else Aligned(n.cap, n.pipe.flow.cleared, batch, st.records)
  {
    var batch, first := Batch(n.pipe, e).value, n.pipe.intake.ingested.firstId;
    WriteAligned(n.cap, first, n.store, n.pipe.flow.cleared, n.pipe.flow.buffer, batch);
    if batch != [] && n.store.records == [] {
      FirstBatch(n, e);
    }
    WriteDescribes(n.cap, first, n.store, batch);
  }

  lemma NodeStepKeeps(n: Node, e: Event)
    requires NodeInv(n) && NodeEnabled(n, e)
    ensures NodeInv(NodeApply(n, e))
  {
    StepKeeps(n.pipe, e);
    SaveStep(n.pipe, e);
    if Batch(n.pipe, e).Some? {
      StoreKeeps(n, e);
    } else {
      assert n.pipe.flow.cleared + n.pipe.flow.buffer <= n.pipe.flow.cleared + Apply(n.pipe, e).flow.buffer;
    }
  }

  /** Whether every save of the run succeeds. */
  ghost predicate AllTaken(n: Node, es: seq<Event>)
    requires NodeRuns(n, es)
    decreases |es|
  {
    es != [] ==> (Batch(n.pipe, es[0]).Some? ==> es[0].saved) && AllTaken(NodeApply(n, es[0]), es[1..])
  }

  lemma {:induction false} UncappedTakesAll(n: Node, es: seq<Event>)
    requires n.cap == 0 && NodeRuns(n, es)
    ensures AllTaken(n, es) && NodeAfter(n, es).cap == 0
    decreases |es|
  {
    if es != [] {
      if Batch(n.pipe, es[0]).Some? {
        WriteTook(n.cap, n.pipe.intake.ingested.firstId, n.store, Batch(n.pipe, es[0]).value);
      }
      UncappedTakesAll(NodeApply(n, es[0]), es[1..]);
    }
  }

  /** Without a cap every save succeeds, and the readable records are all messages ever saved. */
  lemma UncappedStoresAll(cfg: Config, clock: int, es: seq<Event>)
    requires NodeRuns(FreshNode(cfg, 0, clock), es)
    ensures AllTaken(FreshNode(cfg, 0, clock), es)
    ensures
      var n := NodeAfter(FreshNode(cfg, 0, clock), es);
      n.store.records == n.pipe.flow.cleared
  {
    UncappedTakesAll(FreshNode(cfg, 0, clock), es);
    NodeRunKeeps(FreshNode(cfg, 0, clock), es);
  }

  /** With a cap, a save fails exactly when the batch does not fit, and then the log is full. */
  lemma FailedSaveMeansFull(n: Node, e: Event)
    requires NodeInv(n) && NodeEnabled(n, e) && Batch(n.pipe, e).Some?
    ensures !e.saved <==> n.cap > 0 && |n.store.records| + |Batch(n.pipe, e).value| > n.cap
    ensures !e.saved ==> |NodeApply(n, e).store.records| == n.cap
  {
    WriteTook(n.cap, n.pipe.intake.ingested.firstId, n.store, Batch(n.pipe, e).value);
  }

  lemma NumbersNext(n: Node)
    requires NodeInv(n) && NodeEnabled(n, Number)
    ensures NextMessage(n.pipe.intake).id == |n.pipe.flow.numbered| + 1
  {
  }

  lemma {:induction false} NodeRunKeeps(n: Node, es: seq<Event>)
    requires NodeInv(n) && NodeRuns(n, es)
    ensures NodeInv(NodeAfter(n, es))
    decreases |es|
  {
    if es != [] {
      NodeStepKeeps(n, es[0]);
      NodeRunKeeps(NodeApply(n, es[0]), es[1..]);
    }
  }

  /** What consumers read: a prefix of the ingested messages, with exact counters. */
  ghost predicate ReadsPrefix(n: Node) {
    && n.store.records <= n.pipe.flow.numbered
    && NumberedFrom(n.store.records, 0)
    && TimesOrdered(n.store.records)
    && Describes(n.store.readable, n.store.records)
    && (n.cap > 0 ==> |n.store.records| <= n.cap)
  }

  lemma InvReadsPrefix(n: Node)
    requires NodeInv(n)
    ensures ReadsPrefix(n)
  {
    var f := n.pipe.flow;
    assert f.cleared + f.buffer <= f.numbered;
    assert n.store.records <= f.cleared + f.buffer;
    forall k | 0 <= k < |n.store.records|
      ensures n.store.records[k] == f.numbered[k]
    {
    }
  }

  /** Over every interleaving, any cap and any number of failed and retried saves, consumers
      read a prefix of the ingested messages with the ids 1..n, never one of them twice, and
      the readable counters describe exactly that prefix. */
  lemma ReadableIsAPrefix(cfg: Config, cap: nat, clock: int, es: seq<Event>)
    requires NodeRuns(FreshNode(cfg, cap, clock), es)
    ensures ReadsPrefix(NodeAfter(FreshNode(cfg, cap, clock), es))
  {
    NodeRunKeeps(FreshNode(cfg, cap, clock), es);
    InvReadsPrefix(NodeAfter(FreshNode(cfg, cap, clock), es));
  }

  lemma {:induction false} NodeRunsOneMore(n: Node, es: seq<Event>, e: Event)
    requires NodeRuns(n, es) && NodeEnabled(NodeAfter(n, es), e)
    ensures NodeRuns(n, es + [e]) && NodeAfter(n, es + [e]) == NodeApply(NodeAfter(n, es), e)
    decreases |es|
  {
    hide NodeApply, NodeEnabled;
    if es == [] {
      assert es + [e] == [e] && [e][1..] == [];
    } else {
      assert (es + [e])[1..] == es[1..] + [e];
      NodeRunsOneMore(NodeApply(n, es[0]), es[1..], e);
    }
  }

  lemma {:induction false} NodeRunsUpTo(n: Node, es: seq<Event>, i: nat)
    requires NodeRuns(n, es) && i < |es|
    ensures NodeRuns(n, es[..i]) && NodeEnabled(NodeAfter(n, es[..i]), es[i])
    ensures NodeRuns(n, es[..i + 1]) && NodeAfter(n, es[..i + 1]) == NodeApply(NodeAfter(n, es[..i]), es[i])
    decreases |es|
  {
    hide NodeApply, NodeEnabled;
    if i > 0 {
      NodeRunsUpTo(NodeApply(n, es[0]), es[1..], i - 1);
      assert es[1..][..i - 1] == es[..i][1..] && es[1..][..i] == es[..i + 1][1..];
    } else {
      assert es[..1][1..] == [];
    }
  }
}
