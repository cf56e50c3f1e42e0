/** The JSON-lines writer with its meta info file, and the reload of a stream from them. */
module JsonFileStore {
  import opened Records
  import opened LineFile
  import opened IngestPipeline

  /** The part of types.StreamInfo that the meta info file keeps. */
  datatype MetaInfo = MetaInfo(ingested: Counters, readable: Counters, size: nat)

  const NEW_STREAM := MetaInfo(NO_MESSAGES, NO_MESSAGES, 0)

  /** The data file, the meta info file, and the readable part of the info in memory. */
  datatype Files = Files(content: Bytes, meta: MetaInfo, readable: Counters, size: nat)

  /** Where a write stops, if it does. A line is appended whole or not at all. */
  datatype Fate = Succeeds | MarshalFails(at: nat) | AppendFails(at: nat) | IndexFails(at: nat) | MetaFails

  /** How many lines of the batch reach the data file. */
  function Kept(fate: Fate, size: nat): (n: nat)
    ensures n <= size
  {
    match fate
    case MarshalFails(at) => if at < size then at else size
    case AppendFails(at) => if at < size then at else size
    case IndexFails(at) => if at < size then at + 1 else size
    case _ => size
  }

  predicate WriteOk(fate: Fate, size: nat) {
    match fate
    case Succeeds => true
    case MetaFails => size == 0
    case _ => fate.at >= size
  }

  /** The files after the first k lines of the batch, before the meta info is saved. */
  function Partly(c: Codec, st: Files, ingested: Counters, batch: seq<Message>, k: nat): Files
    requires batch != [] && k <= |batch|
  {
    var lines := Flat(Encoded(c, batch[..k]));
    st.(content := st.content + lines,
        readable := Absorb(OpenCounters(st.readable, ingested.firstId, batch), batch[..k]),
        size := st.size + |lines|)
  }

  function Append(c: Codec, st: Files, ingested: Counters, batch: seq<Message>, fate: Fate): Files {
    if batch == [] then st
    else
      var next := Partly(c, st, ingested, batch, Kept(fate, |batch|));
      if WriteOk(fate, |batch|) then next.(meta := MetaInfo(ingested, next.readable, next.size)) else next
  }

  lemma NoLines(c: Codec, st: Files, ingested: Counters, batch: seq<Message>)
    requires batch != []
    ensures Partly(c, st, ingested, batch, 0) == st.(readable := OpenCounters(st.readable, ingested.firstId, batch))
  {
    assert batch[..0] == [] && st.content + [] == st.content;
  }

  lemma OneMoreLine(c: Codec, st: Files, ingested: Counters, batch: seq<Message>, k: nat)
    requires k < |batch|
    ensures
      var line, now := c.encode(batch[k]) + [NL], Partly(c, st, ingested, batch, k);
      Partly(c, st, ingested, batch, k + 1) ==
        now.(content := now.content + line,
             readable := now.readable.(
               count := now.readable.count + 1, lastTime := batch[k].time, lastId := batch[k].id),
             size := now.size + |line|)
  {
    assert batch[..k + 1] == batch[..k] + [batch[k]];
    EncodedConcat(c, batch[..k], [batch[k]]);
    var one := Encoded(c, [batch[k]]);
    assert one == [c.encode(batch[k]) + [NL]];
    assert one[1..] == [] && Flat(one) == one[0] + Flat(one[1..]);
  }

  /** How many lines of a batch reach the data file before each kind of failure. */
  ghost predicate Reaches(fate: Fate, size: nat, k: nat) {
    match fate
    case Succeeds => k == size
    case MetaFails => k == size
    case MarshalFails(at) => k == if at <= size then at else size
    case AppendFails(at) => k == if at <= size then at else size
    case IndexFails(at) => k == if at < size then at + 1 else size
  }

  /** The counters after k messages of a non-empty batch. */
  ghost predicate Counts(was: Counters, ingestedFirstId: nat, batch: seq<Message>, k: nat, now: Counters)
    requires batch != [] && k <= |batch|
  {
    && now.count == was.count + k
    && now.firstId == (if was.count == 0 then ingestedFirstId else was.firstId)
    && now.firstTime == (if was.count == 0 then batch[0].time else was.firstTime)
    && now.lastId == (if k > 0 then batch[k - 1].id else if was.count == 0 then 0 else was.lastId)
    && now.lastTime == (if k > 0 then batch[k - 1].time else was.lastTime)
  }

  /** What a write of a non-empty batch leaves behind, spelled out. */
  ghost predicate Wrote(c: Codec, before: Files, ingested: Counters, batch: seq<Message>, fate: Fate,
                        after: Files, ok: bool)
    requires batch != []
  {
    && (ok <==> fate.Succeeds? || (!fate.MetaFails? && fate.at >= |batch|))
    && (exists k: nat | k <= |batch| ::
          && Reaches(fate, |batch|, k)
          && after.content == before.content + Flat(Encoded(c, batch[..k]))
          && Counts(before.readable, ingested.firstId, batch, k, after.readable))
    && after.size - before.size == |after.content| - |before.content|
    && after.meta == if ok then MetaInfo(ingested, after.readable, after.size) else before.meta
  }

  lemma AppendWrote(c: Codec, st: Files, ingested: Counters, batch: seq<Message>, fate: Fate)
    requires batch != []
    ensures Wrote(c, st, ingested, batch, fate, Append(c, st, ingested, batch, fate), WriteOk(fate, |batch|))
  {
    hide Flat, Encoded;
    var k := Kept(fate, |batch|);
    assert Reaches(fate, |batch|, k);
    assert Counts(st.readable, ingested.firstId, batch, k, Append(c, st, ingested, batch, fate).readable);
  }

  class StreamWriterFile {
    const codec: Codec
    var isOpen: bool
    var ingested: Counters
    var readable: Counters
    var size: nat
    var fileData: Bytes
    var fileMeta: MetaInfo

    constructor (codec: Codec, files: Files, ingested: Counters)
      ensures State() == files && this.ingested == ingested && this.codec == codec && !isOpen
    {
      this.codec, this.ingested, isOpen := codec, ingested, false;
      readable, size, fileData, fileMeta := files.readable, files.size, files.content, files.meta;
    }

    ghost function State(): Files
      reads this
    {
      Files(fileData, fileMeta, readable, size)
    }

    method Open() returns (ok: bool)
      modifies this`isOpen
      ensures ok <==> !old(isOpen)
      ensures isOpen
    {
      ok := !isOpen;
      isOpen := true;
    }

    method Close() returns (ok: bool)
      modifies this`isOpen
      ensures ok <==> old(isOpen)
      ensures !isOpen
    {
      ok := isOpen;
      isOpen := false;
    }

    /** Appends line by line. A failure leaves the lines already appended. */
    method Write(batch: seq<Message>, fate: Fate) returns (ok: bool)
      modifies this`readable, this`size, this`fileData, this`fileMeta
      ensures !isOpen ==> !ok && State() == old(State())
      ensures isOpen ==> (ok <==> WriteOk(fate, |batch|))
      ensures isOpen ==> State() == Append(codec, old(State()), ingested, batch, fate)
      ensures isOpen && batch == [] ==> ok && State() == old(State())
      ensures isOpen && batch != [] ==> Wrote(codec, old(State()), ingested, batch, fate, State(), ok)
    {
      if batch != [] {
        AppendWrote(codec, State(), ingested, batch, fate);
      }
      hide Wrote;
      if !isOpen {
        return false;
      }
      if |batch| == 0 {
        return true;
      }
      var appended := AppendLines(batch, fate);
      if !appended || fate.MetaFails? {
        return false;
      }
      fileMeta := MetaInfo(ingested, readable, size);
      return true;
    }

    /** The loop over the batch, with the counters updated line by line. */
    method AppendLines(batch: seq<Message>, fate: Fate) returns (ok: bool)
      requires batch != []
      modifies this`readable, this`size, this`fileData
      ensures ok <==> fate.MetaFails? || WriteOk(fate, |batch|)
      ensures State() == Partly(codec, old(State()), ingested, batch, Kept(fate, |batch|))
    {
      if readable.count == 0 {
        readable := readable.(firstId := ingested.firstId, lastId := 0, firstTime := batch[0].time);
      }
      ghost var before := old(State());
      NoLines(codec, before, ingested, batch);
      hide Partly, Encoded, Flat;
      for i := 0 to |batch|
        invariant i <= Kept(fate, |batch|)
        invariant !fate.Succeeds? && !fate.MetaFails? ==> i <= fate.at
        invariant State() == Partly(codec, before, ingested, batch, i)
      {
        if fate == MarshalFails(i) || fate == AppendFails(i) {
          return false;
        }
        var line := codec.encode(batch[i]) + [NL];
        OneMoreLine(codec, before, ingested, batch, i);
        fileData := fileData + line;
        readable := readable.(count := readable.count + 1, lastTime := batch[i].time, lastId := batch[i].id);
        size := size + |line|;
        if fate == IndexFails(i) {
          return false;
        }
      }
      return true;
    }
  }

  // ---------------------------------------------------------------- the machine

  /** The pipeline in front of the files. The last two fields are history: the messages that
      earlier sessions saved, and every message whose line was ever appended. */
  datatype FileNode = FileNode(codec: Codec, pipe: Pipe, files: Files, prior: seq<Message>, lines: seq<Message>)

  datatype FileEvent = Local(e: Event, fate: Fate) | Restart(clock: int)

  function NewNode(codec: Codec, cfg: Config, clock: int): FileNode {
    FileNode(codec, Fresh(cfg, NO_MESSAGES, clock), Files([], NEW_STREAM, NO_MESSAGES, 0), [], [])
  }

  predicate FileEnabled(n: FileNode, ev: FileEvent) {
    match ev
    case Restart(clock) => n.pipe.intake.clock <= clock
    case Local(e, fate) =>
      Enabled(n.pipe, e) && (Batch(n.pipe, e).Some? ==> e.saved == WriteOk(fate, |Batch(n.pipe, e).value|))
  }

  /** The messages whose lines a step appends to the data file. */
  function Appended(n: FileNode, ev: FileEvent): seq<Message> {
    if ev.Local? && Batch(n.pipe, ev.e).Some? then
      var batch := Batch(n.pipe, ev.e).value;
      batch[..Kept(ev.fate, |batch|)]
    else []
  }

  function FileApply(n: FileNode, ev: FileEvent): FileNode
    requires FileEnabled(n, ev)
  {
    match ev
    case Restart(clock) =>
      FileNode(n.codec, Fresh(n.pipe.cfg, n.files.meta.ingested, clock),
               n.files.(readable := n.files.meta.readable, size := n.files.meta.size),
               n.prior + n.pipe.flow.cleared, n.lines)
    case Local(e, fate) =>
      var batch := Batch(n.pipe, e);
      n.(pipe := Apply(n.pipe, e), lines := n.lines + Appended(n, ev),
         files := if batch.Some? then Append(n.codec, n.files, n.pipe.intake.ingested, batch.value, fate) else n.files)
  }

  /** Writes may stop anywhere, and restarts may cut the run between any two steps. */
  ghost predicate FileRuns(n: FileNode, evs: seq<FileEvent>)
    decreases |evs|
  {
    evs != [] ==> FileEnabled(n, evs[0]) && FileRuns(FileApply(n, evs[0]), evs[1..])
  }

  /** Every write of the run succeeds. */
  ghost predicate WritesSucceed(evs: seq<FileEvent>) {
    forall ev | ev in evs :: ev.Local? ==> ev.fate.Succeeds?
  }

  ghost function FileAfter(n: FileNode, evs: seq<FileEvent>): FileNode
    requires FileRuns(n, evs)
    decreases |evs|
  {
    if evs == [] then n else FileAfter(FileApply(n, evs[0]), evs[1..])
  }

  // ---------------------------------------------------------------- the invariant

  function Stored(n: FileNode): seq<Message> {
    n.prior + n.pipe.flow.cleared
  }

  /** The files agree with the stored messages. */
  ghost predicate Agree(c: Codec, files: Files, stored: seq<Message>) {
    && files.content == Flat(Encoded(c, stored))
    && Describes(files.readable, stored)
    && files.size == |files.content|
    && files.meta.readable == files.readable
    && files.meta.size == files.size
  }

  /** The saved ingested counters are never below a stored id. */
  ghost predicate Ahead(meta: MetaInfo, stored: seq<Message>) {
    && (meta.ingested.count == 0 <==> stored == [])
    && (stored != [] ==>
          && meta.ingested.firstId == 1 && stored[0].id == 1
          && stored[|stored| - 1].id <= meta.ingested.lastId)
  }

  /** Messages of earlier sessions come before all messages numbered in this one. */
  ghost predicate Chained(prior: seq<Message>, pipe: Pipe) {
    && IdsIncrease(prior + pipe.flow.numbered)
    && TimesOrdered(prior + pipe.flow.numbered)
    && (forall m | m in prior :: m.id <= Base(pipe.loaded) && m.time <= pipe.intake.clock)
    && (pipe.loaded.count == 0 <==> prior == [])
    && (pipe.loaded.count > 0 ==> pipe.loaded.firstId == 1)
  }

  ghost predicate FileInv(n: FileNode) {
    && Inv(n.pipe)
    && Agree(n.codec, n.files, Stored(n))
    && Ahead(n.files.meta, Stored(n))
    && Chained(n.prior, n.pipe)
  }

  lemma NextIsLast(p: seq<Message>, m: Message)
    requires IdsIncrease(p) && TimesOrdered(p)
    requires forall x | x in p :: x.id < m.id && x.time <= m.time
    ensures IdsIncrease(p + [m]) && TimesOrdered(p + [m])
  {
  }

  lemma IdsUpTo(numbered: seq<Message>, base: nat)
    requires NumberedFrom(numbered, base)
    ensures forall x | x in numbered :: base < x.id <= base + |numbered|
  {
  }

  lemma NumberChains(n: FileNode)
    requires FileInv(n) && Enabled(n.pipe, Number)
    ensures Chained(n.prior, Apply(n.pipe, Number))
  {
    var numbered, m := n.pipe.flow.numbered, NextMessage(n.pipe.intake);
    assert n.prior + (numbered + [m]) == (n.prior + numbered) + [m];
    IdsUpTo(numbered, Base(n.pipe.loaded));
    NextIsLast(n.prior + numbered, m);
  }

  lemma ChainKeeps(n: FileNode, e: Event)
    requires FileInv(n) && Enabled(n.pipe, e)
    ensures Chained(n.prior, Apply(n.pipe, e))
  {
    if e.Number? {
      NumberChains(n);
    }
  }

  /** A successful write of a batch that follows the stored messages. */
  lemma WriteAgrees(c: Codec, files: Files, ingested: Counters, stored: seq<Message>, batch: seq<Message>)
    requires Agree(c, files, stored) && Ahead(files.meta, stored) && batch != []
    requires ingested.firstId == 1 && ingested.count > 0 && batch[|batch| - 1].id <= ingested.lastId
    requires stored == [] ==> batch[0].id == 1
    ensures Agree(c, Append(c, files, ingested, batch, Succeeds), stored + batch)
    ensures Ahead(Append(c, files, ingested, batch, Succeeds).meta, stored + batch)
  {
    assert batch[..|batch|] == batch;
    EncodedConcat(c, stored, batch);
    AbsorbDescribes(files.readable, stored, ingested.firstId, batch, |batch|);
  }

  lemma BatchIsNext(n: FileNode, batch: seq<Message>)
    requires FileInv(n) && batch != [] && n.pipe.flow.cleared + batch <= n.pipe.flow.numbered
    ensures n.pipe.intake.ingested.firstId == 1 && n.pipe.intake.ingested.count > 0
    ensures batch[|batch| - 1].id <= n.pipe.intake.ingested.lastId
    ensures Stored(n) == [] ==> batch[0].id == 1
  {
    var f := n.pipe.flow;
    var all := f.cleared + batch;
    assert all[|f.cleared|] == batch[0] == f.numbered[|f.cleared|];
    assert all[|all| - 1] == batch[|batch| - 1] == f.numbered[|all| - 1];
    assert |f.numbered| >= |all| > 0;
  }

  lemma ThreeParts(a: seq<Message>, b: seq<Message>, c: seq<Message>)
    ensures a + (b + c) == (a + b) + c && b + [] == b
  {
  }

  lemma StoredGrows(n: FileNode, e: Event)
    requires Inv(n.pipe) && FileEnabled(n, Local(e, Succeeds))
    ensures
      var t := FileApply(n, Local(e, Succeeds));
      if Batch(n.pipe, e).Some? && Batch(n.pipe, e).value != [] then
        && Stored(t) == Stored(n) + Batch(n.pipe, e).value
        && t.files == Append(n.codec, n.files, n.pipe.intake.ingested, Batch(n.pipe, e).value, Succeeds)
        && n.pipe.flow.cleared + Batch(n.pipe, e).value <= n.pipe.flow.numbered
      else
        Stored(t) == Stored(n) && t.files == n.files
  {
    assert Append(n.codec, n.files, n.pipe.intake.ingested, [], Succeeds) == n.files;
    hide Append, Inv, Batch, Apply, Enabled;
    SaveStep(n.pipe, e);
    var batch := if Batch(n.pipe, e).Some? then Batch(n.pipe, e).value else [];
    ThreeParts(n.prior, n.pipe.flow.cleared, batch);
  }

  lemma FilesKeep(n: FileNode, e: Event)
    requires FileInv(n) && FileEnabled(n, Local(e, Succeeds))
    ensures
      var t := FileApply(n, Local(e, Succeeds));
      Agree(t.codec, t.files, Stored(t)) && Ahead(t.files.meta, Stored(t))
  {
    hide Inv, Chained, Append, Batch, Apply, Enabled;
    StoredGrows(n, e);
    if Batch(n.pipe, e).Some? && Batch(n.pipe, e).value != [] {
      BatchIsNext(n, Batch(n.pipe, e).value);
      hide Agree, Ahead, Stored;
      WriteAgrees(n.codec, n.files, n.pipe.intake.ingested, Stored(n), Batch(n.pipe, e).value);
    }
  }

  lemma LocalKeeps(n: FileNode, e: Event)
    requires FileInv(n) && FileEnabled(n, Local(e, Succeeds))
    ensures FileInv(FileApply(n, Local(e, Succeeds)))
  {
    StepKeeps(n.pipe, e);
    ChainKeeps(n, e);
    FilesKeep(n, e);
  }

  lemma PrefixOrdered(all: seq<Message>, part: seq<Message>)
    requires part <= all && IdsIncrease(all) && TimesOrdered(all)
    ensures IdsIncrease(part) && TimesOrdered(part)
    ensures forall m | m in part :: m in all && m.id <= part[|part| - 1].id
  {
    forall m | m in part
      ensures m in all && m.id <= part[|part| - 1].id
    {
      var k :| 0 <= k < |part| && part[k] == m;
      assert all[k] == m && (k == |part| - 1 || part[k].id < part[|part| - 1].id);
    }
  }

  lemma StoredOrdered(n: FileNode)
    requires FileInv(n)
    ensures IdsIncrease(Stored(n)) && TimesOrdered(Stored(n))
    ensures forall m | m in Stored(n) :: m.time <= n.pipe.intake.clock && m.id <= Stored(n)[|Stored(n)| - 1].id
  {
    assert n.pipe.flow.cleared <= n.pipe.flow.numbered;
    PrefixOrdered(n.prior + n.pipe.flow.numbered, Stored(n));
  }

  lemma FreshInv(cfg: Config, loaded: Counters, clock: int)
    ensures Inv(Fresh(cfg, loaded, clock))
  {
  }

  /** A reload continues above every stored id. */
  lemma RestartKeeps(n: FileNode, clock: int)
    requires FileInv(n) && FileEnabled(n, Restart(clock))
    ensures FileInv(FileApply(n, Restart(clock)))
  {
    StoredOrdered(n);
    hide Encoded, Flat, Conserved, Describes;
    var t := FileApply(n, Restart(clock));
    assert t.prior + [] == t.prior;
    FreshInv(n.pipe.cfg, n.files.meta.ingested, clock);
  }

  lemma NewInv(codec: Codec, cfg: Config, clock: int)
    ensures FileInv(NewNode(codec, cfg, clock)) && NewNode(codec, cfg, clock).codec == codec
  {
    FreshInv(cfg, NO_MESSAGES, clock);
    hide Inv;
  }

  lemma {:induction false} FileRunKeeps(n: FileNode, evs: seq<FileEvent>)
    requires FileInv(n) && FileRuns(n, evs) && WritesSucceed(evs)
    ensures FileInv(FileAfter(n, evs))
    ensures FileAfter(n, evs).codec == n.codec
    decreases |evs|
  {
    if evs != [] {
      match evs[0] {
        case Restart(clock) => RestartKeeps(n, clock);
        case Local(e, _) => LocalKeeps(n, e);
      }
      FileRunKeeps(FileApply(n, evs[0]), evs[1..]);
    }
  }

  // ---------------------------------------------------------------- results

  /** Over any run of successful writes cut by any number of stops, crashes between writes and
      reloads, the data file is the lines of messages with strictly increasing ids from 1 on
      and ordered times, and the readable counters and size describe exactly that file. */
  lemma StoredIdsIncrease(codec: Codec, cfg: Config, clock: int, evs: seq<FileEvent>)
    requires FileRuns(NewNode(codec, cfg, clock), evs) && WritesSucceed(evs)
    ensures
      var n := FileAfter(NewNode(codec, cfg, clock), evs);
      && n.files.content == Flat(Encoded(codec, Stored(n)))
      && IdsIncrease(Stored(n)) && TimesOrdered(Stored(n))
      && (Stored(n) != [] ==> Stored(n)[0].id == 1)
      && Describes(n.files.readable, Stored(n)) && n.files.size == |n.files.content|
  {
    NewInv(codec, cfg, clock);
    FileRunKeeps(NewNode(codec, cfg, clock), evs);
    StoredOrdered(FileAfter(NewNode(codec, cfg, clock), evs));
    hide FileRuns, FileAfter, NewNode, Stored, Encoded, Flat, IdsIncrease, TimesOrdered, Describes, Inv, Chained;
  }
}
