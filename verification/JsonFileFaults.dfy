/** The JSON-file store when writes stop midway and streams crash inside a write: what is on file
    in any case, and exactly when ids are repeated. */
module JsonFileFaults {
  import opened Records
  import opened LineFile
  import opened IngestPipeline
  import opened JsonFileStore

  /** The id of the message that the next batch starts with. */
  function NextId(n: FileNode): nat {
    Base(n.pipe.loaded) + |n.pipe.flow.cleared| + 1
  }

  function LastId(msgs: seq<Message>): nat {
    if msgs == [] then 0 else msgs[|msgs| - 1].id
  }

  ghost predicate OnFile(lines: seq<Message>, id: nat) {
    exists m :: m in lines && m.id == id
  }

  /** The next batch starts at or below the last line on file. */
  predicate Exposed(n: FileNode) {
    NextId(n) <= LastId(n.lines)
  }

  /** Every id from the given one up to that of the last line is on file. */
  ghost predicate TailOnFile(lines: seq<Message>, from: nat) {
    forall id: nat | from <= id <= LastId(lines) :: OnFile(lines, id)
  }

  /** Whatever fails: the file is the lines of whole messages, the meta info counts at least
      every saved message, and an id that will be repeated is on file. */
  ghost predicate LineInv(n: FileNode) {
    && Inv(n.pipe)
    && n.files.content == Flat(Encoded(n.codec, n.lines))
    && NextId(n) <= Base(n.files.meta.ingested) + 1
    && TailOnFile(n.lines, NextId(n))
  }

  lemma NumberedPart(cleared: seq<Message>, batch: seq<Message>, numbered: seq<Message>, base: nat)
    requires NumberedFrom(numbered, base) && cleared + batch <= numbered
    ensures NumberedFrom(batch, base + |cleared|)
  {
    var all := cleared + batch;
    forall k | 0 <= k < |batch|
      ensures batch[k].id == base + |cleared| + 1 + k
    {
      assert batch[k] == all[|cleared| + k] == numbered[|cleared| + k];
    }
  }

  lemma BatchFromNext(n: FileNode, e: Event)
    requires Inv(n.pipe) && Enabled(n.pipe, e) && Batch(n.pipe, e).Some?
    ensures
      var batch, t := Batch(n.pipe, e).value, Apply(n.pipe, e);
      && NumberedFrom(batch, NextId(n) - 1)
      && |t.flow.cleared| == |n.pipe.flow.cleared| + (if e.saved then |batch| else 0)
      && (batch != [] ==> NextId(n) + |batch| <= Base(n.pipe.intake.ingested) + 1)
  {
    SaveStep(n.pipe, e);
    hide Batch, Apply, Enabled, Conserved, Staged, NumberedFrom, TimesOrdered;
    var f, batch := n.pipe.flow, Batch(n.pipe, e).value;
    NumberedPart(f.cleared, batch, f.numbered, Base(n.pipe.loaded));
    assert |f.cleared + batch| <= |f.numbered|;
  }

  lemma AppendContent(c: Codec, st: Files, ingested: Counters, lines: seq<Message>, batch: seq<Message>, fate: Fate)
    requires st.content == Flat(Encoded(c, lines))
    ensures Append(c, st, ingested, batch, fate).content == Flat(Encoded(c, lines + batch[..Kept(fate, |batch|)]))
  {
    if batch == [] {
      assert lines + [] == lines;
    } else {
      EncodedConcat(c, lines, batch[..Kept(fate, |batch|)]);
    }
  }

  lemma AppendMeta(c: Codec, st: Files, ingested: Counters, batch: seq<Message>, fate: Fate)
    ensures Append(c, st, ingested, batch, fate).meta.ingested ==
            if batch != [] && WriteOk(fate, |batch|) then ingested else st.meta.ingested
    ensures WriteOk(fate, |batch|) ==> Kept(fate, |batch|) == |batch|
  {
  }

  lemma TailGrows(lines: seq<Message>, batch: seq<Message>, kept: nat, base: nat)
    requires NumberedFrom(batch, base) && kept <= |batch|
    requires kept == 0 ==> TailOnFile(lines, base + 1)
    ensures kept > 0 ==> LastId(lines + batch[..kept]) == base + kept
    ensures TailOnFile(lines + batch[..kept], base + 1)
  {
    var all := lines + batch[..kept];
    if kept == 0 {
      assert all == lines;
    } else {
      forall id: nat | base < id <= base + kept
        ensures OnFile(all, id)
      {
        assert all[|lines| + (id - base - 1)].id == id;
      }
    }
  }

  lemma TailShrinks(lines: seq<Message>, from: nat, to: nat)
    requires TailOnFile(lines, from) && from <= to
    ensures TailOnFile(lines, to)
  {
  }

  lemma WriteKeepsLines(n: FileNode, e: Event, fate: Fate)
    requires LineInv(n) && FileEnabled(n, Local(e, fate)) && Batch(n.pipe, e).Some?
    ensures LineInv(FileApply(n, Local(e, fate)))
  {
    var batch := Batch(n.pipe, e).value;
    StepKeeps(n.pipe, e);
    hide Inv, Encoded, Flat, Batch, Apply, Append, Enabled, Kept, WriteOk;
    BatchFromNext(n, e);
    AppendContent(n.codec, n.files, n.pipe.intake.ingested, n.lines, batch, fate);
    AppendMeta(n.codec, n.files, n.pipe.intake.ingested, batch, fate);
    TailGrows(n.lines, batch, Kept(fate, |batch|), NextId(n) - 1);
    hide NumberedFrom, TailOnFile, LastId;
    var t := FileApply(n, Local(e, fate));
    TailShrinks(t.lines, NextId(n), NextId(t));
  }

  lemma ReloadKeepsLines(n: FileNode, clock: int)
    requires LineInv(n) && FileEnabled(n, Restart(clock))
    ensures LineInv(FileApply(n, Restart(clock)))
  {
    FreshInv(n.pipe.cfg, n.files.meta.ingested, clock);
    hide Inv, Encoded, Flat, TailOnFile, LastId, Base;
    TailShrinks(n.lines, NextId(n), Base(n.files.meta.ingested) + 1);
  }

  lemma QuietKeepsLines(n: FileNode, e: Event, fate: Fate)
    requires LineInv(n) && FileEnabled(n, Local(e, fate)) && Batch(n.pipe, e).None?
    ensures LineInv(FileApply(n, Local(e, fate)))
  {
    StepKeeps(n.pipe, e);
    SaveStep(n.pipe, e);
    hide Inv, Encoded, Flat, TailOnFile, LastId, Base, Batch, Apply, Enabled;
    assert n.lines + [] == n.lines;
  }

  lemma LineStepKeeps(n: FileNode, ev: FileEvent)
    requires LineInv(n) && FileEnabled(n, ev)
    ensures LineInv(FileApply(n, ev))
  {
    hide LineInv, FileApply;
    match ev
    case Restart(clock) => ReloadKeepsLines(n, clock);
    case Local(e, fate) =>
      if Batch(n.pipe, e).Some? {
        WriteKeepsLines(n, e, fate);
      } else {
        QuietKeepsLines(n, e, fate);
      }
  }

  /** A step leaves the ids on file increasing unless it appends a line while exposed. */
  lemma OrderStep(n: FileNode, ev: FileEvent)
    requires LineInv(n) && FileEnabled(n, ev) && IdsIncrease(n.lines)
    ensures IdsIncrease(FileApply(n, ev).lines) <==> Appended(n, ev) == [] || !Exposed(n)
  {
    var more := Appended(n, ev);
    if more == [] {
      assert n.lines + more == n.lines;
    } else {
      BatchFromNext(n, ev.e);
      hide LineInv, Apply, Batch, Append;
      assert NumberedFrom(more, NextId(n) - 1);
      Follows(n.lines, more, NextId(n) - 1);
    }
  }

  lemma Follows(lines: seq<Message>, more: seq<Message>, base: nat)
    requires IdsIncrease(lines) && NumberedFrom(more, base) && more != []
    ensures IdsIncrease(lines + more) <==> LastId(lines) <= base
  {
    var all := lines + more;
    if LastId(lines) > base {
      assert all[|lines| - 1].id >= all[|lines|].id;
    }
  }

  /** The file becomes exposed exactly by a failed write that kept a line. */
  lemma ExposureBegins(n: FileNode, ev: FileEvent)
    requires LineInv(n) && FileEnabled(n, ev) && !Exposed(n)
    ensures Exposed(FileApply(n, ev)) <==> Appended(n, ev) != [] && !ev.e.saved
  {
    if ev.Local? {
      LocalExposure(n, ev.e, ev.fate);
    }
  }

  /** As long as nothing is written, exposure ends exactly with a reload whose saved ingested
      counters cover the last line. */
  lemma ExposureEnds(n: FileNode, ev: FileEvent)
    requires LineInv(n) && FileEnabled(n, ev) && Exposed(n) && Appended(n, ev) == []
    ensures !Exposed(FileApply(n, ev)) <==> ev.Restart? && LastId(n.lines) <= Base(n.files.meta.ingested)
  {
    if ev.Local? {
      LocalExposure(n, ev.e, ev.fate);
    }
  }

  lemma NextIdAfter(n: FileNode, e: Event, fate: Fate)
    requires Inv(n.pipe) && FileEnabled(n, Local(e, fate))
    ensures NextId(FileApply(n, Local(e, fate))) ==
            NextId(n) + if Appended(n, Local(e, fate)) != [] && e.saved then |Appended(n, Local(e, fate))| else 0
  {
    SaveStep(n.pipe, e);
    if Batch(n.pipe, e).Some? {
      BatchFromNext(n, e);
      AppendMeta(n.codec, n.files, n.pipe.intake.ingested, Batch(n.pipe, e).value, fate);
    }
    hide Inv, Encoded, Flat, Append, Batch, Apply, Enabled, Kept, WriteOk, NumberedFrom;
  }

  lemma LastIdAfter(n: FileNode, e: Event, fate: Fate)
    requires Inv(n.pipe) && FileEnabled(n, Local(e, fate))
    ensures LastId(FileApply(n, Local(e, fate)).lines) ==
            if Appended(n, Local(e, fate)) == [] then LastId(n.lines)
            else NextId(n) - 1 + |Appended(n, Local(e, fate))|
  {
    var more := Appended(n, Local(e, fate));
    if more != [] {
      BatchFromNext(n, e);
    }
    hide Inv, Encoded, Flat, Append, Batch, Apply, Enabled, Kept, WriteOk;
    assert more == [] ==> n.lines + more == n.lines;
  }

  lemma LocalExposure(n: FileNode, e: Event, fate: Fate)
    requires LineInv(n) && FileEnabled(n, Local(e, fate))
    ensures Exposed(FileApply(n, Local(e, fate))) <==>
      if Appended(n, Local(e, fate)) == [] then Exposed(n) else !e.saved
  {
    NextIdAfter(n, e, fate);
    LastIdAfter(n, e, fate);
    hide LineInv, FileApply, Appended, NextId, LastId;
  }

  /** Somewhere in the run a line is appended while the file is exposed. */
  ghost predicate WritesExposed(n: FileNode, evs: seq<FileEvent>)
    requires FileRuns(n, evs)
    decreases |evs|
  {
    evs != [] && ((Exposed(n) && Appended(n, evs[0]) != []) || WritesExposed(FileApply(n, evs[0]), evs[1..]))
  }

  lemma {:induction false} LinesGrow(n: FileNode, evs: seq<FileEvent>)
    requires FileRuns(n, evs)
    ensures n.lines <= FileAfter(n, evs).lines
    decreases |evs|
  {
    if evs != [] {
      LinesGrow(FileApply(n, evs[0]), evs[1..]);
    }
  }

  lemma {:induction false} LineRunKeeps(n: FileNode, evs: seq<FileEvent>)
    requires LineInv(n) && FileRuns(n, evs)
    ensures LineInv(FileAfter(n, evs)) && FileAfter(n, evs).codec == n.codec
    decreases |evs|
  {
    if evs != [] {
      LineStepKeeps(n, evs[0]);
      LineRunKeeps(FileApply(n, evs[0]), evs[1..]);
    }
  }

  lemma StaysUnordered(lines: seq<Message>, more: seq<Message>)
    requires lines <= more && !IdsIncrease(lines)
    ensures !IdsIncrease(more)
  {
    var i, j :| 0 <= i < j < |lines| && lines[i].id >= lines[j].id;
    assert more[i] == lines[i] && more[j] == lines[j];
  }

  lemma {:induction false} OrderRun(n: FileNode, evs: seq<FileEvent>)
    requires LineInv(n) && FileRuns(n, evs) && IdsIncrease(n.lines)
    ensures IdsIncrease(FileAfter(n, evs).lines) <==> !WritesExposed(n, evs)
    decreases |evs|
  {
    hide LineInv, FileApply, Exposed, Appended, IdsIncrease, FileEnabled;
    if evs != [] {
      var t := FileApply(n, evs[0]);
      OrderStep(n, evs[0]);
      if IdsIncrease(t.lines) {
        LineStepKeeps(n, evs[0]);
        OrderRun(t, evs[1..]);
      } else {
        LinesGrow(t, evs[1..]);
        StaysUnordered(t.lines, FileAfter(n, evs).lines);
      }
    }
  }

  lemma NewIsExact(codec: Codec, cfg: Config, clock: int)
    ensures LineInv(NewNode(codec, cfg, clock)) && IdsIncrease(NewNode(codec, cfg, clock).lines)
    ensures !Exposed(NewNode(codec, cfg, clock))
  {
  }

  /** A write that keeps a line and then fails. */
  predicate KeepsAndFails(n: FileNode, ev: FileEvent)
    requires FileEnabled(n, ev)
  {
    Appended(n, ev) != [] && !ev.e.saved
  }

  /** A reload whose saved ingested counters cover every line on file. */
  predicate Covers(n: FileNode, ev: FileEvent) {
    ev.Restart? && LastId(n.lines) <= Base(n.files.meta.ingested)
  }

  /** A line is appended before any covering reload. */
  ghost predicate NextLineComes(n: FileNode, evs: seq<FileEvent>)
    requires FileRuns(n, evs)
    decreases |evs|
  {
    evs != [] &&
    (Appended(n, evs[0]) != [] || (!Covers(n, evs[0]) && NextLineComes(FileApply(n, evs[0]), evs[1..])))
  }

  /** Somewhere a failed write keeps a line, and the next line comes before a covering reload. */
  ghost predicate LineAfterFailure(n: FileNode, evs: seq<FileEvent>)
    requires FileRuns(n, evs)
    decreases |evs|
  {
    evs != [] &&
    ((KeepsAndFails(n, evs[0]) && NextLineComes(FileApply(n, evs[0]), evs[1..]))
     || LineAfterFailure(FileApply(n, evs[0]), evs[1..]))
  }

  lemma ExposureStep(n: FileNode, ev: FileEvent)
    requires LineInv(n) && FileEnabled(n, ev)
    ensures Exposed(FileApply(n, ev)) <==>
      if Appended(n, ev) != [] then KeepsAndFails(n, ev) else Exposed(n) && !Covers(n, ev)
  {
    if Exposed(n) && Appended(n, ev) == [] {
      ExposureEnds(n, ev);
    } else if ev.Local? {
      LocalExposure(n, ev.e, ev.fate);
    } else {
      ExposureBegins(n, ev);
    }
  }

  lemma {:induction false} ExposedWrites(n: FileNode, evs: seq<FileEvent>)
    requires LineInv(n) && FileRuns(n, evs)
    ensures WritesExposed(n, evs) <==> (Exposed(n) && NextLineComes(n, evs)) || LineAfterFailure(n, evs)
    decreases |evs|
  {
    hide LineInv, FileApply, FileEnabled, Exposed, Appended, KeepsAndFails, Covers;
    if evs != [] {
      LineStepKeeps(n, evs[0]);
      ExposureStep(n, evs[0]);
      KeepsALine(n, evs[0]);
      ExposedWrites(FileApply(n, evs[0]), evs[1..]);
    }
  }

  lemma KeepsALine(n: FileNode, ev: FileEvent)
    requires FileEnabled(n, ev)
    ensures KeepsAndFails(n, ev) ==> Appended(n, ev) != []
  {
  }

  /** Over any run of writes that stop anywhere, crashes and reloads, the file is the lines of
      whole messages. Their ids increase, unless a write kept a line and failed and the next line
      came before a reload that covers it: exactly then they do not. */
  lemma IdsIncreaseExactly(codec: Codec, cfg: Config, clock: int, evs: seq<FileEvent>)
    requires FileRuns(NewNode(codec, cfg, clock), evs)
    ensures
      var n := FileAfter(NewNode(codec, cfg, clock), evs);
      && n.files.content == Flat(Encoded(codec, n.lines))
      && (IdsIncrease(n.lines) <==> !LineAfterFailure(NewNode(codec, cfg, clock), evs))
  {
    var n := NewNode(codec, cfg, clock);
    NewIsExact(codec, cfg, clock);
    LineRunKeeps(n, evs);
    assert n.codec == codec;
    ContentIs(FileAfter(n, evs));
    hide IdsIncrease, LineInv, FileRuns, Exposed, NewNode, Encoded, Flat;
    OrderRun(n, evs);
    ExposedWrites(n, evs);
  }

  lemma ContentIs(n: FileNode)
    requires LineInv(n)
    ensures n.files.content == Flat(Encoded(n.codec, n.lines))
  {
  }

  // ---------------------------------------------------------------- counters

  /** The readable counters never count more than the lines, and the saved ones no more than they. */
  ghost predicate CountInv(n: FileNode) {
    n.files.meta.readable.count <= n.files.readable.count <= |n.lines|
  }

  lemma AppendCounts(c: Codec, st: Files, ingested: Counters, batch: seq<Message>, fate: Fate)
    ensures
      var t := Append(c, st, ingested, batch, fate);
      && t.readable.count == st.readable.count + Kept(fate, |batch|)
      && t.meta.readable.count ==
           if batch != [] && WriteOk(fate, |batch|) then t.readable.count else st.meta.readable.count
  {
  }

  /** What a step does to the counts: a session counts every line it appends, a successful write
      saves the count, and a reload goes back to the saved one. */
  lemma CountStep(n: FileNode, ev: FileEvent)
    requires CountInv(n) && FileEnabled(n, ev)
    ensures
      var t, k := FileApply(n, ev), |Appended(n, ev)|;
      && CountInv(t) && |t.lines| == |n.lines| + k
      && (ev.Restart? ==> t.files.readable.count == t.files.meta.readable.count == n.files.meta.readable.count)
      && (ev.Local? ==> t.files.readable.count == n.files.readable.count + k)
      && (ev.Local? && k > 0 && ev.e.saved ==> t.files.meta.readable.count == t.files.readable.count)
      && (ev.Local? && !(k > 0 && ev.e.saved) ==> t.files.meta.readable.count == n.files.meta.readable.count)
  {
    if ev.Local? && Batch(n.pipe, ev.e).Some? {
      var batch := Batch(n.pipe, ev.e).value;
      AppendCounts(n.codec, n.files, n.pipe.intake.ingested, batch, ev.fate);
      AppendMeta(n.codec, n.files, n.pipe.intake.ingested, batch, ev.fate);
      hide Append, Batch, Apply, Enabled;
    }
  }

  /** A reload comes before any successful write of a line. */
  ghost predicate ReloadComes(n: FileNode, evs: seq<FileEvent>)
    requires FileRuns(n, evs)
    decreases |evs|
  {
    evs != [] &&
    (evs[0].Restart?
     || ((Appended(n, evs[0]) == [] || KeepsAndFails(n, evs[0])) && ReloadComes(FileApply(n, evs[0]), evs[1..])))
  }

  /** Somewhere a failed write keeps a line, and a reload comes before the next successful write. */
  ghost predicate ReloadAfterFailure(n: FileNode, evs: seq<FileEvent>)
    requires FileRuns(n, evs)
    decreases |evs|
  {
    evs != [] &&
    ((KeepsAndFails(n, evs[0]) && ReloadComes(FileApply(n, evs[0]), evs[1..]))
     || ReloadAfterFailure(FileApply(n, evs[0]), evs[1..]))
  }

  /** The readable counters have forgotten lines, or will by the next reload. */
  predicate Forgot(n: FileNode) {
    n.files.readable.count < |n.lines|
  }

  predicate WillForget(n: FileNode) {
    n.files.meta.readable.count < n.files.readable.count
  }

  lemma ForgetStep(n: FileNode, ev: FileEvent)
    requires CountInv(n) && FileEnabled(n, ev)
    ensures
      var t := FileApply(n, ev);
      && (Forgot(t) <==> Forgot(n) || (ev.Restart? && WillForget(n)))
      && (WillForget(t) <==>
            if ev.Restart? then false
            else if Appended(n, ev) != [] then KeepsAndFails(n, ev)
            else WillForget(n))
  {
    CountStep(n, ev);
    hide FileApply, FileEnabled, Appended;
  }

  lemma {:induction false} ForgetRun(n: FileNode, evs: seq<FileEvent>)
    requires CountInv(n) && FileRuns(n, evs)
    ensures Forgot(FileAfter(n, evs)) <==>
      Forgot(n) || (WillForget(n) && ReloadComes(n, evs)) || ReloadAfterFailure(n, evs)
    decreases |evs|
  {
    if evs != [] {
      CountStep(n, evs[0]);
      ForgetStep(n, evs[0]);
      KeepsALine(n, evs[0]);
      hide CountInv, FileApply, FileEnabled, Appended, KeepsAndFails, Forgot, WillForget;
      ForgetRun(FileApply(n, evs[0]), evs[1..]);
    }
  }

  /** Over any run, the readable counters count every line on file, retried ones twice, unless a
      write kept a line and failed and a reload came before the next successful write. */
  lemma EveryLineCounted(codec: Codec, cfg: Config, clock: int, evs: seq<FileEvent>)
    requires FileRuns(NewNode(codec, cfg, clock), evs)
    ensures
      var n := FileAfter(NewNode(codec, cfg, clock), evs);
      n.files.readable.count == |n.lines| <==> !ReloadAfterFailure(NewNode(codec, cfg, clock), evs)
  {
    var n := NewNode(codec, cfg, clock);
    CountRunKeeps(n, evs);
    ForgetRun(n, evs);
  }

  lemma {:induction false} CountRunKeeps(n: FileNode, evs: seq<FileEvent>)
    requires CountInv(n) && FileRuns(n, evs)
    ensures CountInv(FileAfter(n, evs))
    decreases |evs|
  {
    if evs != [] {
      CountStep(n, evs[0]);
      hide CountInv;
      CountRunKeeps(FileApply(n, evs[0]), evs[1..]);
    }
  }

  // ---------------------------------------------------------------- one retry, one crash

  /** A failed write keeps its lines and the whole batch is retried: the file then holds those
      lines twice, and its ids increase if and only if the failed write kept no line. */
  lemma RetryRepeatsLines(c: Codec, st: Files, first: Counters, second: Counters, stored: seq<Message>,
                          batch: seq<Message>, fate: Fate, retried: seq<Message>)
    requires batch != [] && !WriteOk(fate, |batch|) && batch <= retried && IdsIncrease(stored + retried)
    requires Agree(c, st, stored)
    ensures
      var kept := batch[..Kept(fate, |batch|)];
      && Append(c, Append(c, st, first, batch, fate), second, retried, Succeeds).content ==
         Flat(Encoded(c, stored + kept + retried))
      && (IdsIncrease(stored + kept + retried) <==> kept == [])
  {
    var kept := batch[..Kept(fate, |batch|)];
    AppendContent(c, st, first, stored, batch, fate);
    AppendContent(c, Append(c, st, first, batch, fate), second, stored + kept, retried, Succeeds);
    assert retried[..|retried|] == retried;
    hide Append, Encoded, Flat;
    var all := stored + kept + retried;
    if kept == [] {
      assert all == stored + retried;
    } else {
      assert all[|stored|] == kept[0] == retried[0] == all[|stored| + |kept|];
    }
  }

  lemma LargestId(lines: seq<Message>)
    requires IdsIncrease(lines)
    ensures forall m | m in lines :: m.id <= LastId(lines)
  {
    forall m | m in lines
      ensures m.id <= LastId(lines)
    {
      var k :| 0 <= k < |lines| && lines[k] == m;
      assert k == |lines| - 1 || lines[k].id < lines[|lines| - 1].id;
    }
  }

  /** A reload numbers on from the saved ingested counters. The first message then carries an id
      that is on file if and only if the last line on file is above the saved counter. */
  lemma ReloadReusesIds(n: FileNode, clock: int, es: seq<Event>)
    requires LineInv(n) && IdsIncrease(n.lines) && FileEnabled(n, Restart(clock))
    requires Runs(FileApply(n, Restart(clock)).pipe, es)
    ensures
      var t := FileApply(n, Restart(clock));
      var numbered := After(t.pipe, es).flow.numbered;
      && t.files.content == Flat(Encoded(n.codec, n.lines))
      && t.files.readable == n.files.meta.readable && t.files.size == n.files.meta.size
      && (forall k | 0 <= k < |numbered| ::
            var saved := n.files.meta.ingested;
            numbered[k].id == (if saved.count == 0 then 0 else saved.lastId) + 1 + k)
      && (numbered != [] ==> (OnFile(n.lines, numbered[0].id) <==> LastId(n.lines) > Base(n.files.meta.ingested)))
  {
    var t := FileApply(n, Restart(clock));
    LineStepKeeps(n, Restart(clock));
    RunKeeps(t.pipe, es);
    LargestId(n.lines);
    hide Encoded, Flat, IdsIncrease, Conserved, Counted, Staged;
  }

  lemma AfterPartialWrite(n: FileNode, e: Event, fate: Fate)
    requires LineInv(n) && !Exposed(n)
    requires FileEnabled(n, Local(e, fate)) && Batch(n.pipe, e).Some? && !e.saved
    ensures
      var t, kept := FileApply(n, Local(e, fate)), Appended(n, Local(e, fate));
      && t.files.meta.ingested == n.files.meta.ingested
      && t.lines == n.lines + kept
      && LastId(n.lines) <= Base(n.files.meta.ingested)
      && LastId(t.lines) == if kept == [] then LastId(n.lines) else kept[|kept| - 1].id
  {
    AppendMeta(n.codec, n.files, n.pipe.intake.ingested, Batch(n.pipe, e).value, fate);
    hide Append, Batch, Apply, Enabled, Inv, Encoded, Flat, TailOnFile;
  }

  /** A crash inside a write leaves lines that the meta info does not know. The first message
      that the reloaded stream numbers repeats a stored id if and only if the write kept a line
      and the last one is above the saved ingested counter. */
  lemma CrashInsideWriteReusesIds(n: FileNode, e: Event, fate: Fate, clock: int, es: seq<Event>)
    requires LineInv(n) && IdsIncrease(n.lines) && !Exposed(n)
    requires FileEnabled(n, Local(e, fate)) && Batch(n.pipe, e).Some? && !e.saved
    requires FileEnabled(FileApply(n, Local(e, fate)), Restart(clock))
    requires Runs(FileApply(FileApply(n, Local(e, fate)), Restart(clock)).pipe, es)
    requires After(FileApply(FileApply(n, Local(e, fate)), Restart(clock)).pipe, es).flow.numbered != []
    ensures
      var t := FileApply(n, Local(e, fate));
      var kept := Appended(n, Local(e, fate));
      OnFile(t.lines, After(FileApply(t, Restart(clock)).pipe, es).flow.numbered[0].id) <==>
        kept != [] && kept[|kept| - 1].id > Base(n.files.meta.ingested)
  {
    var t := FileApply(n, Local(e, fate));
    LineStepKeeps(n, Local(e, fate));
    OrderStep(n, Local(e, fate));
    AfterPartialWrite(n, e, fate);
    hide LineInv, IdsIncrease, Appended, OnFile, Runs, After, Exposed, FileApply, FileEnabled;
    ReloadReusesIds(t, clock, es);
  }

  /** Successful writes never expose the file. */
  lemma {:induction false} SuccessIsUnexposed(n: FileNode, evs: seq<FileEvent>)
    requires LineInv(n) && !Exposed(n) && FileRuns(n, evs) && WritesSucceed(evs)
    ensures LineInv(FileAfter(n, evs)) && !Exposed(FileAfter(n, evs))
    decreases |evs|
  {
    hide LineInv, Exposed;
    if evs != [] {
      LineStepKeeps(n, evs[0]);
      ExposureBegins(n, evs[0]);
      SuccessIsUnexposed(FileApply(n, evs[0]), evs[1..]);
    }
  }

  // ---------------------------------------------------------------- runs that repeat ids

  lemma {:induction false} RunsOn(n: FileNode, evs: seq<FileEvent>, more: seq<FileEvent>)
    requires FileRuns(n, evs) && FileRuns(FileAfter(n, evs), more)
    ensures FileRuns(n, evs + more) && FileAfter(n, evs + more) == FileAfter(FileAfter(n, evs), more)
    decreases |evs|
  {
    hide FileApply, FileEnabled;
    if evs == [] {
      assert evs + more == more;
    } else {
      assert (evs + more)[1..] == evs[1..] + more;
      RunsOn(FileApply(n, evs[0]), evs[1..], more);
    }
  }

  lemma OneMoreStep(n: FileNode, evs: seq<FileEvent>, ev: FileEvent)
    requires FileRuns(n, evs) && FileEnabled(FileAfter(n, evs), ev)
    ensures FileRuns(n, evs + [ev]) && FileAfter(n, evs + [ev]) == FileApply(FileAfter(n, evs), ev)
  {
    hide FileApply, FileEnabled;
    var t := FileAfter(n, evs);
    assert [ev][1..] == [];
    assert FileRuns(t, [ev]) && FileAfter(t, [ev]) == FileApply(t, ev);
    RunsOn(n, evs, [ev]);
  }

  /** Pipeline steps that save nothing do not touch the files. */
  lemma {:induction false} SilentRun(n: FileNode, es: seq<Event>) returns (evs: seq<FileEvent>)
    requires Runs(n.pipe, es) && forall e | e in es :: !e.Receive? && !e.Flush? && !e.Stop?
    ensures FileRuns(n, evs) && FileAfter(n, evs) == n.(pipe := After(n.pipe, es))
    decreases |es|
  {
    if es == [] {
      evs := [];
    } else {
      var ev := Local(es[0], Succeeds);
      assert n.lines + [] == n.lines;
      assert FileApply(n, ev) == n.(pipe := Apply(n.pipe, es[0]));
      var rest := SilentRun(FileApply(n, ev), es[1..]);
      evs := [ev] + rest;
      assert evs[1..] == rest;
    }
  }

  /** A stream that runs and has not taken a message yet. */
  predicate JustStarted(s: Pipe) {
    && s.control == Control(Running, false, false, false)
    && s.intake.lock.Free? && s.intake.admitted == []
    && s.flow.pending.None? && s.flow.channel == [] && s.flow.buffer == [] && s.flow.cleared == []
  }

  /** What one write of the one message on its way leaves behind. */
  ghost predicate WroteOne(n: FileNode, t: FileNode, failed: bool) {
    var f := t.pipe.flow;
    && |f.cleared + f.buffer| == 1 && t.lines == n.lines + (f.cleared + f.buffer)
    && t.pipe.loaded == n.pipe.loaded && t.codec == n.codec && t.pipe.cfg == n.pipe.cfg
    && t.pipe.control.phase == Running && !t.pipe.control.closing && !t.pipe.control.exited
    && (failed ==> f.cleared == [] && t.files.meta == n.files.meta)
  }

  lemma ReceiveAndWrite(n: FileNode, fate: Fate) returns (evs: seq<FileEvent>)
    requires n.pipe.control == Control(Running, false, false, false) && |n.pipe.flow.channel| == 1
    requires n.pipe.flow.buffer == [] && n.pipe.flow.cleared == [] && (fate == Succeeds || fate == IndexFails(0))
    ensures FileRuns(n, evs) && WroteOne(n, FileAfter(n, evs), fate != Succeeds)
  {
    var saved := fate == Succeeds;
    assert TakeMessage(n.pipe.cfg, n.pipe.flow).buffer == n.pipe.flow.channel;
    evs := [Local(Receive(saved), fate)];
    OneMoreStep(n, [], Local(Receive(saved), fate));
    hide FileRuns;
    if !SavesNow(n.pipe.cfg, n.pipe.flow.channel) {
      assert n.lines + [] == n.lines;
      OneMoreStep(n, evs, Local(Flush(saved), fate));
      evs := evs + [Local(Flush(saved), fate)];
    }
  }

  /** A run that puts one message and writes its line, after which the write fails or not. */
  lemma OneWrite(n: FileNode, fate: Fate) returns (evs: seq<FileEvent>)
    requires JustStarted(n.pipe) && n.pipe.cfg.channelSize > 0 && (fate == Succeeds || fate == IndexFails(0))
    ensures FileRuns(n, evs) && WroteOne(n, FileAfter(n, evs), fate != Succeeds)
  {
    var es := ProducerRun(n.pipe, "a");
    var silent := SilentRun(n, es);
    hide FileRuns, FileAfter, Runs, After;
    var more := ReceiveAndWrite(FileAfter(n, silent), fate);
    RunsOn(n, silent, more);
    evs := silent + more;
  }

  /** The first write of a new stream keeps its line and then fails. */
  lemma FirstWriteFails(codec: Codec, cfg: Config, clock: int) returns (evs: seq<FileEvent>)
    requires cfg.channelSize > 0
    ensures FileRuns(NewNode(codec, cfg, clock), evs)
    ensures
      var t := FileAfter(NewNode(codec, cfg, clock), evs);
      && |t.lines| == 1 && t.lines[0].id == 1 && t.lines == t.pipe.flow.buffer
      && t.files.meta == NEW_STREAM && t.pipe.cfg == cfg
      && t.pipe.control.phase == Running && !t.pipe.control.closing && !t.pipe.control.exited
  {
    var n := NewNode(codec, cfg, clock);
    NewIsExact(codec, cfg, clock);
    OneMoreStep(n, [], Local(Start, Succeeds));
    hide LineInv;
    var t := FileAfter(n, [Local(Start, Succeeds)]);
    var more := OneWrite(t, IndexFails(0));
    evs := [Local(Start, Succeeds)] + more;
    RunsOn(n, [Local(Start, Succeeds)], more);
    FirstIdIs(n, evs);
  }

  lemma FirstIdIs(n: FileNode, evs: seq<FileEvent>)
    requires LineInv(n) && FileRuns(n, evs)
    ensures
      var t := FileAfter(n, evs);
      var saving := t.pipe.flow.cleared + t.pipe.flow.buffer;
      saving != [] ==> saving[0].id == Base(t.pipe.loaded) + 1
  {
    LineRunKeeps(n, evs);
    var f := FileAfter(n, evs).pipe.flow;
    hide LineInv, Counted, Staged;
    assert f.cleared + f.buffer <= f.numbered;
  }

  /** For every configuration of a buffered channel, a retried write can repeat an id on file. */
  lemma RetryCanRepeat(codec: Codec, cfg: Config, clock: int)
    requires cfg.channelSize > 0
    ensures exists evs: seq<FileEvent> ::
      && FileRuns(NewNode(codec, cfg, clock), evs)
      && var lines := FileAfter(NewNode(codec, cfg, clock), evs).lines;
         |lines| == 2 && lines[0] == lines[1]
  {
    var n := NewNode(codec, cfg, clock);
    var evs := FirstWriteFails(codec, cfg, clock);
    hide FileRuns, FileAfter, NewNode;
    OneMoreStep(n, evs, Local(RequestClose, Succeeds));
    var fs := evs + [Local(RequestClose, Succeeds)];
    OneMoreStep(n, fs, Local(Stop(true), Succeeds));
    var gs := fs + [Local(Stop(true), Succeeds)];
    assert FileRuns(n, gs);
  }

  /** And a crash after a partial write can make the reloaded stream write the same id again. */
  lemma CrashCanReuse(codec: Codec, cfg: Config, clock: int)
    requires cfg.channelSize > 0
    ensures exists evs: seq<FileEvent> ::
      && FileRuns(NewNode(codec, cfg, clock), evs)
      && var lines := FileAfter(NewNode(codec, cfg, clock), evs).lines;
         |lines| == 2 && lines[0].id == lines[1].id
  {
    var n := NewNode(codec, cfg, clock);
    NewIsExact(codec, cfg, clock);
    hide FileRuns, FileAfter, LineInv;
    var evs := FirstWriteFails(codec, cfg, clock);
    var t := FileAfter(n, evs);
    var crash := Restart(t.pipe.intake.clock);
    OneMoreStep(n, evs, crash);
    OneMoreStep(n, evs + [crash], Local(Start, Succeeds));
    var fs := evs + [crash] + [Local(Start, Succeeds)];
    assert FileAfter(n, fs).lines == t.lines + [];
    var more := OneWrite(FileAfter(n, fs), Succeeds);
    hide FileApply, FileEnabled;
    RunsOn(n, fs, more);
    FirstIdIs(n, fs + more);
    assert FileRuns(n, fs + more);
  }
}
