/** The ingest pipeline of one stream as a machine over its atomic steps.

    Producers pass the state check, take the numbering lock, number one message
    at a time and block on a bounded channel. The Run loop picks any ready case
    of its select. Whether a save succeeds is decided by the storage writer, so
    here it is an input of the step. */
module IngestPipeline {
  import opened Records

  datatype Config = Config(flushFrequency: int, bulkMaxSize: int, channelSize: nat)

  datatype Phase = Idle | Running | Stopping

  /** Stream.state together with the local state of Run. */
  datatype Control = Control(
    phase: Phase,
    closing: bool,       // the done channel is closed
    exited: bool,        // Run has returned
    timerArmed: bool)    // flushC is not nil

  /** The owner of the numbering lock and what is left of its batch. */
  datatype Lock = Free | Held(now: int, rest: seq<string>)

  datatype Intake = Intake(
    clock: int,
    admitted: seq<seq<string>>,   // calls past the state check, waiting for the lock
    lock: Lock,
    ingested: Counters)

  /** Where the messages of the session are. The first and the last field are history. */
  datatype Flow = Flow(
    numbered: seq<Message>,       // every message numbered so far
    pending: Option<Message>,     // numbered, its sender blocked on the channel
    channel: seq<Message>,
    buffer: seq<Message>,
    cleared: seq<Message>)        // every message saved and dropped from the buffer

  datatype Pipe = Pipe(cfg: Config, loaded: Counters, control: Control, intake: Intake, flow: Flow)

  datatype Event =
    | Start
    | Admit(batch: seq<string>)
    | Acquire(call: nat, now: int)
    | Number
    | Send
    | Release
    | Receive(saved: bool)
    | Flush(saved: bool)
    | RequestClose
    | Stop(saved: bool)
    | Closed

  /** A stream object built over the counters that the catalog loaded. */
  function Fresh(cfg: Config, loaded: Counters, clock: int): Pipe {
    Pipe(cfg, loaded, Control(Idle, false, false, false), Intake(clock, [], Free, loaded),
         Flow([], None, [], [], []))
  }

  /** The id before the first one handed out: a stream that never ingested restarts at 1. */
  function Base(loaded: Counters): nat {
    if loaded.count == 0 then 0 else loaded.lastId
  }

  predicate Immediate(cfg: Config) {
    cfg.flushFrequency <= 0
  }

  /** A message is ready for Run. An unbuffered channel takes it from the blocked sender. */
  predicate CanReceive(cfg: Config, f: Flow) {
    f.channel != [] || (cfg.channelSize == 0 && f.pending.Some?)
  }

  function TakeMessage(cfg: Config, f: Flow): Flow
    requires CanReceive(cfg, f)
  {
    if f.channel != [] then f.(channel := f.channel[1..], buffer := f.buffer + [f.channel[0]])
    else f.(pending := None, buffer := f.buffer + [f.pending.value])
  }

  function AfterSave(f: Flow, saved: bool): Flow {
    if saved then f.(cleared := f.cleared + f.buffer, buffer := []) else f
  }

  /** bufferizeMessage saves at once in immediate mode and when the buffer is full. */
  predicate SavesNow(cfg: Config, buffer: seq<Message>) {
    Immediate(cfg) || |buffer| >= cfg.bulkMaxSize
  }

  /** The buffer that a step hands to the writer, if the step saves at all. */
  function Batch(s: Pipe, e: Event): Option<seq<Message>> {
    match e
    case Receive(_) =>
      if CanReceive(s.cfg, s.flow) && SavesNow(s.cfg, TakeMessage(s.cfg, s.flow).buffer)
      then Some(TakeMessage(s.cfg, s.flow).buffer)
      else None
    case Flush(_) => Some(s.flow.buffer)
    case Stop(_) => Some(s.flow.buffer)
    case _ => None
  }

  predicate Enabled(s: Pipe, e: Event) {
    match e
    case Start => s.control.phase == Idle && !s.control.closing
    case Admit(batch) => s.control.phase == Running && batch != []
    case Acquire(call, now) => s.intake.lock.Free? && call < |s.intake.admitted| && s.intake.clock <= now
    case Number => s.intake.lock.Held? && s.intake.lock.rest != [] && s.flow.pending.None?
    case Send => s.flow.pending.Some? && |s.flow.channel| < s.cfg.channelSize
    case Release => s.intake.lock.Held? && s.intake.lock.rest == [] && s.flow.pending.None?
    case Receive(_) => s.control.phase != Idle && !s.control.exited && CanReceive(s.cfg, s.flow)
    // saving an empty buffer never fails
    case Flush(saved) => s.control.timerArmed && !s.control.exited && (s.flow.buffer == [] ==> saved)
    case RequestClose => s.control.phase == Running && !s.control.closing
    case Stop(saved) => s.control.closing && !s.control.exited && (s.flow.buffer == [] ==> saved)
    case Closed => s.control.phase == Stopping && s.control.exited
  }

  function FirstEver(c: Counters, now: int): Counters {
    if c.count == 0 then c.(firstId := 1, lastId := 0, firstTime := now) else c
  }

  function NextIngested(i: Intake): Counters
    requires i.lock.Held?
  {
    i.ingested.(count := i.ingested.count + 1, lastId := i.ingested.lastId + 1, lastTime := i.lock.now)
  }

  function NextMessage(i: Intake): Message
    requires i.lock.Held? && i.lock.rest != []
  {
    Message(NextIngested(i).lastId, i.lock.now, i.lock.rest[0])
  }

  function IntakeStep(i: Intake, e: Event): Intake
    requires e.Acquire? ==> e.call < |i.admitted|
    requires e.Number? ==> i.lock.Held? && i.lock.rest != []
  {
    match e
    case Admit(batch) => i.(admitted := i.admitted + [batch])
    case Acquire(call, now) =>
      Intake(now, i.admitted[..call] + i.admitted[call + 1..], Held(now, i.admitted[call]), FirstEver(i.ingested, now))
    case Number => i.(ingested := NextIngested(i), lock := Held(i.lock.now, i.lock.rest[1..]))
    case Release => i.(lock := Free)
    case _ => i
  }

  function FlowStep(s: Pipe, e: Event): Flow
    requires Enabled(s, e)
  {
    var f := s.flow;
    match e
    case Number => f.(pending := Some(NextMessage(s.intake)), numbered := f.numbered + [NextMessage(s.intake)])
    case Send => f.(channel := f.channel + [f.pending.value], pending := None)
    case Receive(saved) =>
      if Batch(s, e).Some? then AfterSave(TakeMessage(s.cfg, f), saved) else TakeMessage(s.cfg, f)
    case Flush(saved) => AfterSave(f, saved)
    case Stop(saved) => AfterSave(f, saved)
    case _ => f
  }

  function ControlStep(cfg: Config, c: Control, e: Event): Control {
    match e
    case Start => c.(phase := Running)
    case Receive(_) => c.(timerArmed := c.timerArmed || !Immediate(cfg))
    case Flush(_) => c.(timerArmed := false)
    case RequestClose => c.(phase := Stopping, closing := true)
    case Stop(_) => c.(timerArmed := false, exited := true)
    case Closed => c.(phase := Idle)
    case _ => c
  }

  function Apply(s: Pipe, e: Event): Pipe
    requires Enabled(s, e)
  {
    s.(control := ControlStep(s.cfg, s.control, e), intake := IntakeStep(s.intake, e), flow := FlowStep(s, e))
  }

  lemma LoadedStays(s: Pipe, e: Event)
    requires Enabled(s, e)
    ensures Apply(s, e).loaded == s.loaded && Apply(s, e).cfg == s.cfg
  {
  }

  ghost predicate Runs(s: Pipe, es: seq<Event>)
    decreases |es|
  {
    es != [] ==> Enabled(s, es[0]) && Runs(Apply(s, es[0]), es[1..])
  }

  ghost function After(s: Pipe, es: seq<Event>): Pipe
    requires Runs(s, es)
    decreases |es|
  {
    if es == [] then s else After(Apply(s, es[0]), es[1..])
  }

  // ---------------------------------------------------------------- conservation

  function Blocked(f: Flow): seq<Message> {
    if f.pending.Some? then [f.pending.value] else []
  }

  /** Nothing is lost, repeated or reordered between the numbering lock and the writer. */
  ghost predicate Conserved(f: Flow) {
    f.numbered == f.cleared + f.buffer + f.channel + Blocked(f)
  }

  /** The session numbers its messages from the loaded id on, in clock order. */
  ghost predicate InOrder(numbered: seq<Message>, base: nat, clock: int) {
    && NumberedFrom(numbered, base)
    && TimesOrdered(numbered)
    && forall m | m in numbered :: m.time <= clock
  }

  /** The ingested counters follow the messages numbered so far. */
  ghost predicate Counted(i: Intake, loaded: Counters, numbered: seq<Message>) {
    && i.ingested.count == loaded.count + |numbered|
    && (i.lock.Held? ==> i.lock.now == i.clock)
    && (i.lock.Held? || i.ingested.count > 0 ==>
          && i.ingested.firstId == (if loaded.count == 0 then 1 else loaded.firstId)
          && i.ingested.lastId == Base(loaded) + |numbered|)
    && (numbered != [] ==> i.ingested.lastTime == numbered[|numbered| - 1].time)
    && (numbered != [] && loaded.count == 0 ==> i.ingested.firstTime == numbered[0].time)
    && (i.lock.Held? && numbered == [] && loaded.count == 0 ==> i.ingested.firstTime == i.lock.now)
  }

  /** Run works between Start and Stop only. */
  ghost predicate Staged(c: Control, f: Flow) {
    && (c.exited ==> c.closing && !c.timerArmed)
    && (c.phase == Stopping ==> c.closing)
    && (c.phase == Running ==> !c.closing)
    && (c.phase == Idle && !c.exited ==> !c.closing && !c.timerArmed && f.buffer == [] && f.cleared == [])
  }

  ghost predicate Inv(s: Pipe) {
    && Conserved(s.flow)
    && InOrder(s.flow.numbered, Base(s.loaded), s.intake.clock)
    && Counted(s.intake, s.loaded, s.flow.numbered)
    && Staged(s.control, s.flow)
  }

  /** Moving the head of one queue to the tail of the queue before it changes no order. */
  lemma MoveHead<T>(done: seq<T>, front: seq<T>, back: seq<T>, rest: seq<T>)
    requires back != []
    ensures done + (front + [back[0]]) + back[1..] + rest == done + front + back + rest
  {
    assert [back[0]] + back[1..] == back;
  }

  lemma TakeConserves(cfg: Config, f: Flow)
    requires Conserved(f) && CanReceive(cfg, f)
    ensures Conserved(TakeMessage(cfg, f))
  {
    if f.channel != [] {
      MoveHead(f.cleared, f.buffer, f.channel, Blocked(f));
    } else {
      assert f.cleared + (f.buffer + Blocked(f)) + [] + [] == f.cleared + f.buffer + [] + Blocked(f);
    }
  }

  lemma SaveConserves(f: Flow, saved: bool)
    requires Conserved(f)
    ensures Conserved(AfterSave(f, saved))
  {
    assert f.cleared + f.buffer + [] == f.cleared + f.buffer;
  }

  lemma FlowConserves(s: Pipe, e: Event)
    requires Conserved(s.flow) && Enabled(s, e)
    ensures Conserved(FlowStep(s, e))
  {
    var f := s.flow;
    match e
    case Number => assert f.numbered == f.cleared + f.buffer + f.channel;
    case Send =>
      assert f.cleared + f.buffer + (f.channel + Blocked(f)) + [] == f.cleared + f.buffer + f.channel + Blocked(f);
    case Receive(saved) =>
      TakeConserves(s.cfg, f);
      SaveConserves(TakeMessage(s.cfg, f), saved);
    case Flush(saved) => SaveConserves(f, saved);
    case Stop(saved) => SaveConserves(f, saved);
    case _ =>
  }

  lemma OrderKeeps(s: Pipe, e: Event)
    requires InOrder(s.flow.numbered, Base(s.loaded), s.intake.clock) && Enabled(s, e)
    requires Counted(s.intake, s.loaded, s.flow.numbered)
    ensures InOrder(FlowStep(s, e).numbered, Base(s.loaded), IntakeStep(s.intake, e).clock)
  {
  }

  lemma CountKeeps(s: Pipe, e: Event)
    requires Counted(s.intake, s.loaded, s.flow.numbered) && Enabled(s, e)
    ensures Counted(IntakeStep(s.intake, e), s.loaded, FlowStep(s, e).numbered)
  {
  }

  lemma StageKeeps(s: Pipe, e: Event)
    requires Staged(s.control, s.flow) && Enabled(s, e)
    ensures Staged(ControlStep(s.cfg, s.control, e), FlowStep(s, e))
  {
  }

  lemma StepKeeps(s: Pipe, e: Event)
    requires Inv(s) && Enabled(s, e)
    ensures Inv(Apply(s, e))
  {
    FlowConserves(s, e);
    OrderKeeps(s, e);
    CountKeeps(s, e);
    StageKeeps(s, e);
    hide Conserved, Counted, InOrder, Staged, Enabled, FlowStep, IntakeStep, ControlStep;
  }

  /** Every interleaving of producers, Run, failed saves and shutdown keeps the invariant. */
  lemma {:induction false} RunKeeps(s: Pipe, es: seq<Event>)
    requires Inv(s) && Runs(s, es)
    ensures Inv(After(s, es))
    ensures After(s, es).cfg == s.cfg && After(s, es).loaded == s.loaded
    decreases |es|
  {
    if es != [] {
      StepKeeps(s, es[0]);
      RunKeeps(Apply(s, es[0]), es[1..]);
    }
  }

  /** The batch of a step is the buffer, with a message that the step received. */
  lemma BatchFlow(s: Pipe, e: Event)
    requires Conserved(s.flow) && Enabled(s, e)
    ensures Batch(s, e).Some? ==>
      var batch := Batch(s, e).value;
      && s.flow.buffer <= batch
      && s.flow.cleared + batch <= s.flow.numbered
      && FlowStep(s, e).cleared == s.flow.cleared + (if e.saved then batch else [])
      && FlowStep(s, e).buffer == (if e.saved then [] else batch)
    ensures Batch(s, e).None? ==>
      && FlowStep(s, e).cleared == s.flow.cleared
      && s.flow.buffer <= FlowStep(s, e).buffer
  {
    assert s.flow.cleared + [] == s.flow.cleared;
    if e.Receive? {
      TakeConserves(s.cfg, s.flow);
      TakenFollows(s.cfg, s.flow);
      hide TakeMessage, Conserved;
    }
  }

  lemma TakenFollows(cfg: Config, f: Flow)
    requires CanReceive(cfg, f) && Conserved(TakeMessage(cfg, f))
    ensures f.buffer <= TakeMessage(cfg, f).buffer
    ensures TakeMessage(cfg, f).cleared == f.cleared
    ensures f.cleared + TakeMessage(cfg, f).buffer <= f.numbered
  {
  }

  /** What the storage writers rely on: a step hands the writer exactly the messages that
      follow the cleared ones, and a successful save moves all of them at once. */
  lemma SaveStep(s: Pipe, e: Event)
    requires Inv(s) && Enabled(s, e)
    ensures Batch(s, e).Some? ==>
      var batch := Batch(s, e).value;
      && s.flow.buffer <= batch
      && s.flow.cleared + batch <= s.flow.numbered
      && Apply(s, e).flow.cleared == s.flow.cleared + (if e.saved then batch else [])
      && Apply(s, e).flow.buffer == (if e.saved then [] else batch)
    ensures Batch(s, e).None? ==>
      && Apply(s, e).flow.cleared == s.flow.cleared
      && s.flow.buffer <= Apply(s, e).flow.buffer
  {
    BatchFlow(s, e);
    hide Counted, InOrder, Staged, Enabled, Batch, FlowStep;
  }

  /** Conservation over whole runs: what was numbered is, in id order, what was saved, then
      the buffer, then the channel, then the blocked sender. The ingested counters of a new
      stream describe exactly that sequence. */
  lemma Conservation(cfg: Config, loaded: Counters, clock: int, es: seq<Event>)
    requires Runs(Fresh(cfg, loaded, clock), es)
    ensures
      var s := After(Fresh(cfg, loaded, clock), es);
      && s.flow.numbered == s.flow.cleared + s.flow.buffer + s.flow.channel + Blocked(s.flow)
      && NumberedFrom(s.flow.numbered, if loaded.count == 0 then 0 else loaded.lastId)
      && TimesOrdered(s.flow.numbered)
      && (loaded.count == 0 ==> Describes(s.intake.ingested, s.flow.numbered))
  {
    RunKeeps(Fresh(cfg, loaded, clock), es);
  }

  /** The channel never holds more than its capacity. */
  lemma {:induction false} ChannelStaysBounded(s: Pipe, es: seq<Event>)
    requires Runs(s, es) && |s.flow.channel| <= s.cfg.channelSize
    ensures |After(s, es).flow.channel| <= After(s, es).cfg.channelSize == s.cfg.channelSize
    decreases |es|
  {
    if es != [] {
      ChannelStaysBounded(Apply(s, es[0]), es[1..]);
    }
  }

  // ---------------------------------------------------------------- batches

  /** The messages of one PutMessages call: consecutive ids and one common timestamp. */
  function Stamped(bodies: seq<string>, firstId: nat, now: int): seq<Message> {
    seq(|bodies|, i requires 0 <= i < |bodies| => Message(firstId + i, now, bodies[i]))
  }

  ghost predicate Released(es: seq<Event>) {
    Release in es
  }

  lemma StampedCons(bodies: seq<string>, k: nat, firstId: nat, now: int)
    requires bodies != [] && k < |bodies|
    ensures bodies[1..][k..] == bodies[k + 1..]
    ensures [Message(firstId, now, bodies[0])] + Stamped(bodies[1..][..k], firstId + 1, now)
         == Stamped(bodies[..k + 1], firstId, now)
  {
    var left := [Message(firstId, now, bodies[0])] + Stamped(bodies[1..][..k], firstId + 1, now);
    var right := Stamped(bodies[..k + 1], firstId, now);
    assert |left| == |right|;
    assert forall i | 0 <= i < |left| :: left[i] == right[i];
  }

  lemma HolderStep(s: Pipe, e: Event)
    requires Enabled(s, e) && s.intake.lock.Held? && !e.Release?
    ensures
      var t, held := Apply(s, e), s.intake.lock;
      if e.Number? then
        && held.rest != [] && t.intake.lock == Held(held.now, held.rest[1..])
        && t.intake.ingested.lastId == s.intake.ingested.lastId + 1
        && t.flow.numbered == s.flow.numbered + [Message(s.intake.ingested.lastId + 1, held.now, held.rest[0])]
      else
        && t.intake.lock == held && t.intake.ingested.lastId == s.intake.ingested.lastId
        && t.flow.numbered == s.flow.numbered
  {
  }

  /** While one call holds the lock, only its own messages are numbered. */
  lemma {:induction false} HolderProgress(s: Pipe, es: seq<Event>) returns (k: nat)
    requires Runs(s, es) && s.intake.lock.Held? && !Released(es)
    ensures k <= |s.intake.lock.rest|
    ensures After(s, es).intake.lock == Held(s.intake.lock.now, s.intake.lock.rest[k..])
    ensures After(s, es).flow.numbered ==
            s.flow.numbered + Stamped(s.intake.lock.rest[..k], s.intake.ingested.lastId + 1, s.intake.lock.now)
    decreases |es|
  {
    if es == [] {
      k := 0;
    } else {
      var t := Apply(s, es[0]);
      HolderStep(s, es[0]);
      assert es == [es[0]] + es[1..];
      assert Runs(t, es[1..]) && After(s, es) == After(t, es[1..]) && !Released(es[1..]);
      hide Apply, Enabled, Stamped, Runs, After, Released;
      k := HolderProgress(t, es[1..]);
      if es[0].Number? {
        StampedCons(s.intake.lock.rest, k, s.intake.ingested.lastId + 1, s.intake.lock.now);
        k := k + 1;
      }
    }
  }

  lemma HolderFinishes(s: Pipe, es: seq<Event>)
    requires Runs(s, es) && s.intake.lock.Held? && !Released(es) && Enabled(After(s, es), Release)
    ensures After(s, es).flow.numbered ==
            s.flow.numbered + Stamped(s.intake.lock.rest, s.intake.ingested.lastId + 1, s.intake.lock.now)
  {
    var k := HolderProgress(s, es);
    assert s.intake.lock.rest[..k] == s.intake.lock.rest;
  }

  /** However Run and other producers interleave with it, a call that takes the lock and
      releases it has numbered exactly its own batch, in order, without a gap. */
  lemma BatchIsContiguous(s: Pipe, call: nat, now: int, es: seq<Event>)
    requires Enabled(s, Acquire(call, now))
    requires Runs(Apply(s, Acquire(call, now)), es) && !Released(es)
    requires Enabled(After(Apply(s, Acquire(call, now)), es), Release)
    ensures After(Apply(s, Acquire(call, now)), es).flow.numbered ==
            s.flow.numbered + Stamped(s.intake.admitted[call], FirstEver(s.intake.ingested, now).lastId + 1, now)
  {
    HolderFinishes(Apply(s, Acquire(call, now)), es);
  }

  // ---------------------------------------------------------------- shutdown

  /** Once Run has returned, nothing leaves the channel any more. */
  lemma {:induction false} ExitIsFinal(s: Pipe, es: seq<Event>)
    requires Runs(s, es) && s.control.exited && s.control.closing
    ensures After(s, es).control.exited
    ensures After(s, es).flow.cleared == s.flow.cleared && After(s, es).flow.buffer == s.flow.buffer
    ensures s.flow.channel <= After(s, es).flow.channel
    decreases |es|
  {
    if es != [] {
      ExitIsFinal(Apply(s, es[0]), es[1..]);
    }
  }

  lemma {:induction false} SavedStopEmptiesBuffer(s: Pipe, es: seq<Event>)
    requires Inv(s) && Runs(s, es) && Stop(true) in es
    ensures After(s, es).control.exited && After(s, es).flow.buffer == []
    decreases |es|
  {
    StepKeeps(s, es[0]);
    if es[0] == Stop(true) {
      ExitIsFinal(Apply(s, es[0]), es[1..]);
    } else {
      SavedStopEmptiesBuffer(Apply(s, es[0]), es[1..]);
    }
  }

  lemma Suffix<T>(done: seq<T>, rest: seq<T>, last: seq<T>)
    ensures done + [] + rest + last == done + (rest + last)
    ensures done + (rest + last) == done <==> rest == [] && last == []
  {
    assert |done + (rest + last)| == |done| + |rest| + |last|;
    if rest == [] && last == [] {
      assert done + (rest + last) == done;
    }
  }

  /** After a stop whose last save succeeded, the accepted messages that never reached the
      writer are exactly those in the channel and the one whose sender is blocked. */
  lemma StopLeavesTheChannel(cfg: Config, loaded: Counters, clock: int, es: seq<Event>)
    requires Runs(Fresh(cfg, loaded, clock), es) && Stop(true) in es
    ensures
      var f := After(Fresh(cfg, loaded, clock), es).flow;
      && f.numbered == f.cleared + (f.channel + Blocked(f))
      && (f.numbered == f.cleared <==> f.channel == [] && f.pending.None?)
  {
    var s := Fresh(cfg, loaded, clock);
    RunKeeps(s, es);
    SavedStopEmptiesBuffer(s, es);
    var f := After(s, es).flow;
    Suffix(f.cleared, f.channel, Blocked(f));
  }

  lemma {:induction false} RunsOneMore(s: Pipe, es: seq<Event>, e: Event)
    requires Runs(s, es) && Enabled(After(s, es), e)
    ensures Runs(s, es + [e]) && After(s, es + [e]) == Apply(After(s, es), e)
    decreases |es|
  {
    if es == [] {
      assert es + [e] == [e];
    } else {
      assert (es + [e])[1..] == es[1..] + [e];
      RunsOneMore(Apply(s, es[0]), es[1..], e);
    }
  }

  lemma ProducerRun(s: Pipe, body: string)
    returns (es: seq<Event>)
    requires s.control.phase == Running && !s.control.closing && !s.control.exited
    requires s.intake.lock.Free? && s.intake.admitted == [] && s.flow.pending.None?
    requires |s.flow.channel| < s.cfg.channelSize
    ensures Runs(s, es) && forall e | e in es :: !e.Receive? && !e.Flush? && !e.Stop?
    ensures AllSaved(es) && After(s, es).control == s.control && |After(s, es).flow.channel| == |s.flow.channel| + 1
    ensures After(s, es).flow.buffer == s.flow.buffer && After(s, es).flow.cleared == s.flow.cleared
    ensures After(s, es).cfg == s.cfg && After(s, es).loaded == s.loaded
  {
    var now := s.intake.clock;
    es := [Admit([body])];
    assert es[1..] == [];
    assert After(s, es) == Apply(s, Admit([body]));
    RunsOneMore(s, es, Acquire(0, now));
    es := es + [Acquire(0, now)];
    RunsOneMore(s, es, Number);
    es := es + [Number];
    RunsOneMore(s, es, Send);
    es := es + [Send];
  }

  /** A run up to one message in the channel. */
  lemma OneMessageRun(cfg: Config, clock: int) returns (es: seq<Event>)
    requires cfg.channelSize > 0
    ensures Runs(Fresh(cfg, NO_MESSAGES, clock), es) && forall e | e in es :: !e.Receive? && !e.Flush? && !e.Stop?
    ensures
      var s := After(Fresh(cfg, NO_MESSAGES, clock), es);
      && s.control == Control(Running, false, false, false) && s.cfg == cfg
      && |s.flow.channel| == 1 && s.flow.buffer == []
  {
    var s := Apply(Fresh(cfg, NO_MESSAGES, clock), Start);
    var more := ProducerRun(s, "a");
    hide Runs, After;
    es := [Start] + more;
    assert es[1..] == more;
    StartThen(Fresh(cfg, NO_MESSAGES, clock), es);
  }

  lemma StartThen(s: Pipe, es: seq<Event>)
    requires es != [] && es[0] == Start && Enabled(s, Start) && Runs(Apply(s, Start), es[1..])
    ensures Runs(s, es) && After(s, es) == After(Apply(s, Start), es[1..])
  {
    hide Enabled, Apply;
  }

  /** Run does not drain the channel: whatever the configuration of a buffered channel, a
      message can be accepted and then never reach the writer although every save succeeds. */
  lemma StopCanLose(cfg: Config, clock: int)
    requires cfg.channelSize > 0
    ensures exists es: seq<Event> ::
      && Runs(Fresh(cfg, NO_MESSAGES, clock), es)
      && AllSaved(es) && Stop(true) in es
      && After(Fresh(cfg, NO_MESSAGES, clock), es).flow.channel != []
  {
    var s := Fresh(cfg, NO_MESSAGES, clock);
    var es := OneMessageRun(cfg, clock);
    RunsOneMore(s, es, RequestClose);
    var fs := es + [RequestClose];
    RunsOneMore(s, fs, Stop(true));
    var gs := fs + [Stop(true)];
    assert Runs(s, gs) && gs[|gs| - 1] == Stop(true);
  }

  // ---------------------------------------------------------------- flushing

  /** Deferred messages wait in the buffer of a live Run and no timer will flush them. */
  predicate Stranded(s: Pipe) {
    s.cfg.flushFrequency > 0 && !s.control.exited && s.flow.buffer != [] && !s.control.timerArmed
  }

  ghost predicate Quiet(es: seq<Event>) {
    forall e | e in es :: !e.Receive? && !e.Stop?
  }

  /** Somewhere a flush fails and neither a message nor the shutdown follows it. */
  ghost predicate FlushForgotten(es: seq<Event>) {
    exists k | 0 <= k < |es| :: es[k] == Flush(false) && Quiet(es[k + 1..])
  }

  lemma ForgottenCons(es: seq<Event>)
    requires es != []
    ensures FlushForgotten(es) <==> FlushForgotten(es[1..]) || (es[0] == Flush(false) && Quiet(es[1..]))
  {
    var rest := es[1..];
    if FlushForgotten(rest) {
      var k :| 0 <= k < |rest| && rest[k] == Flush(false) && Quiet(rest[k + 1..]);
      assert es[k + 1] == rest[k] && es[k + 2..] == rest[k + 1..];
    }
    if FlushForgotten(es) {
      var k :| 0 <= k < |es| && es[k] == Flush(false) && Quiet(es[k + 1..]);
      if k > 0 {
        assert rest[k - 1] == es[k] && rest[k..] == es[k + 1..];
      }
    }
  }

  lemma StrandedStep(s: Pipe, e: Event)
    requires Inv(s) && Enabled(s, e) && s.cfg.flushFrequency > 0
    ensures Stranded(Apply(s, e)) <==> e == Flush(false) || (Stranded(s) && Quiet([e]))
  {
    assert e in [e];
  }

  lemma {:induction false} StrandedFrom(s: Pipe, es: seq<Event>)
    requires Inv(s) && Runs(s, es) && s.cfg.flushFrequency > 0
    ensures Stranded(After(s, es)) <==> FlushForgotten(es) || (Stranded(s) && Quiet(es))
    decreases |es|
  {
    hide Inv;
    if es != [] {
      StepKeeps(s, es[0]);
      StrandedStep(s, es[0]);
      StrandedFrom(Apply(s, es[0]), es[1..]);
      ForgottenCons(es);
      assert es == [es[0]] + es[1..];
      assert Quiet(es) <==> Quiet([es[0]]) && Quiet(es[1..]);
    }
  }

  /** No forgotten flush, exactly: in deferred mode a live Run leaves messages in the buffer
      with no timer armed if and only if a timed flush failed and nothing was received since. */
  lemma ForgottenFlush(cfg: Config, loaded: Counters, clock: int, es: seq<Event>)
    requires Runs(Fresh(cfg, loaded, clock), es) && cfg.flushFrequency > 0
    ensures Stranded(After(Fresh(cfg, loaded, clock), es)) <==> FlushForgotten(es)
  {
    StrandedFrom(Fresh(cfg, loaded, clock), es);
  }

  /** For every deferred configuration of a buffered channel a failed flush can strand a message. */
  lemma FlushCanStrand(cfg: Config, clock: int)
    requires cfg.flushFrequency > 0 && cfg.channelSize > 0
    ensures exists es: seq<Event> ::
      Runs(Fresh(cfg, NO_MESSAGES, clock), es) && Stranded(After(Fresh(cfg, NO_MESSAGES, clock), es))
  {
    var s := Fresh(cfg, NO_MESSAGES, clock);
    var es := OneMessageRun(cfg, clock);
    RunsOneMore(s, es, Receive(false));
    var fs := es + [Receive(false)];
    RunsOneMore(s, fs, Flush(false));
    assert Runs(s, fs + [Flush(false)]);
  }

  ghost predicate AllSaved(es: seq<Event>) {
    forall e | e in es :: e.Receive? || e.Flush? || e.Stop? ==> e.saved
  }

  ghost predicate Bounded(s: Pipe) {
    && (s.cfg.flushFrequency <= 0 ==> s.flow.buffer == [])
    && (s.cfg.bulkMaxSize > 0 ==> |s.flow.buffer| < s.cfg.bulkMaxSize)
    && (s.cfg.bulkMaxSize <= 0 ==> s.flow.buffer == [])
  }

  /** With successful saves the buffer is empty between steps in immediate mode, and stays
      below its configured size in deferred mode. */
  lemma {:induction false} BufferStaysSmall(s: Pipe, es: seq<Event>)
    requires Bounded(s) && Runs(s, es) && AllSaved(es)
    ensures Bounded(After(s, es))
    decreases |es|
  {
    if es != [] {
      BufferStaysSmall(Apply(s, es[0]), es[1..]);
    }
  }
}
