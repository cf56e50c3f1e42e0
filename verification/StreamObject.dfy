/** The stream object over the in-memory writer. Each method performs one atomic step of the
    pipeline: what a producer does between two blocking points, or one case of Run's select. */
module StreamObject {
  import opened Records
  import opened InMemoryLog
  import opened IngestPipeline
  import opened InMemoryIngest

  /** types.StreamInfo, shared by the stream and its writer. */
  class StreamInfo {
    var ingested: Counters
    var readable: Counters

    constructor ()
      ensures ingested == NO_MESSAGES && readable == NO_MESSAGES
    {
      ingested := NO_MESSAGES;
      readable := NO_MESSAGES;
    }
  }

  class StreamWriterInMemory {
    const info: StreamInfo
    const log: InMemoryStream

    constructor (info: StreamInfo, log: InMemoryStream)
      ensures this.info == info && this.log == log
    {
      this.info := info;
      this.log := log;
    }

    ghost function Stored(): Store
      reads info, log
    {
      Store(log.records, info.readable)
    }

    /** Appends record by record until the cap refuses one. */
    method Write(batch: seq<Message>) returns (ok: bool)
      modifies info`readable, log
      ensures Stored() == InMemoryIngest.Write(log.maxRecords, info.ingested.firstId, old(Stored()), batch)
      ensures ok <==> Accepts(log.maxRecords, old(Stored()), batch)
      ensures ok <==> batch == [] || log.maxRecords == 0 || old(|log.records|) + |batch| <= log.maxRecords
      ensures Took(log.maxRecords, info.ingested.firstId, old(Stored()), batch, Stored(), ok)
    {
      ghost var before, room := Stored(), Room(log.maxRecords, |log.records|, |batch|);
      WriteTook(log.maxRecords, info.ingested.firstId, before, batch);
      WriteIs(log.maxRecords, info.ingested.firstId, before, batch);
      hide Took, InMemoryIngest.Write, Accepts, Room;
      if |batch| == 0 {
        return true;
      }
      if info.readable.count == 0 {
        info.readable := info.readable.(firstId := info.ingested.firstId, lastId := 0, firstTime := batch[0].time);
      }
      ghost var atFirst := info.readable;
      for i := 0 to |batch|
        invariant i <= room
        invariant log.records == old(log.records) + batch[..i]
        invariant info.readable == Absorb(atFirst, batch[..i])
      {
        RoomIs(log.maxRecords, old(|log.records|), |batch|, i);
        var added := log.AddRecord(batch[i]);
        assert batch[..i + 1] == batch[..i] + [batch[i]];
        if !added {
          return false;
        }
        info.readable := info.readable.(
          count := info.readable.count + 1, lastTime := batch[i].time, lastId := batch[i].id);
      }
      assert batch[..|batch|] == batch;
      return true;
    }
  }

  class StreamIngestBuffer {
    const cfg: Config
    const writer: StreamWriterInMemory
    var channel: seq<Message>
    var msgBuffer: seq<Message>

    constructor (cfg: Config, writer: StreamWriterInMemory)
      ensures this.cfg == cfg && this.writer == writer && channel == [] && msgBuffer == []
    {
      this.cfg := cfg;
      this.writer := writer;
      channel := [];
      msgBuffer := [];
    }

    predicate IsFull()
      reads this
    {
      |msgBuffer| >= cfg.bulkMaxSize
    }

    method AppendMessage(m: Message)
      modifies this`msgBuffer
      ensures msgBuffer == old(msgBuffer) + [m]
    {
      msgBuffer := msgBuffer + [m];
    }

    /** Clears the buffer only after the writer took all of it. */
    method Save() returns (ok: bool)
      modifies this`msgBuffer, writer.info`readable, writer.log
      ensures ok <==> Accepts(writer.log.maxRecords, old(writer.Stored()), old(msgBuffer))
      ensures
        var cap, first := writer.log.maxRecords, writer.info.ingested.firstId;
        writer.Stored() == InMemoryIngest.Write(cap, first, old(writer.Stored()), old(msgBuffer))
      ensures Took(writer.log.maxRecords, writer.info.ingested.firstId,
                   old(writer.Stored()), old(msgBuffer), writer.Stored(), ok)
      ensures msgBuffer == if ok then [] else old(msgBuffer)
    {
      hide Took, InMemoryIngest.Write, Accepts;
      ok := writer.Write(msgBuffer);
      if ok {
        msgBuffer := [];
      }
    }
  }

  /** Possible steps differ only in whether their save succeeds, which the writer decides. */
  predicate SameStep(wish: Event, taken: Event) {
    match wish
    case Receive(_) => taken.Receive?
    case Flush(_) => taken.Flush?
    case Stop(_) => taken.Stop?
    case _ => taken == wish
  }

  predicate IsPutStep(e: Event) {
    e.Admit? || e.Acquire? || e.Number? || e.Send? || e.Release?
  }

  lemma SameResult(n: Node, wish: Event, taken: Event)
    requires SameStep(wish, taken) && NodeEnabled(n, wish) && NodeEnabled(n, taken)
    ensures NodeApply(n, wish) == NodeApply(n, taken)
  {
  }

  class Stream {
    const info: StreamInfo
    const ingestBuffer: StreamIngestBuffer
    var control: Control
    var clock: int
    var admitted: seq<seq<string>>
    var lock: Lock
    var pending: Option<Message>
    ghost var numbered: seq<Message>
    ghost var cleared: seq<Message>

    constructor (cfg: Config, maxRecords: nat, clock: int)
      ensures Valid() && fresh(info) && fresh(ingestBuffer) && fresh(ingestBuffer.writer.log)
      ensures State() == FreshNode(cfg, maxRecords, clock)
    {
      var log := new InMemoryStream(maxRecords);
      var shared := new StreamInfo();
      var writer := new StreamWriterInMemory(shared, log);
      info := shared;
      ingestBuffer := new StreamIngestBuffer(cfg, writer);
      control := Control(Idle, false, false, false);
      this.clock := clock;
      admitted, lock, pending := [], Free, None;
      numbered, cleared := [], [];
    }

    ghost function State(): Node
      reads this, info, ingestBuffer, ingestBuffer.writer.info, ingestBuffer.writer.log
    {
      Node(ingestBuffer.writer.log.maxRecords,
           Pipe(ingestBuffer.cfg, NO_MESSAGES, control, Intake(clock, admitted, lock, info.ingested),
                Flow(numbered, pending, ingestBuffer.channel, ingestBuffer.msgBuffer, cleared)),
           ingestBuffer.writer.Stored())
    }

    /** The writer updates the same info as the stream. */
    ghost predicate Wired() {
      ingestBuffer.writer.info == info
    }

    /** The objects are a state of the machine that keeps everything a run keeps. */
    ghost predicate Valid()
      reads this, info, ingestBuffer, ingestBuffer.writer.info, ingestBuffer.writer.log
    {
      Wired() && NodeInv(State())
    }

    /** Starting a stream again after Close is not a state of the machine. */
    method Begin() returns (ok: bool)
      requires Valid()
      modifies this`control
      ensures ok <==> old(control.phase) == Idle
      ensures control == if ok then old(control).(phase := Running) else old(control)
      ensures !ok || !old(control.closing) ==> Valid()
      ensures ok && !old(control.closing) ==> State() == NodeApply(old(State()), Start)
    {
      hide NodeInv;
      ghost var before := State();
      if control.phase != Idle {
        return false;
      }
      control := control.(phase := Running);
      if !old(control.closing) {
        NodeStepKeeps(before, Start);
      }
      return true;
    }

    /** The checks of PutMessages before it waits for the numbering lock. */
    method PutMessages(records: seq<string>) returns (ok: bool)
      requires Valid()
      modifies this`admitted
      ensures ok <==> old(control.phase) == Running && |records| > 0
      ensures admitted == old(admitted) + if ok then [records] else []
      ensures Valid() && (ok <==> NodeEnabled(old(State()), Admit(records)))
      ensures State() == if ok then NodeApply(old(State()), Admit(records)) else old(State())
    {
      hide NodeInv;
      ghost var before := State();
      if control.phase != Running || |records| == 0 {
        return false;
      }
      admitted := admitted + [records];
      NodeStepKeeps(before, Admit(records));
      return true;
    }

    method TakeLock(call: nat, now: int)
      requires Valid() && NodeEnabled(State(), Acquire(call, now))
      modifies this`admitted, this`lock, this`clock, info`ingested
      ensures lock == Held(now, old(admitted[call])) && clock == now
      ensures admitted == old(admitted[..call]) + old(admitted[call + 1..])
      ensures info.ingested ==
        if old(info.ingested.count) == 0 then Counters(0, 1, 0, now, old(info.ingested.lastTime))
        else old(info.ingested)
      ensures Valid() && State() == NodeApply(old(State()), Acquire(call, now))
    {
      hide NodeInv;
      ghost var before := State();
      lock := Held(now, admitted[call]);
      admitted := admitted[..call] + admitted[call + 1..];
      clock := now;
      if info.ingested.count == 0 {
        info.ingested := info.ingested.(firstId := 1, lastId := 0, firstTime := now);
      }
      NodeStepKeeps(before, Acquire(call, now));
    }

    /** One turn of the PutMessages loop, up to the channel send. The id is new to the stream. */
    method NumberNext() returns (id: nat)
      requires Valid() && NodeEnabled(State(), Number)
      modifies this`lock, this`pending, this`numbered, info`ingested
      ensures lock == Held(old(lock.now), old(lock.rest[1..]))
      ensures numbered == old(numbered) + [Message(id, old(lock.now), old(lock.rest[0]))]
      ensures info.ingested ==
        old(info.ingested).(count := old(info.ingested.count) + 1, lastId := id, lastTime := old(lock.now))
      ensures Valid() && State() == NodeApply(old(State()), Number)
      ensures pending == Some(Message(id, old(lock.now), old(lock.rest[0]))) && id == |old(numbered)| + 1
    {
      hide NodeInv;
      ghost var before := State();
      NumbersNext(before);
      info.ingested := info.ingested.(
        lastTime := lock.now, lastId := info.ingested.lastId + 1, count := info.ingested.count + 1);
      id := info.ingested.lastId;
      var m := Message(id, lock.now, lock.rest[0]);
      pending := Some(m);
      numbered := numbered + [m];
      lock := Held(lock.now, lock.rest[1..]);
      NodeStepKeeps(before, Number);
    }

    method SendPending()
      requires Valid() && NodeEnabled(State(), Send)
      modifies this`pending, ingestBuffer`channel
      ensures ingestBuffer.channel == old(ingestBuffer.channel) + [old(pending.value)] && pending == None
      ensures Valid() && State() == NodeApply(old(State()), Send)
    {
      hide NodeInv;
      ghost var before := State();
      ingestBuffer.channel := ingestBuffer.channel + [pending.value];
      pending := None;
      NodeStepKeeps(before, Send);
    }

    method DropLock()
      requires Valid() && NodeEnabled(State(), Release)
      modifies this`lock
      ensures lock == Free
      ensures Valid() && State() == NodeApply(old(State()), Release)
    {
      hide NodeInv;
      ghost var before := State();
      lock := Free;
      NodeStepKeeps(before, Release);
    }

    /** What Run receives next: the head of the channel, or the message of the sender blocked on
        an unbuffered one. */
    ghost function Waiting(): seq<Message>
      reads this, ingestBuffer
    {
      ingestBuffer.channel + if ingestBuffer.cfg.channelSize == 0 && pending.Some? then [pending.value] else []
    }

    /** The writer was handed the batch: it took what fits, and the buffer is what it left. */
    twostate predicate Handed(batch: seq<Message>, saved: bool)
      reads this, info, ingestBuffer, ingestBuffer.writer.info, ingestBuffer.writer.log
    {
      && Took(ingestBuffer.writer.log.maxRecords, old(info.ingested.firstId),
              old(ingestBuffer.writer.Stored()), batch, ingestBuffer.writer.Stored(), saved)
      && ingestBuffer.msgBuffer == (if saved then [] else batch)
      && cleared == old(cleared) + (if saved then batch else [])
    }

    /** Receives the head of the channel, or the message of the sender blocked on it. */
    method TakeFromChannel() returns (m: Message)
      requires CanReceive(ingestBuffer.cfg, State().pipe.flow)
      modifies this`pending, ingestBuffer`channel
      ensures old(Waiting()) != [] && [m] + Waiting() == old(Waiting())
      ensures
        TakeMessage(ingestBuffer.cfg, old(State()).pipe.flow) ==
          Flow(numbered, pending, ingestBuffer.channel, ingestBuffer.msgBuffer + [m], cleared)
    {
      if ingestBuffer.channel != [] {
        m := ingestBuffer.channel[0];
        ingestBuffer.channel := ingestBuffer.channel[1..];
      } else {
        m := pending.value;
        pending := None;
      }
    }

    /** The message cases of Run's select. Without a flush frequency the buffer is saved at once
        and no timer is touched. Otherwise the timer runs from then on, and the buffer is saved
        when it is full. */
    method OnMessage() returns (saved: bool)
      requires Valid() && control.phase != Idle && !control.exited
      requires CanReceive(ingestBuffer.cfg, State().pipe.flow)
      modifies this`control, this`pending, this`cleared, ingestBuffer, info`readable, ingestBuffer.writer.log
      ensures old(Waiting()) != [] && Waiting() == old(Waiting())[1..]
      ensures
        var cfg, full := ingestBuffer.cfg, old(ingestBuffer.msgBuffer) + [old(Waiting())[0]];
        && control == old(control).(timerArmed := old(control.timerArmed) || cfg.flushFrequency > 0)
        && if cfg.flushFrequency <= 0 || |full| >= cfg.bulkMaxSize then Handed(full, saved)
           else
             && !saved && ingestBuffer.msgBuffer == full && cleared == old(cleared)
             && ingestBuffer.writer.Stored() == old(ingestBuffer.writer.Stored())
      ensures Valid() && NodeEnabled(old(State()), Receive(saved))
      ensures State() == NodeApply(old(State()), Receive(saved))
    {
      hide NodeInv, InMemoryIngest.Write, Accepts, NodeApply, NodeEnabled, TakeMessage, Took;
      ghost var before := State();
      var m := TakeFromChannel();
      assert m == old(Waiting())[0] && Waiting() == old(Waiting())[1..];
      saved := TakeUp(m);
      Receives(before, saved);
      assert State() == NodeApply(before, Receive(saved));
      NodeStepKeeps(before, Receive(saved));
    }

    /** What Run does with a received message, by the configured mode. */
    method TakeUp(m: Message) returns (saved: bool)
      requires Wired()
      modifies this`control, this`cleared, ingestBuffer`msgBuffer, info`readable, ingestBuffer.writer.log
      ensures
        var cfg, full := ingestBuffer.cfg, old(ingestBuffer.msgBuffer) + [m];
        var cap, first := ingestBuffer.writer.log.maxRecords, info.ingested.firstId;
        && control == old(control).(timerArmed := old(control.timerArmed) || cfg.flushFrequency > 0)
        && if cfg.flushFrequency <= 0 || |full| >= cfg.bulkMaxSize then
             && Handed(full, saved)
             && saved == Accepts(cap, old(ingestBuffer.writer.Stored()), full)
             && ingestBuffer.writer.Stored() ==
                  InMemoryIngest.Write(cap, first, old(ingestBuffer.writer.Stored()), full)
           else
             && !saved && ingestBuffer.msgBuffer == full && cleared == old(cleared)
             && ingestBuffer.writer.Stored() == old(ingestBuffer.writer.Stored())
    {
      hide Took, Accepts, InMemoryIngest.Write;
      if ingestBuffer.cfg.flushFrequency <= 0 {
        saved := BufferizeMessage(m, true);
      } else {
        saved := BufferizeMessage(m, false);
        if !control.timerArmed {
          control := control.(timerArmed := true);
        }
      }
    }

    method BufferizeMessage(m: Message, immediateSave: bool) returns (saved: bool)
      requires Wired()
      modifies this`cleared, ingestBuffer`msgBuffer, info`readable, ingestBuffer.writer.log
      ensures
        var cap, first := ingestBuffer.writer.log.maxRecords, info.ingested.firstId;
        var full := old(ingestBuffer.msgBuffer) + [m];
        if immediateSave || |full| >= ingestBuffer.cfg.bulkMaxSize then
          && Handed(full, saved)
          && saved == Accepts(cap, old(ingestBuffer.writer.Stored()), full)
          && ingestBuffer.writer.Stored() == InMemoryIngest.Write(cap, first, old(ingestBuffer.writer.Stored()), full)
        else
          && !saved && ingestBuffer.writer.Stored() == old(ingestBuffer.writer.Stored())
          && cleared == old(cleared) && ingestBuffer.msgBuffer == full
    {
      hide Took, Accepts, InMemoryIngest.Write;
      ingestBuffer.AppendMessage(m);
      ghost var full := ingestBuffer.msgBuffer;
      saved := false;
      if immediateSave || ingestBuffer.IsFull() {
        saved := ingestBuffer.Save();
        if saved {
          cleared := cleared + full;
        }
      }
    }

    /** The timer case of Run's select. */
    method OnFlush() returns (saved: bool)
      requires Valid() && control.timerArmed && !control.exited
      modifies this`control, this`cleared, ingestBuffer`msgBuffer, info`readable, ingestBuffer.writer.log
      ensures control == old(control).(timerArmed := false) && Handed(old(ingestBuffer.msgBuffer), saved)
      ensures Valid() && NodeEnabled(old(State()), Flush(saved))
      ensures State() == NodeApply(old(State()), Flush(saved))
    {
      hide NodeInv, Took;
      ghost var before := State();
      ghost var batch := ingestBuffer.msgBuffer;
      saved := ingestBuffer.Save();
      if saved {
        cleared := cleared + batch;
      }
      control := control.(timerArmed := false);
      NodeStepKeeps(before, Flush(saved));
    }

    method Close() returns (ok: bool)
      requires Valid()
      modifies this`control
      ensures ok <==> old(control.phase) == Running
      ensures control == if ok then old(control).(phase := Stopping, closing := true) else old(control)
      ensures Valid() && (ok <==> NodeEnabled(old(State()), RequestClose))
      ensures State() == if ok then NodeApply(old(State()), RequestClose) else old(State())
    {
      ghost var before := State();
      if control.phase != Running {
        return false;
      }
      assert !before.pipe.control.closing;
      control := control.(phase := Stopping, closing := true);
      hide NodeInv;
      NodeStepKeeps(before, RequestClose);
      return true;
    }

    /** The done case of Run's select: one last save, no draining of the channel. */
    method OnDone() returns (saved: bool)
      requires Valid() && control.closing && !control.exited
      modifies this`control, this`cleared, ingestBuffer`msgBuffer, info`readable, ingestBuffer.writer.log
      ensures control == old(control).(timerArmed := false, exited := true)
      ensures Handed(old(ingestBuffer.msgBuffer), saved)
      ensures Valid() && NodeEnabled(old(State()), Stop(saved))
      ensures State() == NodeApply(old(State()), Stop(saved))
    {
      hide NodeInv, Took;
      ghost var before := State();
      ghost var batch := ingestBuffer.msgBuffer;
      saved := ingestBuffer.Save();
      if saved {
        cleared := cleared + batch;
      }
      control := control.(timerArmed := false, exited := true);
      NodeStepKeeps(before, Stop(saved));
    }

    method FinishClose()
      requires Valid() && NodeEnabled(State(), Closed)
      modifies this`control
      ensures control == old(control).(phase := Idle)
      ensures Valid() && State() == NodeApply(old(State()), Closed)
    {
      hide NodeInv;
      ghost var before := State();
      control := control.(phase := Idle);
      NodeStepKeeps(before, Closed);
    }

    /** When each step is possible. */
    ghost predicate Possible(wish: Event)
      reads this, ingestBuffer
    {
      match wish
      case Start => control.phase == Idle && !control.closing
      case Admit(batch) => control.phase == Running && batch != []
      case Acquire(call, now) => lock == Free && call < |admitted| && clock <= now
      case Number => lock.Held? && lock.rest != [] && pending == None
      case Send => pending != None && |ingestBuffer.channel| < ingestBuffer.cfg.channelSize
      case Release => lock.Held? && lock.rest == [] && pending == None
      case Receive(_) => control.phase != Idle && !control.exited && Waiting() != []
      case Flush(_) => control.timerArmed && !control.exited
      case RequestClose => control.phase == Running
      case Stop(_) => control.closing && !control.exited
      case Closed => control.phase == Stopping && control.exited
    }

    /** Takes a step of a producer if it is possible now. */
    method TryPutStep(wish: Event) returns (done: bool, taken: Event)
      requires Valid() && IsPutStep(wish)
      modifies this, info, ingestBuffer, ingestBuffer.writer.log
      ensures Valid() && (done <==> old(Possible(wish)))
      ensures done ==> SameStep(wish, taken) && NodeEnabled(old(State()), taken)
      ensures !done ==> forall e | SameStep(wish, e) :: !NodeEnabled(old(State()), e)
      ensures State() == if done then NodeApply(old(State()), taken) else old(State())
    {
      hide NodeInv, NodeApply, Accepts;
      done, taken := false, wish;
      match wish {
        case Admit(batch) =>
          done := PutMessages(batch);
        case Acquire(call, now) =>
          if lock.Free? && call < |admitted| && clock <= now {
            TakeLock(call, now);
            done := true;
          }
        case Number =>
          if lock.Held? && |lock.rest| > 0 && pending.None? {
            var _ := NumberNext();
            done := true;
          }
        case Send =>
          if pending.Some? && |ingestBuffer.channel| < ingestBuffer.cfg.channelSize {
            SendPending();
            done := true;
          }
        case Release =>
          if lock.Held? && |lock.rest| == 0 && pending.None? {
            DropLock();
            done := true;
          }
      }
    }

    /** Takes a step of Run, or of the start and the stop around it, if it is possible now. */
    method TryRunStep(wish: Event) returns (done: bool, taken: Event)
      requires Valid() && !IsPutStep(wish)
      modifies this, info, ingestBuffer, ingestBuffer.writer.log
      ensures Valid() && (done <==> old(Possible(wish)))
      ensures done ==> SameStep(wish, taken) && NodeEnabled(old(State()), taken)
      ensures !done ==> forall e | SameStep(wish, e) :: !NodeEnabled(old(State()), e)
      ensures State() == if done then NodeApply(old(State()), taken) else old(State())
    {
      hide NodeInv, NodeApply, Accepts;
      done, taken := false, wish;
      match wish {
        case Start =>
          if control.phase == Idle && !control.closing {
            done := Begin();
          }
        case Receive(_) =>
          if control.phase != Idle && !control.exited &&
             (|ingestBuffer.channel| > 0 || (ingestBuffer.cfg.channelSize == 0 && pending.Some?)) {
            var saved := OnMessage();
            done, taken := true, Receive(saved);
          }
        case Flush(_) =>
          if control.timerArmed && !control.exited {
            var saved := OnFlush();
            done, taken := true, Flush(saved);
          }
        case RequestClose =>
          done := Close();
        case Stop(_) =>
          if control.closing && !control.exited {
            var saved := OnDone();
            done, taken := true, Stop(saved);
          }
        case Closed =>
          if control.phase == Stopping && control.exited {
            FinishClose();
            done := true;
          }
      }
    }

    /** Takes one step if it is possible now. */
    method TryStep(wish: Event) returns (done: bool, taken: Event)
      requires Valid()
      modifies this, info, ingestBuffer, ingestBuffer.writer.log
      ensures Valid() && (done <==> old(Possible(wish)))
      ensures done ==> SameStep(wish, taken) && NodeEnabled(old(State()), taken)
      ensures !done ==> forall e | SameStep(wish, e) :: !NodeEnabled(old(State()), e)
      ensures State() == if done then NodeApply(old(State()), taken) else old(State())
    {
      hide NodeInv, NodeApply, NodeEnabled, Possible, SameStep;
      if IsPutStep(wish) {
        done, taken := TryPutStep(wish);
      } else {
        done, taken := TryRunStep(wish);
      }
    }

    /** The objects under any schedule of producers, Run, saves and shutdown: they go through a
        run of the machine, every run of the machine is one that they go through, and consumers
        read a prefix of what was ingested, with ids 1..n. */
    method RunSchedule(schedule: seq<Event>) returns (taken: seq<Event>)
      requires Valid()
      modifies this, info, ingestBuffer, ingestBuffer.writer.log
      ensures Valid()
      ensures NodeRuns(old(State()), taken) && State() == NodeAfter(old(State()), taken)
      ensures NodeRuns(old(State()), schedule) ==> State() == NodeAfter(old(State()), schedule)
      ensures ingestBuffer.writer.log.records <= numbered
      ensures NumberedFrom(ingestBuffer.writer.log.records, 0)
      ensures Describes(info.readable, ingestBuffer.writer.log.records)
    {
      taken := [];
      for i := 0 to |schedule|
        invariant Valid() && NodeRuns(old(State()), taken) && State() == NodeAfter(old(State()), taken)
        invariant NodeRuns(old(State()), schedule) ==>
          NodeRuns(old(State()), schedule[..i]) && State() == NodeAfter(old(State()), schedule[..i])
      {
        hide NodeInv, NodeApply, NodeEnabled, NodeRuns, NodeAfter;
        ghost var before := State();
        if NodeRuns(old(State()), schedule) {
          NodeRunsUpTo(old(State()), schedule, i);
        }
        var done, e := TryStep(schedule[i]);
        if NodeRuns(old(State()), schedule) {
          assert SameStep(schedule[i], schedule[i]);
          SameResult(before, schedule[i], e);
        }
        if done {
          NodeRunsOneMore(old(State()), taken, e);
          taken := taken + [e];
        }
      }
      assert schedule[..|schedule|] == schedule;
      InvReadsPrefix(State());
    }
  }
}
