/** The values that every part of a stream exchanges: messages, their running
    counters and the orderings that the numbering lock establishes. */
module Records {

  datatype Option<+T> = None | Some(value: T)

  /** types.DeferedStreamRecord: an id, a creation date and a JSON body. */
  datatype Message = Message(id: nat, time: int, body: string)

  /** types.StreamMessagesInfo, without its byte size. */
  datatype Counters = Counters(count: nat, firstId: nat, lastId: nat, firstTime: int, lastTime: int)

  const NO_MESSAGES := Counters(0, 0, 0, 0, 0)

  /** The messages carry the ids base + 1, base + 2, ... without a gap. */
  ghost predicate NumberedFrom(msgs: seq<Message>, base: nat) {
    forall k | 0 <= k < |msgs| :: msgs[k].id == base + 1 + k
  }

  ghost predicate IdsIncrease(msgs: seq<Message>) {
    forall i, j | 0 <= i < j < |msgs| :: msgs[i].id < msgs[j].id
  }

  ghost predicate TimesOrdered(msgs: seq<Message>) {
    forall i, j | 0 <= i < j < |msgs| :: msgs[i].time <= msgs[j].time
  }

  /** The counters that a linear scan of the stored messages would report. */
  ghost predicate Describes(c: Counters, msgs: seq<Message>) {
    && c.count == |msgs|
    && (msgs != [] ==>
          && c.firstId == msgs[0].id
          && c.firstTime == msgs[0].time
          && c.lastId == msgs[|msgs| - 1].id
          && c.lastTime == msgs[|msgs| - 1].time)
  }

  /** Storage writers restart the counters when they write the first batch of a stream. */
  function OpenCounters(c: Counters, ingestedFirstId: nat, batch: seq<Message>): Counters
    requires batch != []
  {
    if c.count == 0 then c.(firstId := ingestedFirstId, lastId := 0, firstTime := batch[0].time) else c
  }

  /** Counters after appending the messages one by one. */
  function Absorb(c: Counters, msgs: seq<Message>): Counters {
    if msgs == [] then c
    else c.(count := c.count + |msgs|, lastId := msgs[|msgs| - 1].id, lastTime := msgs[|msgs| - 1].time)
  }

  lemma AbsorbDescribes(c: Counters, stored: seq<Message>, ingestedFirstId: nat, batch: seq<Message>, taken: nat)
    requires Describes(c, stored)
    requires batch != [] && taken <= |batch| && (stored == [] ==> batch[0].id == ingestedFirstId)
    ensures stored != [] || taken > 0 ==>
              Describes(Absorb(OpenCounters(c, ingestedFirstId, batch), batch[..taken]), stored + batch[..taken])
  {
  }
}
