/** Deduplication of put requests: the set of processed ids with a time to live, and the two
    put handlers around it. */
module RequestDedup {

  /** What happens to a put after the duplicate check. */
  datatype Body = Malformed | Refused | Taken

  datatype Reply = Accepted | Duplicate | Failed

  /** A put of several records, a put of one record, or a cleanup tick, at a clock time. */
  datatype Request =
    | PutRecords(now: int, stream: string, batch: string, body: Body)
    | PutRecord(now: int, stream: string, batch: string, body: Body)
    | Tick(now: int)

  datatype Dedup = Dedup(ttl: int, clock: int, processed: map<string, int>)

  const UUID_LENGTH := 36

  function DedupId(stream: string, batch: string): string {
    stream + ":" + batch
  }

  lemma DedupIdInjective(s1: string, b1: string, s2: string, b2: string)
    requires |s1| == |s2| == UUID_LENGTH && DedupId(s1, b1) == DedupId(s2, b2)
    ensures s1 == s2 && b1 == b2
  {
    var id := DedupId(s1, b1);
    assert id[..UUID_LENGTH] == s1 && id[UUID_LENGTH + 1..] == b1;
    assert DedupId(s2, b2)[..UUID_LENGTH] == s2 && DedupId(s2, b2)[UUID_LENGTH + 1..] == b2;
  }

  function Expire(processed: map<string, int>, now: int, ttl: int): map<string, int> {
    map id | id in processed && now - processed[id] <= ttl :: processed[id]
  }

  predicate IsDuplicate(d: Dedup, r: Request)
    requires !r.Tick?
  {
    r.batch != "" && DedupId(r.stream, r.batch) in d.processed
  }

  function Answer(d: Dedup, r: Request): Reply
    requires !r.Tick?
  {
    if IsDuplicate(d, r) then Duplicate else if r.body.Taken? then Accepted else Failed
  }

  /** Only PutRecords takes its id back when the put fails. */
  function Processed(d: Dedup, r: Request): map<string, int> {
    if r.Tick? then Expire(d.processed, r.now, d.ttl)
    else
      var id := DedupId(r.stream, r.batch);
      if IsDuplicate(d, r) then d.processed
      else
        var added := if r.batch != "" then d.processed[id := r.now] else d.processed;
        if r.PutRecords? && !r.body.Taken? then added - {id} else added
  }

  predicate Allowed(d: Dedup, r: Request) {
    d.clock <= r.now && (!r.Tick? ==> |r.stream| == UUID_LENGTH)
  }

  function Apply(d: Dedup, r: Request): Dedup {
    Dedup(d.ttl, r.now, Processed(d, r))
  }

  // ---------------------------------------------------------------- the implementation

  class RequestDeduplicatorManager {
    const ttl: int
    var processedIDs: map<string, int>

    constructor (ttl: int)
      ensures this.ttl == ttl && processedIDs == map[]
    {
      this.ttl, processedIDs := ttl, map[];
    }

    method Exists(id: string) returns (found: bool)
      ensures found <==> id in processedIDs
    {
      found := id in processedIDs;
    }

    method Add(id: string, now: int)
      modifies this
      ensures processedIDs == old(processedIDs)[id := now]
    {
      processedIDs := processedIDs[id := now];
    }

    method Remove(id: string)
      modifies this
      ensures processedIDs == old(processedIDs) - {id}
    {
      processedIDs := processedIDs - {id};
    }

    /** Sweeps the entries in any order. */
    method CleanupExpiredEntries(now: int)
      modifies this
      ensures processedIDs == Expire(old(processedIDs), now, ttl)
      ensures forall id :: id in processedIDs <==> id in old(processedIDs) && now - old(processedIDs)[id] <= ttl
      ensures forall id | id in processedIDs :: processedIDs[id] == old(processedIDs)[id]
    {
      var pending := processedIDs.Keys;
      while pending != {}
        invariant pending <= processedIDs.Keys <= old(processedIDs).Keys
        invariant forall id | id in processedIDs :: processedIDs[id] == old(processedIDs)[id]
        invariant forall id | id in pending :: id in processedIDs
        invariant forall id | id in old(processedIDs) && id !in pending ::
          id in processedIDs <==> now - old(processedIDs)[id] <= ttl
        decreases pending
      {
        var id :| id in pending;
        pending := pending - {id};
        if now - processedIDs[id] > ttl {
          processedIDs := processedIDs - {id};
        }
      }
    }

    method Clear()
      modifies this
      ensures processedIDs == map[]
    {
      processedIDs := map[];
    }
  }

  class WebAPIServer {
    const reqDedupManager: RequestDeduplicatorManager

    constructor (manager: RequestDeduplicatorManager)
      ensures reqDedupManager == manager
    {
      reqDedupManager := manager;
    }

    ghost function State(clock: int): Dedup
      reads reqDedupManager
    {
      Dedup(reqDedupManager.ttl, clock, reqDedupManager.processedIDs)
    }

    method PutRecords(now: int, stream: string, batch: string, body: Body) returns (reply: Reply)
      modifies reqDedupManager
      ensures
        var id, before := stream + ":" + batch, old(reqDedupManager.processedIDs);
        if batch != "" && id in before then
          reply == Duplicate && reqDedupManager.processedIDs == before
        else if body == Taken then
          reply == Accepted && reqDedupManager.processedIDs == if batch != "" then before[id := now] else before
        else
          reply == Failed && reqDedupManager.processedIDs == before - {id}
      ensures reply == Answer(old(State(now)), Request.PutRecords(now, stream, batch, body))
      ensures State(now) == Apply(old(State(now)), Request.PutRecords(now, stream, batch, body))
    {
      var id := DedupId(stream, batch);
      if batch != "" {
        var known := reqDedupManager.Exists(id);
        if known {
          return Duplicate;
        }
        reqDedupManager.Add(id, now);
      }
      if body.Malformed? {
        reqDedupManager.Remove(id);
        return Failed;
      }
      if body.Refused? {
        reqDedupManager.Remove(id);
        return Failed;
      }
      return Accepted;
    }

    method PutRecord(now: int, stream: string, batch: string, body: Body) returns (reply: Reply)
      modifies reqDedupManager
      ensures
        var id, before := stream + ":" + batch, old(reqDedupManager.processedIDs);
        if batch != "" && id in before then
          reply == Duplicate && reqDedupManager.processedIDs == before
        else
          && reply == (if body == Taken then Accepted else Failed)
          && reqDedupManager.processedIDs == if batch != "" then before[id := now] else before
      ensures reply == Answer(old(State(now)), Request.PutRecord(now, stream, batch, body))
      ensures State(now) == Apply(old(State(now)), Request.PutRecord(now, stream, batch, body))
    {
      if batch != "" {
        var id := DedupId(stream, batch);
        var known := reqDedupManager.Exists(id);
        if known {
          return Duplicate;
        }
        reqDedupManager.Add(id, now);
      }
      if !body.Taken? {
        return Failed;
      }
      return Accepted;
    }
  }

  // ---------------------------------------------------------------- runs

  ghost predicate Runs(d: Dedup, rs: seq<Request>)
    decreases |rs|
  {
    rs != [] ==> Allowed(d, rs[0]) && Runs(Apply(d, rs[0]), rs[1..])
  }

  ghost function After(d: Dedup, rs: seq<Request>): Dedup
    requires Runs(d, rs)
    decreases |rs|
  {
    if rs == [] then d else After(Apply(d, rs[0]), rs[1..])
  }

  /** No processed id has an empty batch part. */
  ghost predicate Named(d: Dedup) {
    forall id | id in d.processed :: |id| > UUID_LENGTH + 1
  }

  /** The id is still remembered from the given time, or that time is out of reach. */
  ghost predicate Remembers(d: Dedup, id: string, since: int) {
    (id in d.processed && d.processed[id] == since) || d.clock - since > d.ttl
  }

  lemma StepRemembers(d: Dedup, r: Request, id: string, since: int)
    requires Named(d) && Allowed(d, r) && Remembers(d, id, since)
    ensures Named(Apply(d, r)) && Remembers(Apply(d, r), id, since)
  {
    if !r.Tick? {
      assert |DedupId(r.stream, r.batch)| == UUID_LENGTH + 1 + |r.batch|;
    }
  }

  lemma {:induction false} RunRemembers(d: Dedup, rs: seq<Request>, id: string, since: int)
    requires Named(d) && Runs(d, rs) && Remembers(d, id, since)
    ensures Named(After(d, rs)) && Remembers(After(d, rs), id, since) && After(d, rs).ttl == d.ttl
    decreases |rs|
  {
    if rs != [] {
      StepRemembers(d, rs[0], id, since);
      RunRemembers(Apply(d, rs[0]), rs[1..], id, since);
    }
  }

  /** Two accepted puts with the same stream and non-empty batch id are more than the time to
      live apart, whatever puts, failures and cleanup ticks lie between them. */
  lemma AcceptedPutsAreApart(d: Dedup, first: Request, rs: seq<Request>, second: Request)
    requires Named(d) && !first.Tick? && !second.Tick?
    requires first.batch != "" && first.stream == second.stream && first.batch == second.batch
    requires Allowed(d, first) && Answer(d, first) == Accepted
    requires Runs(Apply(d, first), rs)
    requires Allowed(After(Apply(d, first), rs), second)
    requires Answer(After(Apply(d, first), rs), second) == Accepted
    ensures second.now - first.now > d.ttl
  {
    var id := DedupId(first.stream, first.batch);
    assert |id| > UUID_LENGTH + 1;
    RunRemembers(Apply(d, first), rs, id, first.now);
  }

  /** A failed or duplicate PutRecords leaves the processed ids as they were; a failed PutRecord
      does so exactly when it carries no batch id. */
  lemma FailureLeavesNoTrace(d: Dedup, r: Request)
    requires Named(d) && Allowed(d, r) && !r.Tick? && Answer(d, r) != Accepted
    ensures r.PutRecords? ==> Apply(d, r).processed == d.processed
    ensures r.PutRecord? ==> (Apply(d, r).processed == d.processed <==> r.batch == "" || Answer(d, r) == Duplicate)
  {
    assert |DedupId(r.stream, r.batch)| == UUID_LENGTH + 1 + |r.batch|;
  }

  /** So a record whose single put failed cannot be put again under its batch id before the time
      to live is over: every retry is answered as a duplicate. */
  lemma FailedPutRecordBlocksRetry(d: Dedup, first: Request, rs: seq<Request>, retry: Request)
    requires Named(d) && first.PutRecord? && !retry.Tick?
    requires first.batch != "" && first.stream == retry.stream && first.batch == retry.batch
    requires Allowed(d, first) && Answer(d, first) == Failed
    requires Runs(Apply(d, first), rs)
    requires Allowed(After(Apply(d, first), rs), retry) && retry.now - first.now <= d.ttl
    ensures Answer(After(Apply(d, first), rs), retry) == Duplicate
  {
    var id := DedupId(first.stream, first.batch);
    assert |id| > UUID_LENGTH + 1;
    RunRemembers(Apply(d, first), rs, id, first.now);
  }

  /** Puts of another stream or another batch never decide about this one. */
  lemma OtherPutsDoNotInterfere(d: Dedup, r: Request, stream: string, batch: string)
    requires Allowed(d, r) && !r.Tick? && |stream| == UUID_LENGTH
    requires r.stream != stream || r.batch != batch
    ensures DedupId(stream, batch) in Apply(d, r).processed <==> DedupId(stream, batch) in d.processed
  {
    if DedupId(stream, batch) == DedupId(r.stream, r.batch) {
      DedupIdInjective(stream, batch, r.stream, r.batch);
    }
  }

  /** A processed id stems from an earlier put of its stream and batch, at the time it carries. */
  lemma {:induction false} ProcessedHasCause(d: Dedup, rs: seq<Request>, id: string)
    requires Runs(d, rs) && id in After(d, rs).processed
    ensures
      || (id in d.processed && d.processed[id] == After(d, rs).processed[id])
      || exists k :: 0 <= k < |rs| && Marks(rs[k], id, After(d, rs).processed[id])
    decreases |rs|
  {
    if rs != [] {
      ProcessedHasCause(Apply(d, rs[0]), rs[1..], id);
      var since := After(d, rs).processed[id];
      if k :| 0 <= k < |rs[1..]| && Marks(rs[1..][k], id, since) {
        assert Marks(rs[k + 1], id, since);
      } else if id !in d.processed || d.processed[id] != since {
        assert Marks(rs[0], id, since);
      }
    }
  }

  ghost predicate Marks(r: Request, id: string, since: int) {
    !r.Tick? && r.batch != "" && DedupId(r.stream, r.batch) == id && r.now == since
      && (r.PutRecords? ==> r.body.Taken?)
  }

  /** Nothing is rejected without a reason: from an empty set, a put is a duplicate only if the
      same stream and batch was put before, accepted or by PutRecord. */
  lemma DuplicateHasCause(ttl: int, clock: int, rs: seq<Request>, r: Request)
    requires Runs(Dedup(ttl, clock, map[]), rs) && Allowed(After(Dedup(ttl, clock, map[]), rs), r) && !r.Tick?
    requires Answer(After(Dedup(ttl, clock, map[]), rs), r) == Duplicate
    ensures exists k, since :: 0 <= k < |rs| && Marks(rs[k], DedupId(r.stream, r.batch), since)
  {
    ProcessedHasCause(Dedup(ttl, clock, map[]), rs, DedupId(r.stream, r.batch));
  }

  /** The first cleanup tick after the time to live makes room for the batch id again. */
  lemma AcceptedAgainAfterTick(d: Dedup, tick: Request, retry: Request)
    requires tick.Tick? && !retry.Tick? && retry.body.Taken?
    requires DedupId(retry.stream, retry.batch) in d.processed
    requires tick.now - d.processed[DedupId(retry.stream, retry.batch)] > d.ttl
    ensures Answer(Apply(d, tick), retry) == Accepted
  {
  }
}
