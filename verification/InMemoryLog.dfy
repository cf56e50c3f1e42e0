/** The in-memory record log with its record cap, its positional read and its two
    dichotomy searches. */
module InMemoryLog {
  import opened Records

  datatype Search = Found(rank: nat) | Missing

  /** The outcome of a positional read: the record and whether another one follows it. */
  datatype Read = Hit(record: Message, more: bool) | Nothing

  /** An id search that tests only the ranks it probes: it reaches every rank but the last
      one, unless that is the only one. */
  ghost predicate Reached(records: seq<Message>, id: nat) {
    exists r | 0 <= r < |records| :: records[r].id == id && (|records| == 1 || r < |records| - 1)
  }

  /** Compared with a complete search, exactly the last id of two or more records is missed. */
  lemma OnlyTheLastIsMissed(records: seq<Message>, id: nat)
    requires IdsIncrease(records)
    ensures (exists r | 0 <= r < |records| :: records[r].id == id) && !Reached(records, id)
       <==> |records| >= 2 && records[|records| - 1].id == id
  {
    if |records| >= 2 && records[|records| - 1].id == id {
      assert forall r | 0 <= r < |records| - 1 :: records[r].id < id;
    }
  }

  /** How many leading records are earlier than the time. */
  ghost function Earlier(records: seq<Message>, time: int): (n: nat)
    ensures n <= |records|
    ensures forall r | 0 <= r < n :: records[r].time < time
    ensures n < |records| ==> records[n].time >= time
  {
    if records == [] || records[0].time >= time then 0 else 1 + Earlier(records[1..], time)
  }

  /** The rank last probed by a dichotomy between low and high that stops inside from..to,
      where the ranks before from are too small and those from to on are too large. */
  ghost function Lands(low: nat, high: nat, from: nat, to: nat, last: nat): nat
    decreases high - low
  {
    if low >= high then last
    else
      var m := (low + high) / 2;
      if m >= to then Lands(low, m, from, to, m)
      else if m < from then Lands(m + 1, high, from, to, m)
      else m
  }

  /** The halving between low and high that ends on k ends by keeping the left half. */
  predicate EndsLeft(low: nat, high: nat, k: nat)
    decreases high - low
  {
    var m := (low + high) / 2;
    low < high && if m >= k then low == m || EndsLeft(low, m, k) else EndsLeft(m + 1, high, k)
  }

  /** The times that the timestamp search finds. The first late record must not be the last of
      several, and it must carry exactly that time or be the last rank that the search probes. */
  ghost predicate TimeReached(records: seq<Message>, time: int) {
    var from := Earlier(records, time);
    if |records| < 2 then from < |records|
    else from < |records| - 1 && (records[from].time == time || EndsLeft(0, |records| - 1, from))
  }

  lemma LandsOn(low: nat, high: nat, from: nat, to: nat, last: nat, m: nat)
    requires low < high && m == (low + high) / 2
    ensures low <= m < high
    ensures Lands(low, high, from, to, last) ==
            if m >= to then Lands(low, m, from, to, m) else if m < from then Lands(m + 1, high, from, to, m) else m
  {
  }

  lemma LandsDone(low: nat, high: nat, from: nat, to: nat, last: nat)
    requires low >= high
    ensures Lands(low, high, from, to, last) == last
  {
  }

  class InMemoryStream {
    const maxRecords: nat
    var records: seq<Message>

    constructor (maxRecords: nat)
      ensures records == [] && this.maxRecords == maxRecords
    {
      this.maxRecords := maxRecords;
      records := [];
    }

    method AddRecord(record: Message) returns (ok: bool)
      modifies this
      ensures ok <==> maxRecords == 0 || old(|records|) < maxRecords
      ensures records == old(records) + (if ok then [record] else [])
    {
      if maxRecords > 0 && |records| >= maxRecords {
        return false;
      }
      records := records + [record];
      return true;
    }

    method GetRecordAtIndex(index: nat) returns (r: Read)
      ensures r.Hit? <==> index < |records|
      ensures r.Hit? ==> r.record == records[index] && (r.more <==> index + 1 < |records|)
    {
      if index + 1 == |records| {
        return Hit(records[index], false);
      } else if index < |records| {
        return Hit(records[index], true);
      } else {
        return Nothing;
      }
    }

    method GetIndexAtMessageId(id: nat) returns (r: Search)
      ensures r.Found? ==> r.rank < |records| && records[r.rank].id == id
      ensures IdsIncrease(records) ==> (r.Found? <==> Reached(records, id))
    {
      if |records| == 0 {
        return Missing;
      }
      r := SearchById(id, |records| - 1);
    }

    method GetIndexAfterMessageId(id: nat) returns (r: Search)
      ensures r.Found? ==> 0 < r.rank <= |records| && records[r.rank - 1].id == id
      ensures IdsIncrease(records) ==> (r.Found? <==> Reached(records, id))
    {
      if |records| == 0 {
        return Missing;
      }
      r := SearchById(id, |records| - 1);
      if r.Found? {
        r := Found(r.rank + 1);
      }
    }

    /** Over increasing ids the search misses exactly the last rank of a log of two or more. */
    method SearchById(id: nat, lastRank: nat) returns (r: Search)
      requires lastRank + 1 == |records|
      ensures r.Found? ==> r.rank < |records| && records[r.rank].id == id
      ensures IdsIncrease(records) ==> (r.Found? <==> Reached(records, id))
    {
      var low, high, median := 0, lastRank, 0;
      while low < high
        invariant 0 <= low <= high <= lastRank && 0 <= median <= lastRank
        invariant IdsIncrease(records) ==> forall k | 0 <= k < low :: records[k].id < id
        invariant high < lastRank ==> records[high].id > id
        invariant lastRank > 0 ==> median < lastRank
        invariant (low == 0 && high == lastRank && median == 0) || records[median].id != id
      {
        median := (low + high) / 2;
        if records[median].id == id {
          return Found(median);
        }
        if records[median].id > id {
          high := median;
        } else {
          low := median + 1;
        }
      }
      if records[median].id == id {
        return Found(median);
      }
      return Missing;
    }

    method GetIndexAtTimestamp(time: int) returns (r: Search)
      ensures r.Found? ==> r.rank < |records| && records[r.rank].time >= time
      ensures TimesOrdered(records) ==> r == TimestampSearch(records, time)
      ensures TimesOrdered(records) ==> (r.Found? <==> TimeReached(records, time))
    {
      if |records| == 0 {
        return Missing;
      }
      r := SearchByTime(time, |records| - 1);
    }

    method SearchByTime(time: int, lastRank: nat) returns (r: Search)
      requires lastRank + 1 == |records|
      ensures r.Found? ==> r.rank < |records| && records[r.rank].time >= time
      ensures TimesOrdered(records) ==> r == TimestampSearch(records, time)
      ensures TimesOrdered(records) ==> (r.Found? <==> TimeReached(records, time))
    {
      ghost var from, to := Earlier(records, time), Earlier(records, time + 1);
      ghost var ordered, goal := TimesOrdered(records), Lands(0, lastRank, from, to, 0);
      SearchAnswer(records, time);
      hide *;
      var low, high, median := 0, lastRank, 0;
      while low < high
        invariant 0 <= low <= high <= lastRank && 0 <= median <= lastRank
        invariant ordered ==> Lands(low, high, from, to, median) == goal
      {
        ghost var last := median;
        median := (low + high) / 2;
        LandsOn(low, high, from, to, last, median);
        ProbedTime(records, time, median);
        if records[median].time == time {
          return Found(median);
        }
        if records[median].time > time {
          high := median;
        } else {
          low := median + 1;
        }
      }
      LandsDone(low, high, from, to, median);
      ProbedTime(records, time, median);
      if records[median].time >= time {
        return Found(median);
      }
      return Missing;
    }
  }

  lemma SearchAnswer(records: seq<Message>, time: int)
    requires records != []
    ensures
      var from, to := Earlier(records, time), Earlier(records, time + 1);
      var rank := Lands(0, |records| - 1, from, to, 0);
      && from <= to
      && TimestampSearch(records, time) == (if rank >= from then Found(rank) else Missing)
      && (TimesOrdered(records) ==> (TimestampSearch(records, time).Found? <==> TimeReached(records, time)))
  {
    EarlierGrows(records, time);
    if TimesOrdered(records) {
      TimestampSearchIsExact(records, time);
    }
  }

  /** In ordered records the rank of a record tells on which side of the time it is. */
  lemma ProbedTime(records: seq<Message>, time: int, rank: nat)
    requires rank < |records|
    ensures TimesOrdered(records) ==>
      && (records[rank].time < time <==> rank < Earlier(records, time))
      && (records[rank].time > time <==> rank >= Earlier(records, time + 1))
  {
    if TimesOrdered(records) {
      var from, to := Earlier(records, time), Earlier(records, time + 1);
      assert from < rank ==> records[from].time <= records[rank].time;
      assert to < rank ==> records[to].time <= records[rank].time;
    }
  }

  /** The timestamp search depends on three counts only: the records before the time, those at
      the time and all of them. It succeeds exactly when its last probe is not too early. */
  ghost function TimestampSearch(records: seq<Message>, time: int): Search {
    var from, to := Earlier(records, time), Earlier(records, time + 1);
    if |records| == 0 then Missing
    else
      var rank := Lands(0, |records| - 1, from, to, 0);
      if rank >= from then Found(rank) else Missing
  }

  /** A dichotomy aimed at from ends on from, inside from..to, or too early. */
  lemma {:induction false} LandsNear(low: nat, high: nat, from: nat, to: nat, last: nat)
    requires low <= from <= high && from <= to && (last == high || last < low || (last == 0 && low < high))
    ensures
      var rank := Lands(low, high, from, to, last);
      rank == from || from < rank < to || rank < from
    decreases high - low
  {
    if low < high {
      var m := (low + high) / 2;
      if m >= to {
        LandsNear(low, m, from, to, m);
      } else if m < from {
        LandsNear(m + 1, high, from, to, m);
      }
    }
  }

  lemma {:induction false} LandsEarly(low: nat, high: nat, from: nat, to: nat, last: nat)
    requires high < from <= to && last < from
    ensures Lands(low, high, from, to, last) < from
    decreases high - low
  {
    if low < high {
      LandsEarly((low + high) / 2 + 1, high, from, to, (low + high) / 2);
    }
  }

  lemma LandsInLog(records: seq<Message>, time: int)
    requires records != []
    ensures
      var from := Earlier(records, time);
      var rank := Lands(0, |records| - 1, from, Earlier(records, time + 1), 0);
      if from < |records| then rank <= from || rank < Earlier(records, time + 1) else rank < from
  {
    var from, to := Earlier(records, time), Earlier(records, time + 1);
    EarlierGrows(records, time);
    if from == |records| {
      LandsEarly(0, |records| - 1, from, to, 0);
    } else if |records| > 1 {
      LandsNear(0, |records| - 1, from, to, 0);
    }
  }

  /** A successful timestamp search returns the first record at or after the time, or one that
      carries exactly that time. It fails when every record is earlier. */
  lemma TimestampSearchIsSound(records: seq<Message>, time: int)
    requires TimesOrdered(records)
    ensures
      var r := TimestampSearch(records, time);
      && (r.Found? ==> r.rank < |records| && (r.rank == Earlier(records, time) || records[r.rank].time == time))
      && (Earlier(records, time) == |records| ==> r == Missing)
  {
    var r := TimestampSearch(records, time);
    if records != [] {
      LandsInLog(records, time);
      if r.Found? && r.rank != Earlier(records, time) {
        ProbedTime(records, time, r.rank);
      }
    }
  }

  /** Aimed at from with nothing in from..to to stop at, a dichotomy ends on from, and whether it
      has probed from depends on its last turn. Otherwise it stops inside unless from is its end. */
  lemma {:induction false} LandsExactly(low: nat, high: nat, from: nat, to: nat, last: nat)
    requires low < high && low <= from <= high && from <= to
    ensures Lands(low, high, from, to, last) >= from <==> if from < to then from < high else EndsLeft(low, high, from)
    decreases high - low
  {
    var m := (low + high) / 2;
    if m >= to {
      if low < m {
        LandsExactly(low, m, from, to, m);
      }
    } else if m < from {
      if m + 1 < high {
        LandsExactly(m + 1, high, from, to, m);
      }
    }
  }

  /** The search succeeds exactly on these times. When only the last of several records is late
      enough it is missed, and a time between two neighbours is found or missed by the shape of
      the halving. */
  lemma TimestampSearchIsExact(records: seq<Message>, time: int)
    requires TimesOrdered(records)
    ensures TimestampSearch(records, time).Found? <==> TimeReached(records, time)
  {
    var from, to := Earlier(records, time), Earlier(records, time + 1);
    hide Lands, Earlier, EndsLeft;
    EarlierGrows(records, time);
    if records == [] {
    } else if from == |records| {
      LandsEarly(0, |records| - 1, from, to, 0);
    } else if |records| == 1 {
      LandsAtOnce(from, to);
    } else {
      ProbedTime(records, time, from);
      LandsExactly(0, |records| - 1, from, to, 0);
      EndsInside(0, |records| - 1, from);
    }
  }

  /** A concrete miss: two of the three records are late enough and neither is found. */
  lemma LateRecordsMissed()
    ensures
      var records := [Message(1, 10, ""), Message(2, 20, ""), Message(3, 30, "")];
      Earlier(records, 15) == 1 && TimestampSearch(records, 15) == Missing
  {
    var records := [Message(1, 10, ""), Message(2, 20, ""), Message(3, 30, "")];
    assert Earlier(records, 15) == 1;
    assert !EndsLeft(1, 1, 1);
    TimestampSearchIsExact(records, 15);
  }

  /** A time at or before the first of several records always gives the first record or one of
      exactly that time. */
  lemma EarlyTimeIsFound(records: seq<Message>, time: int)
    requires TimesOrdered(records) && |records| >= 2 && records[0].time >= time
    ensures TimestampSearch(records, time).Found?
  {
    assert Earlier(records, time) == 0;
    EndsAtLow(0, |records| - 1);
    TimestampSearchIsExact(records, time);
  }

  lemma {:induction false} EndsAtLow(low: nat, high: nat)
    requires low < high
    ensures EndsLeft(low, high, low)
    decreases high - low
  {
    var m := (low + high) / 2;
    if low < m {
      EndsAtLow(low, m);
    }
  }

  lemma LandsAtOnce(from: nat, to: nat)
    ensures Lands(0, 0, from, to, 0) == 0
  {
  }

  lemma {:induction false} EndsInside(low: nat, high: nat, k: nat)
    ensures EndsLeft(low, high, k) ==> k < high
    decreases high - low
  {
    var m := (low + high) / 2;
    if low < high && m < k {
      EndsInside(m + 1, high, k);
    }
  }

  /** For a caller: a time that a record other than the last one carries is always found. */
  lemma StoredTimeIsFound(records: seq<Message>, time: int, r: nat)
    requires TimesOrdered(records) && r < |records| - 1 && records[r].time == time
    ensures
      var found := TimestampSearch(records, time);
      found.Found? && found.rank < |records| && records[found.rank].time == time
  {
    var from := Earlier(records, time);
    assert from <= r;
    assert from == r || records[from].time <= records[r].time;
    TimestampSearchIsExact(records, time);
    TimestampSearchIsSound(records, time);
  }

  lemma {:induction false} EarlierGrows(records: seq<Message>, time: int)
    ensures Earlier(records, time) <= Earlier(records, time + 1)
  {
    if records != [] {
      EarlierGrows(records[1..], time);
    }
  }
}
