/** The rows of a MySQL stream table: queries and pages, the window of decodable rows that a
    cursor covers, full pages of undecodable rows, and what a read-ahead may skip. */
module MySqlRows {
  import opened Records
  import opened Reading

  /** A row of the stream table. The message is None when its JSON does not decode. */
  datatype SqlRow = SqlRow(id: nat, time: int, message: Option<Message>)

  /** How a query ends: complete, refused, failing to scan the row of the given rank, or with a
      connection that breaks before that row, which looks like the end of the result set. */
  datatype QueryFate = Complete | Refused | ScanFails(at: nat) | CutShort(at: nat)

  /** How many rows of a page of the given size are read. */
  function RowsRead(fate: QueryFate, size: nat): (n: nat)
    ensures n <= size
  {
    match fate
    case ScanFails(at) => if at < size then at else size
    case CutShort(at) => if at < size then at else size
    case _ => size
  }

  predicate Ascending(rows: seq<SqlRow>) {
    forall i, j | 0 <= i < j < |rows| :: rows[i].id < rows[j].id
  }

  /** The rows that decode, in order. */
  function Decodable(rows: seq<SqlRow>): seq<SqlRow> {
    if rows == [] then []
    else if rows[|rows| - 1].message.Some? then Decodable(rows[..|rows| - 1]) + [rows[|rows| - 1]]
    else Decodable(rows[..|rows| - 1])
  }

  /** The rows with from <= id, in order. */
  function Query(rows: seq<SqlRow>, from: nat): (page: seq<SqlRow>)
    ensures |page| <= |rows|
    ensures forall r | r in page :: r in rows && r.id >= from
  {
    if rows == [] then []
    else if rows[|rows| - 1].id >= from then Query(rows[..|rows| - 1], from) + [rows[|rows| - 1]]
    else Query(rows[..|rows| - 1], from)
  }

  /** The answer to SELECT ... WHERE id >= from ORDER BY id LIMIT limit. */
  function Select(rows: seq<SqlRow>, from: nat, limit: nat): (page: seq<SqlRow>)
    ensures |page| <= limit && page <= Query(rows, from)
  {
    if limit <= |Query(rows, from)| then Query(rows, from)[..limit] else Query(rows, from)
  }

  /** The decodable rows with from <= id < to, by one scan of the table. */
  function Window(rows: seq<SqlRow>, from: nat, to: nat): seq<SqlRow> {
    if rows == [] then []
    else
      var r := rows[|rows| - 1];
      if from <= r.id < to && r.message.Some? then Window(rows[..|rows| - 1], from, to) + [r]
      else Window(rows[..|rows| - 1], from, to)
  }

  function Payload(rows: seq<SqlRow>): (items: seq<Item>)
    ensures |items| == |rows|
  {
    seq(|rows|, k requires 0 <= k < |rows| => rows[k].message)
  }

  function Top(rows: seq<SqlRow>): nat {
    if rows == [] then 0 else rows[|rows| - 1].id
  }

  /** The id to query next after a page: just above its last decodable row, if it has one. */
  function NextId(from: nat, decoded: seq<SqlRow>): nat {
    if decoded == [] then from else decoded[|decoded| - 1].id + 1
  }

  /** What the index and the handlers of a stream rely on. */
  ghost predicate Consistent(rows: seq<SqlRow>, readable: Counters) {
    && Ascending(rows) && (forall r | r in rows :: r.id > 0)
    && readable.lastId <= Top(rows) && readable.firstId <= 1
  }

  // ---------------------------------------------------------------- facts about ordered rows

  lemma {:induction false} EmptyWindow(rows: seq<SqlRow>, id: nat)
    ensures Window(rows, id, id) == []
  {
    if rows != [] {
      EmptyWindow(rows[..|rows| - 1], id);
    }
  }

  lemma {:induction false} WindowSplit(rows: seq<SqlRow>, a: nat, b: nat, c: nat)
    requires Ascending(rows) && a <= b <= c
    ensures Window(rows, a, c) == Window(rows, a, b) + Window(rows, b, c)
  {
    if rows != [] {
      var init, r := rows[..|rows| - 1], rows[|rows| - 1];
      WindowSplit(init, a, b, c);
      if r.id < b {
        WindowAbove(init, b, c);
      }
    }
  }

  lemma {:induction false} WindowAbove(rows: seq<SqlRow>, from: nat, to: nat)
    requires forall r | r in rows :: r.id < from
    ensures Window(rows, from, to) == []
  {
    if rows != [] {
      WindowAbove(rows[..|rows| - 1], from, to);
    }
  }

  lemma {:induction false} QueryAscending(rows: seq<SqlRow>, from: nat)
    requires Ascending(rows)
    ensures Ascending(Query(rows, from))
  {
    if rows != [] {
      var init := rows[..|rows| - 1];
      QueryAscending(init, from);
      forall r | r in init
        ensures r.id < rows[|rows| - 1].id
      {
        var k :| 0 <= k < |init| && init[k] == r;
        assert rows[k] == r;
      }
    }
  }

  /** A page is the rows from an id on with the smallest ids, in order, and as many as fit. */
  lemma {:induction false} PageIs(rows: seq<SqlRow>, from: nat, limit: nat)
    requires Ascending(rows)
    ensures
      var page := Select(rows, from, limit);
      && Ascending(page) && |page| <= limit
      && (forall r | r in page :: r in rows && r.id >= from)
      && (forall r | r in rows && r.id >= from ::
            r in page || (|page| == limit && forall s | s in page :: s.id < r.id))
  {
    QueryAscending(rows, from);
    QueryHas(rows, from);
    var all, page := Query(rows, from), Select(rows, from, limit);
    hide Query;
    assert forall k | 0 <= k < |page| :: all[k] == page[k] && all[k] in page;
    forall r | r in all && r !in page
      ensures |page| == limit && forall s | s in page :: s.id < r.id
    {
      var k :| 0 <= k < |all| && all[k] == r;
    }
  }

  lemma {:induction false} QueryHas(rows: seq<SqlRow>, from: nat)
    ensures forall r | r in rows && r.id >= from :: r in Query(rows, from)
  {
    if rows != [] {
      QueryHas(rows[..|rows| - 1], from);
    }
  }

  /** A window is the decodable rows with an id in the range, in order. */
  lemma {:induction false} WindowIs(rows: seq<SqlRow>, from: nat, to: nat)
    ensures forall r :: r in Window(rows, from, to) <==> r in rows && from <= r.id < to && r.message.Some?
    ensures Ascending(rows) ==> Ascending(Window(rows, from, to))
  {
    if rows != [] {
      var init, r := rows[..|rows| - 1], rows[|rows| - 1];
      WindowIs(init, from, to);
      if Ascending(rows) {
        forall s | s in init
          ensures s.id < r.id
        {
          var k :| 0 <= k < |init| && init[k] == s;
          assert rows[k] == s;
        }
      }
    }
  }

  /** The decodable rows, in order: all of them and no others. */
  lemma {:induction false} DecodableIs(rows: seq<SqlRow>)
    ensures forall r :: r in Decodable(rows) <==> r in rows && r.message.Some?
    ensures Ascending(rows) ==> Ascending(Decodable(rows))
  {
    if rows != [] {
      var init, r := rows[..|rows| - 1], rows[|rows| - 1];
      DecodableIs(init);
      if Ascending(rows) {
        forall s | s in init
          ensures s.id < r.id
        {
          var k :| 0 <= k < |init| && init[k] == s;
          assert rows[k] == s;
        }
      }
    }
  }

  /** The rows with from <= id < to, decodable or not. */
  ghost function Between(rows: seq<SqlRow>, from: nat, to: nat): (part: seq<SqlRow>)
    ensures forall r | r in part :: from <= r.id < to
  {
    if rows == [] then []
    else if from <= rows[|rows| - 1].id < to then Between(rows[..|rows| - 1], from, to) + [rows[|rows| - 1]]
    else Between(rows[..|rows| - 1], from, to)
  }

  lemma {:induction false} WindowDecodes(rows: seq<SqlRow>, from: nat, to: nat)
    ensures Window(rows, from, to) == Decodable(Between(rows, from, to))
  {
    if rows != [] {
      WindowDecodes(rows[..|rows| - 1], from, to);
    }
  }

  lemma {:induction false} QueryNone(rows: seq<SqlRow>, from: nat)
    requires forall r | r in rows :: r.id < from
    ensures Query(rows, from) == []
  {
    if rows != [] {
      QueryNone(rows[..|rows| - 1], from);
    }
  }

  lemma {:induction false} QuerySplit(rows: seq<SqlRow>, from: nat, to: nat)
    requires Ascending(rows) && from <= to
    ensures Query(rows, from) == Between(rows, from, to) + Query(rows, to)
  {
    if rows != [] {
      QuerySplit(rows[..|rows| - 1], from, to);
      if rows[|rows| - 1].id < to {
        QueryNone(rows[..|rows| - 1], to);
      }
    }
  }

  /** Where an ascending page is cut by the id of its row n - 1. */
  lemma CutAt(page: seq<SqlRow>, part: seq<SqlRow>, rest: seq<SqlRow>, n: nat)
    requires Ascending(page) && page == part + rest && 0 < n <= |page|
    requires forall r | r in part :: r.id <= page[n - 1].id
    requires forall r | r in rest :: r.id > page[n - 1].id
    ensures |part| == n && page[..n] == part
  {
    forall k | 0 <= k < |page|
      ensures page[k].id <= page[n - 1].id <==> k < |part|
    {
      assert page[k] == if k < |part| then part[k] else rest[k - |part|];
    }
    var last := n - 1;
    assert page[last].id <= page[n - 1].id;
    if n < |page| {
      assert page[n].id > page[n - 1].id;
    }
  }

  /** A window that ends just above the row of rank n - 1 of a query holds the decodable ones
      of its first n rows, and the query from there on has the others. */
  lemma PageWindow(rows: seq<SqlRow>, from: nat, n: nat)
    requires Ascending(rows) && 0 < n <= |Query(rows, from)|
    ensures
      var page := Query(rows, from);
      var to := page[n - 1].id + 1;
      && Window(rows, from, to) == Decodable(page[..n])
      && |Query(rows, to)| == |page| - n
  {
    hide Decodable, Query, Window, Between;
    var page := Query(rows, from);
    var to := page[n - 1].id + 1;
    var part, rest := Between(rows, from, to), Query(rows, to);
    assert Ascending(page) by { QueryAscending(rows, from); }
    assert page == part + rest by { QuerySplit(rows, from, to); }
    CutAt(page, part, rest, n);
    WindowDecodes(rows, from, to);
  }

  lemma {:induction false} DecodableEmpty(rows: seq<SqlRow>)
    ensures Decodable(rows) == [] <==> forall r | r in rows :: r.message.None?
    ensures |Decodable(rows)| <= |rows|
    ensures forall r | r in Decodable(rows) :: r in rows && r.message.Some?
  {
    if rows != [] {
      DecodableEmpty(rows[..|rows| - 1]);
      assert rows == rows[..|rows| - 1] + [rows[|rows| - 1]];
    }
  }

  lemma {:induction false} LastDecodable(rows: seq<SqlRow>) returns (n: nat)
    requires Decodable(rows) != []
    ensures 0 < n <= |rows| && Decodable(rows[..n]) == Decodable(rows)
    ensures Decodable(rows)[|Decodable(rows)| - 1] == rows[n - 1] && rows[n - 1].message.Some?
  {
    var init := rows[..|rows| - 1];
    if rows[|rows| - 1].message.Some? {
      n := |rows|;
      assert rows[..n] == rows;
    } else {
      n := LastDecodable(init);
      assert init[..n] == rows[..n];
    }
  }

  lemma TopIsLargest(rows: seq<SqlRow>)
    requires Ascending(rows)
    ensures forall r | r in rows :: r.id <= Top(rows)
  {
  }

  lemma PageUpTo(rows: seq<SqlRow>, from: nat, read: seq<SqlRow>) returns (to: nat)
    requires Ascending(rows) && read <= Query(rows, from) && Decodable(read) != []
    ensures to == NextId(from, Decodable(read)) && from <= to <= Top(rows) + 1
    ensures Window(rows, from, to) == Decodable(read)
    ensures |Decodable(read)| + |Query(rows, to)| <= |Query(rows, from)|
  {
    hide Decodable, Query, Window;
    var page := Query(rows, from);
    var n := LastDecodable(read);
    assert page[..n] == read[..n] && page[n - 1] == read[n - 1];
    NextIdIs(read, page, n, from);
    to := page[n - 1].id + 1;
    PageWindow(rows, from, n);
    PageTop(rows, from, n);
  }

  /** Reading the first rows of a page covers exactly the window up to the next id, although
      the next id does not move past undecodable rows at the end of them. */
  lemma FillWindow(rows: seq<SqlRow>, from: nat, read: seq<SqlRow>)
    requires Ascending(rows) && from <= Top(rows) + 1 && read <= Query(rows, from)
    ensures Window(rows, from, NextId(from, Decodable(read))) == Decodable(read)
    ensures from <= NextId(from, Decodable(read)) <= Top(rows) + 1
    ensures |Decodable(read)| + |Query(rows, NextId(from, Decodable(read)))| <= |Query(rows, from)|
  {
    if Decodable(read) == [] {
      EmptyWindow(rows, from);
    } else {
      var to := PageUpTo(rows, from, read);
    }
  }

  lemma NextIdIs(read: seq<SqlRow>, page: seq<SqlRow>, n: nat, from: nat)
    requires Decodable(read) != [] && 0 < n <= |page|
    requires Decodable(read)[|Decodable(read)| - 1] == page[n - 1]
    ensures NextId(from, Decodable(read)) == page[n - 1].id + 1
  {
  }

  lemma PageTop(rows: seq<SqlRow>, from: nat, n: nat)
    requires Ascending(rows) && 0 < n <= |Query(rows, from)|
    ensures from <= Query(rows, from)[n - 1].id <= Top(rows)
    ensures |Decodable(Query(rows, from)[..n])| <= n
  {
    TopIsLargest(rows);
    DecodableEmpty(Query(rows, from)[..n]);
    assert Query(rows, from)[n - 1] in rows;
  }

  /** Appending rows above the top changes no window that ends at most just above the top. */
  lemma {:induction false} GrowKeepsWindow(rows: seq<SqlRow>, more: seq<SqlRow>, from: nat, to: nat)
    requires forall r | r in more :: r.id >= to
    ensures Window(rows + more, from, to) == Window(rows, from, to)
    ensures |Query(rows + more, to)| <= |Query(rows, to)| + |more|
  {
    if more == [] {
      assert rows + more == rows;
    } else {
      assert (rows + more)[..|rows + more| - 1] == rows + more[..|more| - 1];
      GrowKeepsWindow(rows, more[..|more| - 1], from, to);
    }
  }

  // ---------------------------------------------------------------- gaps

  /** How many leading rows of an ascending table come before the id. */
  function Begin(rows: seq<SqlRow>, from: nat): (k: nat)
    ensures k <= |rows|
  {
    if rows == [] then 0
    else if rows[|rows| - 1].id < from then |rows|
    else Begin(rows[..|rows| - 1], from)
  }

  lemma BelowLast(rows: seq<SqlRow>)
    requires Ascending(rows) && rows != []
    ensures Ascending(rows[..|rows| - 1])
    ensures forall r | r in rows[..|rows| - 1] :: r.id < rows[|rows| - 1].id
  {
  }

  lemma {:induction false} BeginSplits(rows: seq<SqlRow>, from: nat)
    requires Ascending(rows)
    ensures forall i | 0 <= i < |rows| :: rows[i].id < from <==> i < Begin(rows, from)
  {
    if rows != [] {
      var init := rows[..|rows| - 1];
      BelowLast(rows);
      hide Ascending;
      BeginSplits(init, from);
      assert forall i | 0 <= i < |init| :: rows[i] == init[i] && init[i] in init;
    }
  }

  /** The rows of a query end the table, because ids only grow. */
  lemma {:induction false} QueryIsTail(rows: seq<SqlRow>, from: nat)
    requires Ascending(rows)
    ensures Query(rows, from) == rows[Begin(rows, from)..]
  {
    if rows != [] {
      var init, r := rows[..|rows| - 1], rows[|rows| - 1];
      BelowLast(rows);
      hide Ascending;
      if r.id >= from {
        QueryIsTail(init, from);
        assert init[Begin(init, from)..] + [r] == rows[Begin(init, from)..];
      } else {
        QueryNone(init, from);
      }
    }
  }

  /** A run of undecodable rows that fills a page. */
  ghost predicate GapAt(rows: seq<SqlRow>, k: nat, size: nat) {
    k < |rows| && k + size <= |rows| && forall i | k <= i < k + size :: rows[i].message.None?
  }

  /** The cursor read up to a decodable row just below the next id, or nothing at all. */
  ghost predicate ReadUpTo(rows: seq<SqlRow>, start: nat, next: nat) {
    next == start || exists i | 0 <= i < |rows| :: rows[i].id + 1 == next && rows[i].message.Some?
  }

  /** How far a cursor gets: the next id is just above a decodable row and beyond no gap. */
  ghost predicate StopsAtGaps(rows: seq<SqlRow>, size: nat, start: nat, next: nat) {
    && ReadUpTo(rows, start, next)
    && forall k: nat | GapAt(rows, k, size) && start <= rows[k].id :: next <= rows[k].id
  }

  /** The rank of the last decodable row of a part of a page. */
  lemma LastRead(rows: seq<SqlRow>, from: nat, read: seq<SqlRow>) returns (i: nat)
    requires Ascending(rows) && read <= Query(rows, from) && Decodable(read) != []
    ensures Begin(rows, from) <= i < |rows| && i < Begin(rows, from) + |read|
    ensures rows[i].message.Some? && NextId(from, Decodable(read)) == rows[i].id + 1
  {
    QueryIsTail(rows, from);
    hide Ascending, Query, Begin;
    var n := LastDecodable(read);
    hide Decodable;
    i := Begin(rows, from) + n - 1;
    assert read[n - 1] == rows[Begin(rows, from)..][n - 1] == rows[i];
  }

  /** The last decodable row read of a page that starts at or before a gap comes before the gap. */
  lemma PageStopsAtGap(rows: seq<SqlRow>, from: nat, read: seq<SqlRow>, size: nat, k: nat)
    requires Ascending(rows) && GapAt(rows, k, size) && from <= rows[k].id
    requires read <= Query(rows, from) && |read| <= size
    ensures NextId(from, Decodable(read)) <= rows[k].id
  {
    hide Query, Decodable;
    if Decodable(read) != [] {
      var i := LastRead(rows, from, read);
      BeginSplits(rows, from);
      hide Begin;
      assert i < k;
    }
  }

  lemma FillReads(rows: seq<SqlRow>, start: nat, from: nat, read: seq<SqlRow>)
    requires Ascending(rows) && ReadUpTo(rows, start, from) && read <= Query(rows, from)
    ensures ReadUpTo(rows, start, NextId(from, Decodable(read)))
  {
    hide Query, Decodable, Ascending;
    if Decodable(read) != [] {
      var i := LastRead(rows, from, read);
    }
  }

  lemma FillStops(rows: seq<SqlRow>, size: nat, start: nat, from: nat, read: seq<SqlRow>)
    requires Ascending(rows) && start <= from && StopsAtGaps(rows, size, start, from)
    requires read <= Query(rows, from) && |read| <= size
    ensures StopsAtGaps(rows, size, start, NextId(from, Decodable(read)))
  {
    hide Query, Decodable, Ascending, ReadUpTo;
    FillReads(rows, start, from, read);
    forall k: nat | GapAt(rows, k, size) && start <= rows[k].id
      ensures NextId(from, Decodable(read)) <= rows[k].id
    {
      PageStopsAtGap(rows, from, read, size, k);
    }
  }

  lemma ReadMore(rows: seq<SqlRow>, more: seq<SqlRow>, start: nat, next: nat)
    requires ReadUpTo(rows, start, next)
    ensures ReadUpTo(rows + more, start, next)
  {
    if next != start {
      var i :| 0 <= i < |rows| && rows[i].id + 1 == next && rows[i].message.Some?;
      assert (rows + more)[i] == rows[i];
    }
  }

  /** A gap that appended rows complete starts above the last row read. */
  lemma NewGapIsAbove(rows: seq<SqlRow>, more: seq<SqlRow>, size: nat, start: nat, next: nat, k: nat)
    requires Ascending(rows + more) && ReadUpTo(rows, start, next) && k < |rows| < k + size
    requires GapAt(rows + more, k, size) && start <= rows[k].id
    ensures next <= rows[k].id
  {
    if next != start {
      var i :| 0 <= i < |rows| && rows[i].id + 1 == next && rows[i].message.Some?;
      assert (rows + more)[i] == rows[i] && (rows + more)[k] == rows[k];
      assert i < k;
    }
  }

  lemma GrowStops(rows: seq<SqlRow>, more: seq<SqlRow>, size: nat, start: nat, next: nat)
    requires Ascending(rows + more) && next <= Top(rows) + 1 && StopsAtGaps(rows, size, start, next)
    requires forall r | r in more :: r.id > Top(rows)
    ensures StopsAtGaps(rows + more, size, start, next)
  {
    var all := rows + more;
    ReadMore(rows, more, start, next);
    hide ReadUpTo, Ascending;
    forall k: nat | GapAt(all, k, size) && start <= all[k].id
      ensures next <= all[k].id
    {
      if k >= |rows| {
        assert all[k] in more;
      } else if k + size <= |rows| {
        assert forall i | k <= i < k + size :: rows[i] == all[i];
        assert GapAt(rows, k, size) && all[k] == rows[k];
      } else {
        NewGapIsAbove(rows, more, size, start, next, k);
      }
    }
  }

  lemma {:induction false} DecodableConcat(a: seq<SqlRow>, b: seq<SqlRow>)
    ensures Decodable(a + b) == Decodable(a) + Decodable(b)
  {
    if b == [] {
      assert a + b == a;
    } else {
      assert (a + b)[..|a + b| - 1] == a + b[..|b| - 1];
      DecodableConcat(a, b[..|b| - 1]);
    }
  }

  /** Some decodable row stands behind a gap at or above the start. */
  ghost predicate HiddenByGap(rows: seq<SqlRow>, size: nat, start: nat) {
    exists k: nat :: GapAt(rows, k, size) && start <= rows[k].id && Decodable(rows[k + size..]) != []
  }

  lemma UndecodableTail(rows: seq<SqlRow>, j: nat, k: nat)
    requires j <= k <= |rows| && Decodable(rows[j..]) == []
    ensures Decodable(rows[k..]) == []
  {
    assert rows[j..] == rows[j..k] + rows[k..];
    DecodableConcat(rows[j..k], rows[k..]);
  }

  lemma PageIsGap(rows: seq<SqlRow>, j: nat, size: nat)
    requires j < |rows| && j + size <= |rows| && Decodable(rows[j..][..size]) == []
    ensures GapAt(rows, j, size) && Decodable(rows[j..]) == Decodable(rows[j + size..])
  {
    var page := rows[j..][..size];
    DecodableEmpty(page);
    forall i | j <= i < j + size
      ensures rows[i].message.None?
    {
      assert page[i - j] == rows[i];
    }
    assert rows[j..] == page + rows[j + size..];
    DecodableConcat(page, rows[j + size..]);
  }

  lemma HiddenAt(rows: seq<SqlRow>, size: nat, start: nat, k: nat)
    requires GapAt(rows, k, size) && start <= rows[k].id && Decodable(rows[k + size..]) != []
    ensures HiddenByGap(rows, size, start)
  {
  }

  lemma Hidden(rows: seq<SqlRow>, size: nat, start: nat, from: nat, j: nat)
    requires j <= |rows| && Query(rows, from) == rows[j..] && (j < |rows| ==> start <= rows[j].id)
    requires Decodable(Select(rows, from, size)) == [] && Decodable(rows[j..]) != []
    ensures HiddenByGap(rows, size, start)
  {
    var tail := rows[j..];
    assert Decodable([]) == [] && Select(rows, from, size) == if size <= |tail| then tail[..size] else tail;
    hide *;
    assert tail != [] && size <= |tail|;
    PageIsGap(rows, j, size);
    HiddenAt(rows, size, start, j);
  }

  lemma NotHidden(rows: seq<SqlRow>, size: nat, start: nat, from: nat, j: nat)
    requires j <= |rows| && (forall i | 0 <= i < j :: rows[i].id < from) && Decodable(rows[j..]) == []
    requires StopsAtGaps(rows, size, start, from)
    ensures !HiddenByGap(rows, size, start)
  {
    hide Decodable, ReadUpTo;
    if HiddenByGap(rows, size, start) {
      var k: nat :| GapAt(rows, k, size) && start <= rows[k].id && Decodable(rows[k + size..]) != [];
      assert j <= k;
      UndecodableTail(rows, j, k + size);
    }
  }

  /** When a page has nothing to deliver, decodable rows are left exactly behind a gap. */
  lemma NothingLeftExactly(rows: seq<SqlRow>, size: nat, start: nat, from: nat)
    requires Ascending(rows) && start <= from && StopsAtGaps(rows, size, start, from)
    requires Decodable(Select(rows, from, size)) == []
    ensures Decodable(Query(rows, from)) == [] <==> !HiddenByGap(rows, size, start)
  {
    var j := Begin(rows, from);
    QueryIsTail(rows, from);
    BeginSplits(rows, from);
    hide *;
    if Decodable(rows[j..]) == [] {
      NotHidden(rows, size, start, from, j);
    } else {
      Hidden(rows, size, start, from, j);
    }
  }

  // ---------------------------------------------------------------- skipped rows

  /** The rows that are not among the given ones, in order. */
  ghost function Without(rows: seq<SqlRow>, gone: seq<SqlRow>): seq<SqlRow> {
    if rows == [] then []
    else if rows[|rows| - 1] in gone then Without(rows[..|rows| - 1], gone)
    else Without(rows[..|rows| - 1], gone) + [rows[|rows| - 1]]
  }

  lemma {:induction false} WithoutRows(rows: seq<SqlRow>, gone: seq<SqlRow>)
    ensures forall r :: r in Without(rows, gone) <==> r in rows && r !in gone
    ensures |Without(rows, gone)| <= |rows|
  {
    if rows != [] {
      WithoutRows(rows[..|rows| - 1], gone);
      assert rows == rows[..|rows| - 1] + [rows[|rows| - 1]];
    }
  }

  lemma {:induction false} WithoutConcat(a: seq<SqlRow>, b: seq<SqlRow>, gone: seq<SqlRow>)
    ensures Without(a + b, gone) == Without(a, gone) + Without(b, gone)
  {
    if b == [] {
      assert a + b == a;
    } else {
      assert (a + b)[..|a + b| - 1] == a + b[..|b| - 1];
      WithoutConcat(a, b[..|b| - 1], gone);
    }
  }

  lemma {:induction false} WithoutOthers(rows: seq<SqlRow>, gone: seq<SqlRow>)
    requires forall r | r in rows :: r !in gone
    ensures Without(rows, gone) == rows
  {
    if rows != [] {
      WithoutOthers(rows[..|rows| - 1], gone);
    }
  }

  lemma {:induction false} WithoutAll(rows: seq<SqlRow>, gone: seq<SqlRow>)
    requires forall r | r in rows :: r in gone
    ensures Without(rows, gone) == []
  {
    if rows != [] {
      WithoutAll(rows[..|rows| - 1], gone);
    }
  }

  lemma {:induction false} WithoutTwice(rows: seq<SqlRow>, gone: seq<SqlRow>, more: seq<SqlRow>)
    ensures Without(rows, gone + more) == Without(Without(rows, gone), more)
  {
    if rows != [] {
      var init, r := rows[..|rows| - 1], rows[|rows| - 1];
      WithoutTwice(init, gone, more);
      if r !in gone {
        assert (Without(init, gone) + [r])[..|Without(init, gone)|] == Without(init, gone);
      }
    }
  }

  lemma {:induction false} WithoutOne(rows: seq<SqlRow>, gone: seq<SqlRow>, r: SqlRow)
    requires r in rows && r in gone
    ensures |Without(rows, gone)| < |rows|
  {
    var init := rows[..|rows| - 1];
    assert rows == init + [rows[|rows| - 1]];
    WithoutRows(init, gone);
    if rows[|rows| - 1] !in gone {
      WithoutOne(init, gone, r);
    }
  }

  /** No row of an ascending table is there twice. */
  ghost predicate Distinct(rows: seq<SqlRow>) {
    forall i, j | 0 <= i < j < |rows| :: rows[i] != rows[j]
  }

  lemma DistinctMore(rows: seq<SqlRow>, r: SqlRow)
    requires Distinct(rows) && r !in rows
    ensures Distinct(rows + [r])
  {
  }

  lemma {:induction false} WindowRows(rows: seq<SqlRow>, from: nat, to: nat)
    ensures forall r | r in Window(rows, from, to) :: r in rows && from <= r.id < to && r.message.Some?
  {
    if rows != [] {
      WindowRows(rows[..|rows| - 1], from, to);
      assert rows == rows[..|rows| - 1] + [rows[|rows| - 1]];
    }
  }

  lemma {:induction false} WindowDistinct(rows: seq<SqlRow>, from: nat, to: nat)
    requires Ascending(rows)
    ensures Distinct(Window(rows, from, to))
  {
    if rows != [] {
      var init, r := rows[..|rows| - 1], rows[|rows| - 1];
      BelowLast(rows);
      hide Ascending, Distinct;
      WindowDistinct(init, from, to);
      WindowRows(init, from, to);
      assert r !in Window(init, from, to);
      DistinctMore(Window(init, from, to), r);
    } else {
      assert Distinct([]);
    }
  }

  lemma {:induction false} WithoutDistinct(rows: seq<SqlRow>, gone: seq<SqlRow>)
    requires Distinct(rows)
    ensures Distinct(Without(rows, gone))
  {
    if rows != [] {
      var init, r := rows[..|rows| - 1], rows[|rows| - 1];
      assert r !in init;
      WithoutDistinct(init, gone);
      WithoutRows(init, gone);
      hide Distinct, Without;
      DistinctMore(Without(init, gone), r);
    }
  }

  lemma DistinctSplit(a: seq<SqlRow>, b: seq<SqlRow>)
    requires Distinct(a + b)
    ensures Distinct(a) && Distinct(b) && forall r | r in a :: r !in b
  {
    assert forall i | 0 <= i < |a| :: (a + b)[i] == a[i];
    assert forall j | 0 <= j < |b| :: (a + b)[|a| + j] == b[j];
  }

  /** Taking out the head of the unread rows leaves the delivered ones and the tail. */
  lemma WithoutHead(delivered: seq<SqlRow>, unread: seq<SqlRow>, k: nat)
    requires Distinct(delivered + unread) && k <= |unread|
    ensures Without(delivered + unread, unread[..k]) == delivered + unread[k..]
  {
    var head, tail := unread[..k], unread[k..];
    DistinctSplit(delivered, unread);
    assert unread == head + tail;
    DistinctSplit(head, tail);
    hide Distinct, Without;
    WithoutConcat(delivered, unread, head);
    WithoutConcat(head, tail, head);
    WithoutOthers(delivered, head);
    WithoutAll(head, head);
    WithoutOthers(tail, head);
    assert [] + tail == tail;
  }

  // ---------------------------------------------------------------- the cursor on values

  /** The read-ahead refines a plain cursor: what was delivered, followed by what is still in the
      buffer, is the decodable rows from the start up to the next id, but for the skipped ones. */
  ghost predicate Accounts(window: seq<SqlRow>, delivered: seq<SqlRow>, unread: seq<SqlRow>, skipped: seq<SqlRow>) {
    && delivered + unread == Without(window, skipped)
    && forall r | r in skipped :: r in window
  }

  ghost predicate Tracks(rows: seq<SqlRow>, size: nat, start: nat, next: nat,
                         delivered: seq<SqlRow>, unread: seq<SqlRow>, skipped: seq<SqlRow>) {
    && start <= next <= Top(rows) + 1
    && StopsAtGaps(rows, size, start, next)
    && Accounts(Window(rows, start, next), delivered, unread, skipped)
  }

  lemma TracksPlaced(rows: seq<SqlRow>, size: nat, next: nat)
    requires next <= Top(rows) + 1
    ensures Tracks(rows, size, next, next, [], [], [])
  {
    EmptyWindow(rows, next);
  }

  lemma AccountsMore(window: seq<SqlRow>, more: seq<SqlRow>, delivered: seq<SqlRow>, skipped: seq<SqlRow>)
    requires Accounts(window, delivered, [], skipped) && forall r | r in more :: r !in window
    ensures Accounts(window + more, delivered, more, skipped)
  {
    WithoutConcat(window, more, skipped);
    WithoutOthers(more, skipped);
    assert delivered + [] == delivered;
  }

  lemma DecodedFrom(rows: seq<SqlRow>, from: nat, read: seq<SqlRow>)
    requires read <= Query(rows, from)
    ensures forall r | r in Decodable(read) :: r.id >= from
  {
    DecodableEmpty(read);
    forall r | r in Decodable(read)
      ensures r.id >= from
    {
      var k :| 0 <= k < |read| && read[k] == r;
      assert Query(rows, from)[k] == r;
    }
  }

  /** Reading any first rows of a page. */
  lemma TracksFill(rows: seq<SqlRow>, size: nat, start: nat, from: nat,
                   delivered: seq<SqlRow>, skipped: seq<SqlRow>, read: seq<SqlRow>)
    requires Ascending(rows) && Tracks(rows, size, start, from, delivered, [], skipped)
    requires read <= Query(rows, from) && |read| <= size
    ensures Tracks(rows, size, start, NextId(from, Decodable(read)), delivered, Decodable(read), skipped)
    ensures |Decodable(read)| + |Query(rows, NextId(from, Decodable(read)))| <= |Query(rows, from)|
  {
    hide StopsAtGaps, Accounts, Ascending, Decodable, Query, Window;
    var next := NextId(from, Decodable(read));
    FillWindow(rows, from, read);
    FillStops(rows, size, start, from, read);
    WindowSplit(rows, start, from, next);
    WindowRows(rows, start, from);
    DecodedFrom(rows, from, read);
    AccountsMore(Window(rows, start, from), Decodable(read), delivered, skipped);
  }

  /** Skipping the head of the unread rows. */
  lemma TracksSkip(rows: seq<SqlRow>, size: nat, start: nat, next: nat,
                   delivered: seq<SqlRow>, unread: seq<SqlRow>, skipped: seq<SqlRow>, k: nat)
    requires Ascending(rows) && Tracks(rows, size, start, next, delivered, unread, skipped) && k <= |unread|
    ensures Tracks(rows, size, start, next, delivered, unread[k..], skipped + unread[..k])
  {
    var window := Window(rows, start, next);
    WindowDistinct(rows, start, next);
    hide StopsAtGaps, Ascending, Window, Distinct, Without;
    WithoutDistinct(window, skipped);
    WithoutHead(delivered, unread, k);
    WithoutTwice(window, skipped, unread[..k]);
    WithoutRows(window, skipped);
    forall r | r in unread[..k]
      ensures r in window
    {
      assert r in unread && r in delivered + unread;
    }
  }

  lemma TracksPop(rows: seq<SqlRow>, size: nat, start: nat, next: nat,
                  delivered: seq<SqlRow>, unread: seq<SqlRow>, skipped: seq<SqlRow>)
    requires Tracks(rows, size, start, next, delivered, unread, skipped) && unread != []
    ensures Tracks(rows, size, start, next, delivered + [unread[0]], unread[1..], skipped)
  {
    assert delivered + unread == (delivered + [unread[0]]) + unread[1..];
  }

  lemma TracksGrow(rows: seq<SqlRow>, more: seq<SqlRow>, size: nat, start: nat, next: nat,
                   delivered: seq<SqlRow>, unread: seq<SqlRow>, skipped: seq<SqlRow>)
    requires Tracks(rows, size, start, next, delivered, unread, skipped)
    requires Ascending(rows + more) && forall r | r in more :: r.id > Top(rows)
    ensures Tracks(rows + more, size, start, next, delivered, unread, skipped)
    ensures |Query(rows + more, next)| <= |Query(rows, next)| + |more|
  {
    hide Accounts, Ascending, StopsAtGaps;
    GrowStops(rows, more, size, start, next);
    GrowKeepsWindow(rows, more, start, next);
    assert more == [] ==> rows + more == rows;
    assert more != [] ==> Top(rows + more) == more[|more| - 1].id && more[|more| - 1] in more;
  }

  /** Skipped rows are missing for good: they are decodable rows behind the cursor that were not
      delivered and are not in the buffer. */
  lemma SkippedIsLost(rows: seq<SqlRow>, size: nat, start: nat, next: nat,
                      delivered: seq<SqlRow>, unread: seq<SqlRow>, skipped: seq<SqlRow>)
    requires Tracks(rows, size, start, next, delivered, unread, skipped)
    ensures forall r | r in skipped :: r in Window(rows, start, next) && r !in delivered + unread
    ensures skipped == [] <==> delivered + unread == Window(rows, start, next)
  {
    var window := Window(rows, start, next);
    hide StopsAtGaps, Window, Without;
    WithoutRows(window, skipped);
    if skipped == [] {
      WithoutOthers(window, skipped);
    } else {
      WithoutOne(window, skipped, skipped[0]);
    }
  }

  /** Everything the cursor holds stands before every gap at or above the start. */
  lemma BeforeGap(rows: seq<SqlRow>, size: nat, start: nat, next: nat,
                  delivered: seq<SqlRow>, unread: seq<SqlRow>, skipped: seq<SqlRow>, k: nat)
    requires Tracks(rows, size, start, next, delivered, unread, skipped)
    requires GapAt(rows, k, size) && start <= rows[k].id
    ensures forall r | r in delivered + unread :: r.id < rows[k].id
  {
    assert next <= rows[k].id;
    hide StopsAtGaps, Window, Without, GapAt;
    WithoutRows(Window(rows, start, next), skipped);
    WindowRows(rows, start, next);
  }

  /** The decodable rows from the start on are the window and what is left above the next id. */
  lemma WindowThenRest(rows: seq<SqlRow>, start: nat, next: nat)
    requires Ascending(rows) && start <= next
    ensures Decodable(Query(rows, start)) == Window(rows, start, next) + Decodable(Query(rows, next))
  {
    hide Ascending, Decodable, Query, Window, Between;
    QuerySplit(rows, start, next);
    DecodableConcat(Between(rows, start, next), Query(rows, next));
    WindowDecodes(rows, start, next);
  }

  /** With nothing to deliver, exactly a skipped row or a gap keeps the cursor from having
      delivered every decodable row from its start on. */
  lemma DeliveredAllExactly(rows: seq<SqlRow>, size: nat, start: nat, next: nat,
                            delivered: seq<SqlRow>, skipped: seq<SqlRow>)
    requires Ascending(rows) && Tracks(rows, size, start, next, delivered, [], skipped)
    requires Decodable(Select(rows, next, size)) == []
    ensures delivered == Decodable(Query(rows, start)) <==> skipped == [] && !HiddenByGap(rows, size, start)
  {
    NothingLeftExactly(rows, size, start, next);
    WindowThenRest(rows, start, next);
    SkippedIsLost(rows, size, start, next, delivered, [], skipped);
    WithoutRows(Window(rows, start, next), skipped);
    hide Ascending, Decodable, Query, Select, Window, Without, HiddenByGap, StopsAtGaps;
    assert delivered + [] == delivered;
    assert |delivered| <= |Window(rows, start, next)|;
    assert Decodable(Query(rows, next)) == [] ==> Window(rows, start, next) + [] == Window(rows, start, next);
  }
}
