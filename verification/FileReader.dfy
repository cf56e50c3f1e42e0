/** The JSON-file iterator handler: a buffered reader over an append-only data file, with a
    physical offset that is saved after every call and sought again before the next one. */
module FileReader {
  import opened Records
  import opened Reading
  import opened LineFile
  import opened IndexFile

  datatype SeekResult = Placed | Failed | Panicked

  /** The data file. The writer appends whole lines. */
  class DataFile {
    var content: Bytes

    constructor ()
      ensures content == []
    {
      content := [];
    }
  }

  lemma LineThen(l: Bytes, rest: Bytes)
    requires IsLine(l)
    ensures Lines(l + rest) == [l] + Lines(rest)
  {
    var all := l + rest;
    FirstNewline(l, rest);
    HeadLine(all);
    assert all[..|l|] == l && all[|l|..] == rest;
  }

  /** Lines that are delivered one after the other stand in front of the lines still to come. */
  lemma {:induction false} LinesAfter(ls: seq<Bytes>, rest: Bytes)
    requires AllLines(ls)
    ensures Lines(Flat(ls) + rest) == ls + Lines(rest)
  {
    if ls == [] {
      assert Flat(ls) + rest == rest;
    } else {
      LinesAfter(ls[1..], rest);
      assert Flat(ls) + rest == ls[0] + (Flat(ls[1..]) + rest);
      LineThen(ls[0], Flat(ls[1..]) + rest);
      assert [ls[0]] + (ls[1..] + Lines(rest)) == ls + Lines(rest);
    }
  }

  /** The lines are exactly the content between the two offsets. */
  ghost predicate Covers(lines: seq<Bytes>, content: Bytes, from: nat, to: nat) {
    from <= to <= |content| && AllLines(lines) && Flat(lines) == content[from..to]
  }

  lemma StartToCut(content: Bytes, start: nat, cut: nat, delivered: seq<Bytes>)
    requires Covers(delivered, content, start, cut)
    ensures Lines(content[start..]) == delivered + Lines(content[cut..])
  {
    assert content[start..] == content[start..cut] + content[cut..];
    LinesAfter(delivered, content[cut..]);
  }

  lemma CoversNothing(content: Bytes, at: nat)
    requires at <= |content|
    ensures Covers([], content, at, at) && content[at..at] == []
  {
  }

  lemma CoversStill(lines: seq<Bytes>, content: Bytes, more: Bytes, from: nat, to: nat)
    requires Covers(lines, content, from, to)
    ensures Covers(lines, content + more, from, to)
  {
    assert (content + more)[from..to] == content[from..to];
  }

  lemma CoversOneMore(lines: seq<Bytes>, content: Bytes, from: nat, to: nat, line: Bytes)
    requires Covers(lines, content, from, to) && IsLine(line)
    requires to + |line| <= |content| && content[to..to + |line|] == line
    ensures Covers(lines + [line], content, from, to + |line|)
  {
    FlatConcat(lines, [line]);
    assert [line][1..] == [] && Flat([line]) == line + Flat([line][1..]);
    assert content[from..to + |line|] == content[from..to] + content[to..to + |line|];
  }

  lemma KeepSlice(content: Bytes, more: Bytes, from: nat, to: nat)
    requires from <= to <= |content|
    ensures (content + more)[from..to] == content[from..to]
  {
  }

  /** The buffered bytes end at the position, and the delivered lines end where they begin. A
      position beyond the end of the file waits for the file to grow past it. */
  ghost predicate CoherentAt(content: Bytes, position: nat, buffered: Bytes, start: nat, delivered: seq<Bytes>) {
    && (position <= |content| ==>
          && |buffered| <= position
          && buffered == content[position - |buffered|..position]
          && Covers(delivered, content, start, position - |buffered|))
    && (position > |content| ==> delivered == [] && buffered == [] && start == position)
  }

  lemma GrowCoherent(content: Bytes, more: Bytes, position: nat, buffered: Bytes, start: nat, delivered: seq<Bytes>)
    requires CoherentAt(content, position, buffered, start, delivered)
    ensures CoherentAt(content + more, position, buffered, start, delivered)
  {
    if position <= |content| {
      KeepSlice(content, more, position - |buffered|, position);
      CoversStill(delivered, content, more, start, position - |buffered|);
    } else if position <= |content + more| {
      CoversNothing(content + more, start);
    }
  }

  lemma CoherentAtStart(content: Bytes)
    ensures CoherentAt(content, 0, [], 0, [])
  {
    CoversNothing(content, 0);
  }

  lemma WholeConcat(a: Bytes, b: Bytes)
    requires Whole(a) && Whole(b)
    ensures Whole(a + b)
  {
    if b == [] {
      assert a + b == a;
    }
  }

  class StreamIteratorHandlerFile {
    const file: DataFile
    const index: StreamIndexFile
    const codec: Codec
    var initialized: bool
    var position: nat          // of the open file, at the end of what the reader has read
    var buffered: Bytes        // what the reader has read but not delivered
    var fileOffset: int
    var bytesRead: nat
    var nextRecordIdRead: nat
    ghost var start: nat
    ghost var startId: nat
    ghost var delivered: seq<Bytes>

    constructor (file: DataFile, index: StreamIndexFile, codec: Codec)
      requires Whole(file.content)
      ensures Valid() && Saved() && !initialized && delivered == []
      ensures this.file == file && this.index == index && this.codec == codec
    {
      this.file, this.index, this.codec := file, index, codec;
      CoherentAtStart(file.content);
      hide CoherentAt;
      initialized, position, buffered, fileOffset, bytesRead, nextRecordIdRead := false, 0, [], 0, 0, 0;
      start, startId, delivered := 0, 0, [];
    }

    /** Where the next line to deliver starts. */
    ghost predicate Coherent()
      reads this, file
    {
      CoherentAt(file.content, position, buffered, start, delivered)
    }

    ghost predicate Valid()
      reads this, file
    {
      && Whole(file.content)
      && Coherent()
      && nextRecordIdRead == startId + |delivered|
      && (!initialized ==> delivered == [] && buffered == [])
    }

    /** The saved offset is the physical position, read-ahead included. */
    ghost predicate Saved()
      reads this
    {
      initialized ==> fileOffset == position
    }

    /** The bytes left to deliver. */
    ghost function Left(): nat
      reads this, file
    {
      if position <= |file.content| then |file.content| + |buffered| - position else 0
    }

    /** Continuity: the lines delivered so far are the file's lines from the start offset, with
        no gap and no repeat, and the lines still to deliver follow them. */
    lemma Continuity()
      requires Valid() && position <= |file.content|
      ensures delivered <= Lines(file.content[start..])
      ensures Lines(file.content[start..]) == delivered + Lines(file.content[position - |buffered|..])
    {
      StartToCut(file.content, start, position - |buffered|, delivered);
    }

    /** A cursor that started inside the file stays inside it. */
    lemma StartsInside()
      requires Valid() && start <= |file.content|
      ensures position <= |file.content|
    {
    }

    method SaveSeek()
      modifies this`fileOffset
      ensures Saved() && fileOffset == position
      ensures old(Valid()) ==> Valid()
    {
      fileOffset := position;
    }

    /** The requests that are looked up in the rows of the index. */
    static predicate Searches(request: Request) {
      request.AtMessageId? || request.AfterMessageId? || request.AtTimestamp?
    }

    /** Where a request starts according to the index. */
    method Resolve(request: Request) returns (p: Position)
      ensures ResolvesTo(request, p) && (p == NilRow <==> Rows(index.file) == [] && Searches(request))
    {
      match request {
        case FirstMessage => p := index.GetOffsetFirstMessage();
        case LastMessage => p := index.GetOffsetLastMessage();
        case AfterLastMessage => p := index.GetOffsetAfterLastMessage();
        case AtMessageId(id) => p := index.GetOffsetAtMessageId(id);
        case AfterMessageId(id) => p := index.GetOffsetAfterMessageId(id);
        case AtTimestamp(time) => p := index.GetOffsetAtTimestamp(time);
        case Unknown => p := NotFound;
      }
    }

    /** What the index answers. Ids and times are looked up in sorted rows. */
    ghost predicate ResolvesTo(request: Request, p: Position)
      reads index
    {
      var rows := Rows(index.file);
      match request
      case FirstMessage => p == At(0, 0)
      case LastMessage =>
        p == (match TailRow(index.file) case None => NotFound case Some(row) => At(row.id, row.offset))
      case AfterLastMessage =>
        p == (match TailRow(index.file)
              case None => NotFound
              case Some(row) => At(row.id + 1, row.offset + row.length))
      case AtMessageId(id) =>
        if rows == [] then p == NilRow else RowIdsIncrease(rows) ==> p == AtId(rows, id)
      case AfterMessageId(id) =>
        if rows == [] then p == NilRow else RowIdsIncrease(rows) ==> p == AfterId(rows, id)
      case AtTimestamp(time) =>
        if rows == [] then p == NilRow else RowTimesOrdered(rows) ==>
          if forall k | 0 <= k < |rows| :: rows[k].time < time then p == NotFound
          else exists row :: row in rows && AtOrAfter(rows, time, row) && p == At(row.id, row.offset)
      case Unknown => p == NotFound
    }

    lemma ResolvedId(id: nat, p: Position)
      requires Rows(index.file) != [] && RowIdsIncrease(Rows(index.file))
      ensures ResolvesTo(AtMessageId(id), p) ==> p == AtId(Rows(index.file), id)
      ensures ResolvesTo(AfterMessageId(id), p) ==> p == AfterId(Rows(index.file), id)
    {
      hide Rows, RowIdsIncrease, AtId, AfterId;
    }

    /** What the position of a request means for a seek: an offset before the file is an error. */
    static predicate Answers(p: Position, r: SeekResult) {
      match p
      case At(_, offset) => r == if offset < 0 then Failed else Placed
      case NotFound => r == Failed
      case NilRow => r == Panicked
    }

    /** The first call places the cursor. Later calls seek the saved physical offset and keep
        the bytes that the reader has buffered. */
    method Seek(request: Request) returns (r: SeekResult)
      requires Valid() && Saved()
      modifies this
      ensures Valid() && Saved() && delivered == old(delivered)
      ensures old(initialized) ==>
        r == Placed && start == old(start) && Left() == old(Left()) && nextRecordIdRead == old(nextRecordIdRead)
      ensures initialized <==> r == Placed
      ensures !old(initialized) ==>
        exists p :: ResolvesTo(request, p) && Answers(p, r) && (r == Placed ==> p == At(startId, start))
      ensures !old(initialized) ==> (r == Panicked <==> Rows(index.file) == [] && Searches(request))
    {
      hide CoherentAt, ResolvesTo, Rows;
      if initialized {
        position := fileOffset;
        return Placed;
      }
      var p := Resolve(request);
      match p {
        case At(id, offset) =>
          fileOffset := offset;
          if offset < 0 {
            assert ResolvesTo(request, p) && Answers(p, Failed);
            return Failed;
          }
          Place(id, offset);
          assert ResolvesTo(request, p) && Answers(p, Placed) && p == At(startId, start);
          return Placed;
        case NotFound =>
          fileOffset := 0;
          assert ResolvesTo(request, p) && Answers(p, Failed);
          return Failed;
        case NilRow =>
          assert ResolvesTo(request, p) && Answers(p, Panicked);
          return Panicked;
      }
    }

    method Place(id: nat, offset: nat)
      requires Whole(file.content) && !initialized && delivered == []
      modifies this
      ensures Valid() && initialized && position == offset == start && startId == id
      ensures delivered == [] && fileOffset == old(fileOffset)
    {
      hide Covers;
      position := offset;
      initialized, buffered, nextRecordIdRead := true, [], id;
      start, startId := offset, id;
      if position <= |file.content| {
        CoversNothing(file.content, start);
      }
    }

    /** A physical read returns any number of the bytes that are available. */
    method ReadMore()
      requires Valid() && initialized && position < |file.content|
      modifies this`position, this`buffered
      ensures Valid() && Left() == old(Left()) && old(position) < position <= |file.content|
    {
      hide Covers;
      var n: nat :| 1 <= n <= |file.content| - position;
      ghost var cut := position - |buffered|;
      buffered := buffered + file.content[position..position + n];
      position := position + n;
      assert buffered == file.content[cut..position];
    }

    /** One line of the reader, or nothing at the end of the file. */
    method ReadString() returns (line: Option<Bytes>)
      requires Valid() && initialized
      modifies this`position, this`buffered, this`delivered
      ensures Coherent() && (line.None? <==> old(Left()) == 0)
      ensures line.None? ==> Left() == 0 && delivered == old(delivered)
      ensures line.Some? ==> delivered == old(delivered) + [line.value] && Left() < old(Left())
    {
      while Newline(buffered) == |buffered|
        invariant Valid() && Left() == old(Left()) && delivered == old(delivered)
        decreases |file.content| - position
      {
        if position >= |file.content| {
          WholeHasNewline();
          return None;
        }
        ReadMore();
      }
      var n := Newline(buffered) + 1;
      line := Some(buffered[..n]);
      Deliver(n);
    }

    method Deliver(n: nat)
      requires Valid() && initialized && n == Newline(buffered) + 1 && n <= |buffered|
      modifies this`buffered, this`delivered
      ensures Coherent() && Left() == old(Left()) - n
      ensures delivered == old(delivered) + [old(buffered[..n])]
    {
      TakeLine(n);
      hide Covers;
      delivered := delivered + [buffered[..n]];
      buffered := buffered[n..];
    }

    /** At the end of a whole file no partial line is left in the buffer. */
    lemma WholeHasNewline()
      requires Valid() && Newline(buffered) == |buffered| && position >= |file.content|
      ensures buffered == []
    {
    }

    lemma TakeLine(n: nat)
      requires Coherent() && position <= |file.content| && 0 < n <= |buffered| && n == Newline(buffered) + 1
      ensures
        var cut := position - |buffered|;
        && buffered[n..] == file.content[cut + n..position]
        && Covers(delivered + [buffered[..n]], file.content, start, cut + n)
    {
      var cut, head := position - |buffered|, buffered[..n];
      assert head[..n - 1] == buffered[..n - 1];
      assert file.content[cut..cut + n] == head;
      CoversOneMore(delivered, file.content, start, cut, head);
    }

    /** Delivers the next line, or saves the physical position at the end of the file. */
    method GetNextRecord() returns (o: Outcome)
      requires Valid() && initialized
      modifies this`position, this`buffered, this`delivered, this`fileOffset, this`bytesRead, this`nextRecordIdRead
      ensures Valid()
      ensures o.Got? <==> old(Left()) > 0
      ensures o.Got? ==>
        && |delivered| == |old(delivered)| + 1 && old(delivered) <= delivered && Left() < old(Left())
        && o == Got(startId + |old(delivered)|, codec.decode(delivered[|delivered| - 1]))
      ensures !o.Got? ==> o == End(false) && delivered == old(delivered) && Saved() && Left() == 0
    {
      var line := ReadString();
      if line.None? {
        SaveSeek();
        return End(false);
      }
      bytesRead := bytesRead + |line.value|;
      o := Got(nextRecordIdRead, codec.decode(line.value));
      nextRecordIdRead := nextRecordIdRead + 1;
    }

    /** Whole lines appended by the writer between two reads. */
    method Grow(lines: seq<Bytes>)
      requires Valid() && AllLines(lines)
      modifies file
      ensures Valid() && Left() <= old(Left()) + |Flat(lines)|
      ensures file.content == old(file.content) + Flat(lines)
    {
      LinesOfFlat(lines);
      WholeConcat(file.content, Flat(lines));
      GrowCoherent(file.content, Flat(lines), position, buffered, start, delivered);
      hide CoherentAt, Whole, Flat;
      file.content := file.content + Flat(lines);
    }
  }
}
