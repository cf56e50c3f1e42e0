/** The binary index of a data file: 32-byte little-endian rows, how a rebuild writes them, and
    the two dichotomy searches over the bytes. */
module IndexFile {
  import opened Records
  import opened LineFile

  /** streamIndexRowMsg: one unsigned and three signed 64-bit fields. */
  datatype Row = Row(id: nat, length: int, offset: int, time: int)

  const ROW_SIZE := 32
  const TWO_64 := 0x1_0000_0000_0000_0000
  const TWO_63 := 0x8000_0000_0000_0000

  // ---------------------------------------------------------------- encoding

  function LittleEndian(n: nat, width: nat): (bs: Bytes)
    ensures |bs| == width
  {
    if width == 0 then [] else [(n % 256) as byte] + LittleEndian(n / 256, width - 1)
  }

  function FromLittleEndian(bs: Bytes): nat {
    if bs == [] then 0 else bs[0] as nat + 256 * FromLittleEndian(bs[1..])
  }

  function Pow256(width: nat): (p: nat)
    ensures p > 0
  {
    if width == 0 then 1 else 256 * Pow256(width - 1)
  }

  lemma {:induction false} LittleEndianRoundTrip(n: nat, width: nat)
    requires n < Pow256(width)
    ensures FromLittleEndian(LittleEndian(n, width)) == n
  {
    if width > 0 {
      LittleEndianRoundTrip(n / 256, width - 1);
    }
  }

  lemma Pow256Of8()
    ensures Pow256(8) == TWO_64
  {
    assert Pow256(4) == 0x1_0000_0000;
  }

  /** Two's complement. */
  function Unsigned(x: int): nat {
    x % TWO_64
  }

  function Signed(u: nat): int {
    if u >= TWO_63 then u - TWO_64 else u
  }

  predicate FitsInt64(x: int) {
    -TWO_63 <= x < TWO_63
  }

  predicate Fits(r: Row) {
    r.id < TWO_64 && FitsInt64(r.length) && FitsInt64(r.offset) && FitsInt64(r.time)
  }

  function EncodeField(x: int): (bs: Bytes)
    ensures |bs| == 8
  {
    LittleEndian(Unsigned(x), 8)
  }

  function Encode(r: Row): (bs: Bytes)
    ensures |bs| == ROW_SIZE
  {
    EncodeField(r.id) + EncodeField(r.length) + EncodeField(r.offset) + EncodeField(r.time)
  }

  function Decode(bs: Bytes): Row
    requires |bs| == ROW_SIZE
  {
    Row(FromLittleEndian(bs[0..8]), Signed(FromLittleEndian(bs[8..16])),
        Signed(FromLittleEndian(bs[16..24])), Signed(FromLittleEndian(bs[24..32])))
  }

  lemma TwosComplement(x: int)
    requires -TWO_63 <= x < TWO_64
    ensures Unsigned(x) < TWO_64
    ensures x >= 0 ==> Unsigned(x) == x
    ensures FitsInt64(x) ==> Signed(Unsigned(x)) == x
  {
  }

  lemma FieldRoundTrip(x: int)
    requires -TWO_63 <= x < TWO_64
    ensures FromLittleEndian(EncodeField(x)) == Unsigned(x)
    ensures x >= 0 ==> Unsigned(x) == x
    ensures FitsInt64(x) ==> Signed(Unsigned(x)) == x
  {
    Pow256Of8();
    TwosComplement(x);
    hide Pow256, LittleEndian, FromLittleEndian, Unsigned, Signed;
    LittleEndianRoundTrip(Unsigned(x), 8);
  }

  lemma RowRoundTrip(r: Row)
    requires Fits(r)
    ensures Decode(Encode(r)) == r
  {
    FieldRoundTrip(r.id);
    FieldRoundTrip(r.length);
    FieldRoundTrip(r.offset);
    FieldRoundTrip(r.time);
    EncodedAt(r);
    hide Encode, EncodeField;
  }

  function EncodeAll(rows: seq<Row>): (bs: Bytes)
    ensures |bs| == ROW_SIZE * |rows|
  {
    if rows == [] then [] else EncodeAll(rows[..|rows| - 1]) + Encode(rows[|rows| - 1])
  }

  function RowAt(file: Bytes, rank: nat): Row
    requires ROW_SIZE * (rank + 1) <= |file|
  {
    Decode(file[ROW_SIZE * rank..ROW_SIZE * (rank + 1)])
  }

  /** The complete rows of an index file, as a sequential reader decodes them. */
  function Rows(file: Bytes): (rows: seq<Row>)
    ensures |rows| == |file| / ROW_SIZE
  {
    seq(|file| / ROW_SIZE, k requires 0 <= k < |file| / ROW_SIZE => RowAt(file, k))
  }

  lemma SliceOfHead(head: Bytes, rest: Bytes, from: nat, to: nat)
    requires from <= to <= |head|
    ensures (head + rest)[from..to] == head[from..to]
  {
  }

  lemma {:induction false} SliceOfRank(rows: seq<Row>, k: nat)
    requires k < |rows|
    ensures EncodeAll(rows)[ROW_SIZE * k..ROW_SIZE * (k + 1)] == Encode(rows[k])
  {
    var init, last := rows[..|rows| - 1], rows[|rows| - 1];
    if k < |init| {
      SliceOfRank(init, k);
      SliceOfHead(EncodeAll(init), Encode(last), ROW_SIZE * k, ROW_SIZE * (k + 1));
    } else {
      assert EncodeAll(rows)[|EncodeAll(init)|..] == Encode(last);
    }
  }

  /** Decoding the written bytes gives back, at each rank, the row that was written there. */
  lemma RowsRoundTrip(rows: seq<Row>)
    requires forall r | r in rows :: Fits(r)
    ensures Rows(EncodeAll(rows)) == rows
  {
    forall k | 0 <= k < |rows|
      ensures RowAt(EncodeAll(rows), k) == rows[k]
    {
      SliceOfRank(rows, k);
      RowRoundTrip(rows[k]);
    }
  }

  // ---------------------------------------------------------------- the bytes of a row

  lemma DivTwice(n: nat, p: nat)
    requires p > 0
    ensures n / 256 / p == n / (256 * p)
  {
    var q, r := n / 256, n % 256;
    var a, b := q / p, q % p;
    assert n == 256 * (p * a + b) + r == (256 * p) * a + (256 * b + r);
    assert 256 * b + r < 256 * p;
    DivIs(n, 256 * p, a, 256 * b + r);
  }

  lemma DivIs(n: nat, d: nat, q: nat, r: nat)
    requires r < d && n == d * q + r
    ensures n / d == q
  {
    var k := n / d;
    assert n == d * k + n % d;
    assert k < q ==> d * (k + 1) <= d * q;
    assert k > q ==> d * (q + 1) <= d * k;
  }

  /** The least significant byte comes first: byte k counts 256 to the power of k. */
  lemma {:induction false} LittleEndianBytes(n: nat, width: nat, k: nat)
    requires k < width
    ensures LittleEndian(n, width)[k] as int == n / Pow256(k) % 256
  {
    if k > 0 {
      LittleEndianBytes(n / 256, width - 1, k - 1);
      DivTwice(n, Pow256(k - 1));
    }
  }

  /** The eight bytes from a position on are a 64-bit value, least significant byte first. */
  ghost predicate FieldAt(bs: Bytes, at: nat, x: int)
    requires at + 8 <= |bs|
  {
    forall k | 0 <= k < 8 :: bs[at + k] as int == x % 0x1_0000_0000_0000_0000 / Pow256(k) % 256
  }

  /** Where the fields of a row are. */
  ghost predicate RowBytes(bs: Bytes, at: nat, r: Row)
    requires at + 32 <= |bs|
  {
    && FieldAt(bs, at, r.id) && FieldAt(bs, at + 8, r.length)
    && FieldAt(bs, at + 16, r.offset) && FieldAt(bs, at + 24, r.time)
  }

  lemma EncodedField(x: int)
    ensures FieldAt(EncodeField(x), 0, x)
  {
    forall k | 0 <= k < 8
      ensures EncodeField(x)[k] as int == x % 0x1_0000_0000_0000_0000 / Pow256(k) % 256
    {
      LittleEndianBytes(Unsigned(x), 8, k);
    }
  }

  lemma FieldMoves(bs: Bytes, at: nat, x: int, field: Bytes)
    requires |field| == 8 && FieldAt(field, 0, x) && at + 8 <= |bs| && bs[at..at + 8] == field
    ensures FieldAt(bs, at, x)
  {
    forall k | 0 <= k < 8
      ensures bs[at + k] as int == x % 0x1_0000_0000_0000_0000 / Pow256(k) % 256
    {
      assert bs[at + k] == bs[at..at + 8][k] == field[k];
    }
  }

  lemma PartOfSlice(bs: Bytes, at: nat, from: nat, to: nat)
    requires at + 32 <= |bs| && from <= to <= 32
    ensures bs[at + from..at + to] == bs[at..at + 32][from..to]
  {
    var part := bs[at..at + 32];
    var left, right := bs[at + from..at + to], part[from..to];
    assert forall k | 0 <= k < |left| :: left[k] == right[k];
  }

  lemma EncodedAt(r: Row)
    ensures Encode(r)[0..8] == EncodeField(r.id) && Encode(r)[8..16] == EncodeField(r.length)
    ensures Encode(r)[16..24] == EncodeField(r.offset) && Encode(r)[24..32] == EncodeField(r.time)
  {
    hide EncodeField;
    FourFields(EncodeField(r.id), EncodeField(r.length), EncodeField(r.offset), EncodeField(r.time));
  }

  lemma FourFields(a: Bytes, b: Bytes, c: Bytes, d: Bytes)
    requires |a| == |b| == |c| == |d| == 8
    ensures
      var bs := a + b + c + d;
      bs[0..8] == a && bs[8..16] == b && bs[16..24] == c && bs[24..32] == d
  {
    var bs := a + b + c + d;
    assert bs[0..8] == a;
    assert bs[8..16] == b;
    assert bs[16..24] == c;
    assert bs[24..32] == d;
  }

  lemma RowMoves(bs: Bytes, at: nat, r: Row)
    requires at + 32 <= |bs| && bs[at..at + 32] == Encode(r)
    ensures RowBytes(bs, at, r)
  {
    var row := Encode(r);
    EncodedField(r.id);
    EncodedField(r.length);
    EncodedField(r.offset);
    EncodedField(r.time);
    hide FieldAt, EncodeField;
    EncodedAt(r);
    hide Encode;
    PartOfSlice(bs, at, 0, 8);
    PartOfSlice(bs, at, 8, 16);
    PartOfSlice(bs, at, 16, 24);
    PartOfSlice(bs, at, 24, 32);
    FieldMoves(bs, at, r.id, EncodeField(r.id));
    FieldMoves(bs, at + 8, r.length, EncodeField(r.length));
    FieldMoves(bs, at + 16, r.offset, EncodeField(r.offset));
    FieldMoves(bs, at + 24, r.time, EncodeField(r.time));
  }

  /** The bytes of an index file: 32 for each row, id, length, offset and time in this order. */
  lemma IndexBytes(rows: seq<Row>, k: nat)
    requires k < |rows|
    ensures 32 * k + 32 <= |EncodeAll(rows)| && RowBytes(EncodeAll(rows), 32 * k, rows[k])
  {
    SliceOfRank(rows, k);
    hide RowBytes, Encode, EncodeAll;
    RowMoves(EncodeAll(rows), 32 * k, rows[k]);
  }

  /** The file is 32 bytes for each row. */
  ghost predicate RowsWritten(file: Bytes, rows: seq<Row>) {
    |file| == 32 * |rows| && forall k | 0 <= k < |rows| :: RowBytes(file, 32 * k, rows[k])
  }

  lemma AllBytes(rows: seq<Row>)
    ensures RowsWritten(EncodeAll(rows), rows)
  {
    forall k | 0 <= k < |rows|
      ensures 32 * k + 32 <= |EncodeAll(rows)| && RowBytes(EncodeAll(rows), 32 * k, rows[k])
    {
      IndexBytes(rows, k);
    }
  }

  /** The value of eight bytes, least significant first, without and with a sign. */
  function Weigh(bs: Bytes, at: nat): nat
    requires at + 8 <= |bs|
  {
    bs[at] as nat + 0x100 * bs[at + 1] as nat + 0x1_0000 * bs[at + 2] as nat + 0x100_0000 * bs[at + 3] as nat
    + 0x1_0000_0000 * bs[at + 4] as nat + 0x100_0000_0000 * bs[at + 5] as nat
    + 0x1_0000_0000_0000 * bs[at + 6] as nat + 0x100_0000_0000_0000 * bs[at + 7] as nat
  }

  function WeighSigned(bs: Bytes, at: nat): int
    requires at + 8 <= |bs|
  {
    if bs[at + 7] >= 128 then Weigh(bs, at) - 0x1_0000_0000_0000_0000 else Weigh(bs, at)
  }

  lemma EightBytes(bs: Bytes)
    requires |bs| == 8
    ensures FromLittleEndian(bs) == Weigh(bs, 0)
    ensures Signed(FromLittleEndian(bs)) == WeighSigned(bs, 0)
  {
    FourBytes(bs);
    FourBytes(bs[4..]);
  }

  lemma FourBytes(bs: Bytes)
    requires |bs| >= 4
    ensures FromLittleEndian(bs) ==
      bs[0] as nat + 0x100 * bs[1] as nat + 0x1_0000 * bs[2] as nat + 0x100_0000 * bs[3] as nat
      + 0x1_0000_0000 * FromLittleEndian(bs[4..])
  {
    assert bs[1..][1..] == bs[2..] && bs[2..][1..] == bs[3..] && bs[3..][1..] == bs[4..];
    assert FromLittleEndian(bs) == bs[0] as nat + 256 * FromLittleEndian(bs[1..]);
    assert FromLittleEndian(bs[1..]) == bs[1] as nat + 256 * FromLittleEndian(bs[2..]);
    assert FromLittleEndian(bs[2..]) == bs[2] as nat + 256 * FromLittleEndian(bs[3..]);
    assert FromLittleEndian(bs[3..]) == bs[3] as nat + 256 * FromLittleEndian(bs[4..]);
  }

  /** What any 32 bytes decode to. */
  lemma DecodedRow(bs: Bytes)
    requires |bs| == 32
    ensures Decode(bs) == Row(Weigh(bs, 0), WeighSigned(bs, 8), WeighSigned(bs, 16), WeighSigned(bs, 24))
  {
    EightBytes(bs[0..8]);
    EightBytes(bs[8..16]);
    EightBytes(bs[16..24]);
    EightBytes(bs[24..32]);
    hide FromLittleEndian, Signed;
  }

  // ---------------------------------------------------------------- linear specifications

  ghost predicate RowIdsIncrease(rows: seq<Row>) {
    forall i, j | 0 <= i < j < |rows| :: rows[i].id < rows[j].id
  }

  ghost predicate RowTimesOrdered(rows: seq<Row>) {
    forall i, j | 0 <= i < j < |rows| :: rows[i].time <= rows[j].time
  }

  /** A linear scan for an id. */
  function FindId(rows: seq<Row>, id: nat): Option<Row> {
    if rows == [] then None
    else if rows[0].id == id then Some(rows[0])
    else FindId(rows[1..], id)
  }

  lemma {:induction false} FindIdAt(rows: seq<Row>, rank: nat)
    requires RowIdsIncrease(rows) && rank < |rows|
    ensures FindId(rows, rows[rank].id) == Some(rows[rank])
  {
    if rank > 0 {
      FindIdAt(rows[1..], rank - 1);
    }
  }

  lemma {:induction false} FindIdNone(rows: seq<Row>, id: nat)
    requires forall k | 0 <= k < |rows| :: rows[k].id != id
    ensures FindId(rows, id) == None
  {
    if rows != [] {
      FindIdNone(rows[1..], id);
    }
  }

  /** The row is at or after the time, and it is the first such row or carries that very time. */
  ghost predicate AtOrAfter(rows: seq<Row>, time: int, row: Row) {
    exists k | 0 <= k < |rows| ::
      && rows[k] == row && row.time >= time
      && (row.time == time || forall j | 0 <= j < k :: rows[j].time < time)
  }

  ghost predicate EarlierUpTo(rows: seq<Row>, time: int, n: nat) {
    n <= |rows| && forall k | 0 <= k < n :: rows[k].time < time
  }

  lemma EarlierBefore(rows: seq<Row>, time: int, k: nat)
    requires k < |rows| && rows[k].time < time
    ensures RowTimesOrdered(rows) ==> EarlierUpTo(rows, time, k + 1)
  {
  }

  lemma HitAt(rows: seq<Row>, time: int, k: nat)
    requires k < |rows| && rows[k].time >= time
    ensures rows[k] in rows && !forall j | 0 <= j < |rows| :: rows[j].time < time
    ensures rows[k].time == time || EarlierUpTo(rows, time, k) ==> AtOrAfter(rows, time, rows[k])
  {
  }

  lemma AllEarlier(rows: seq<Row>, time: int)
    ensures EarlierUpTo(rows, time, |rows|) ==> forall k | 0 <= k < |rows| :: rows[k].time < time
  {
  }

  // ---------------------------------------------------------------- rebuilding

  datatype Stats = Stats(count: nat, size: nat, firstId: nat, lastId: nat, firstTime: int, lastTime: int)

  /** Every line decodes. */
  ghost predicate Decodable(c: Codec, lines: seq<Bytes>) {
    forall k | 0 <= k < |lines| :: c.decode(lines[k]).Some?
  }

  /** The index row of each line: its message's id and time, its length and its offset. */
  ghost function RowsOf(c: Codec, lines: seq<Bytes>): (rows: seq<Row>)
    requires Decodable(c, lines)
    ensures |rows| == |lines|
  {
    seq(|lines|, k requires 0 <= k < |lines| =>
      Row(c.decode(lines[k]).value.id, |lines[k]|, OffsetOf(lines, k), c.decode(lines[k]).value.time))
  }

  ghost function StatsOf(c: Codec, lines: seq<Bytes>): Stats
    requires Decodable(c, lines)
  {
    if lines == [] then Stats(0, 0, 0, 0, 0, 0)
    else
      var first, last := c.decode(lines[0]).value, c.decode(lines[|lines| - 1]).value;
      Stats(|lines|, |Flat(lines)|, first.id, last.id, first.time, last.time)
  }

  // ---------------------------------------------------------------- the index file

  /** The answer of a seek: a message id and an offset, an error, or the dereference of the nil
      row that an empty index yields. */
  datatype Position = At(id: nat, offset: int) | NotFound | NilRow

  function Last(rows: seq<Row>): Row
    requires rows != []
  {
    rows[|rows| - 1]
  }

  /** The row in the last 32 bytes of the file, wherever the rows before it end. */
  function TailRow(file: Bytes): Option<Row> {
    if |file| < ROW_SIZE then None else Some(Decode(file[|file| - ROW_SIZE..]))
  }

  /** In a file of whole rows it is the last one. */
  lemma TailIsLast(file: Bytes)
    ensures |file| % ROW_SIZE == 0 ==> TailRow(file) == if Rows(file) == [] then None else Some(Last(Rows(file)))
  {
    if |file| % ROW_SIZE == 0 && |file| >= ROW_SIZE {
      var rank := |file| / ROW_SIZE - 1;
      assert |file| == ROW_SIZE * (rank + 1) && |file| - ROW_SIZE == ROW_SIZE * rank;
      assert file[ROW_SIZE * rank..] == file[ROW_SIZE * rank..ROW_SIZE * (rank + 1)];
      assert Rows(file)[rank] == RowAt(file, rank);
    }
  }

  /** Where AT_MESSAGE_ID starts, by a linear scan of the rows. */
  function AtId(rows: seq<Row>, id: nat): Position {
    match FindId(rows, id)
    case Some(row) => At(row.id, row.offset)
    case None => NotFound
  }

  /** Where AFTER_MESSAGE_ID starts, by a linear scan of the rows. */
  function AfterId(rows: seq<Row>, id: nat): Position {
    match FindId(rows, id)
    case Some(row) => At(row.id + 1, row.offset + row.length)
    case None => NotFound
  }

  class StreamIndexFile {
    var file: Bytes

    constructor ()
      ensures file == []
    {
      file := [];
    }

    /** Reads the data file line by line and writes one row per line. Stops at the first line
        that does not decode. Bytes after the last newline are ignored. */
    method BuildIndex(codec: Codec, content: Bytes) returns (stats: Option<Stats>)
      modifies this
      ensures stats.Some? <==> Decodable(codec, Lines(content))
      ensures stats.Some? ==>
        && file == EncodeAll(RowsOf(codec, Lines(content)))
        && stats.value == StatsOf(codec, Lines(content))
        && RowsWritten(file, RowsOf(codec, Lines(content)))
    {
      hide RowsWritten, StatsOf, RowsOf, EncodeAll;
      file := [];
      ghost var lines := Lines(content);
      var unread := content;
      var offset: nat, count: nat := 0, 0;
      var firstId, firstTime := 0, 0;
      var message: Option<Message> := None;
      ScanStart(codec, lines);
      assert lines[0..] == lines;
      hide Scanned, Encode, OffsetOf, Lines;
      while true
        invariant count <= |lines| && Lines(unread) == lines[count..]
        invariant Scanned(codec, lines, count, offset, file)
        invariant Noted(codec, lines, count, offset, firstId, firstTime, message)
        decreases |unread|
      {
        var n := Newline(unread);
        if n == |unread| {
          NoLine(unread);
          break;
        }
        var line := unread[..n + 1];
        NextLine(unread, lines, count);
        unread := unread[n + 1..];
        var decoded := codec.decode(line);
        if decoded.None? {
          return None;
        }
        message := decoded;
        ScanLine(codec, lines, count, offset, file);
        file := file + Encode(Row(message.value.id, |line|, offset, message.value.time));
        if offset == 0 {
          firstId, firstTime := message.value.id, message.value.time;
        }
        offset := offset + |line|;
        count := count + 1;
      }
      ScanEnd(codec, lines, offset, firstId, firstTime, message, file);
      AllBytes(RowsOf(codec, lines));
      return Some(
        if message.None? then Stats(count, 0, firstId, 0, firstTime, 0)
        else Stats(count, offset, firstId, message.value.id, firstTime, message.value.time));
    }

    method GetRowAtIndexPos(rank: nat) returns (row: Row)
      requires rank < |Rows(file)|
      ensures row == Rows(file)[rank]
    {
      var position := rank * ROW_SIZE;
      row := Decode(file[position..position + ROW_SIZE]);
    }

    /** Over increasing ids the dichotomy answers like a linear scan. */
    method SearchMessageId(id: nat, lastRank: nat) returns (r: Option<Row>)
      requires lastRank + 1 == |Rows(file)|
      ensures r.Some? ==> r.value in Rows(file) && r.value.id == id
      ensures RowIdsIncrease(Rows(file)) ==> r == FindId(Rows(file), id)
    {
      ghost var rows := Rows(file);
      var low, high := 0, lastRank;
      while low < high
        invariant 0 <= low <= high <= lastRank
        invariant RowIdsIncrease(rows) ==> forall k | 0 <= k < low :: rows[k].id < id
        invariant RowIdsIncrease(rows) ==> forall k | high < k <= lastRank :: rows[k].id > id
      {
        var median := (low + high) / 2;
        var row := GetRowAtIndexPos(median);
        if row.id == id {
          if RowIdsIncrease(rows) { FindIdAt(rows, median); }
          return Some(row);
        }
        if row.id > id {
          high := median;
        } else {
          low := median + 1;
        }
      }
      var row := GetRowAtIndexPos(low);
      if row.id == id {
        if RowIdsIncrease(rows) { FindIdAt(rows, low); }
        return Some(row);
      }
      if RowIdsIncrease(rows) { FindIdNone(rows, id); }
      return None;
    }

    /** Over ordered times it fails only when every row is earlier. */
    method SearchTimestamp(time: int, lastRank: nat) returns (r: Option<Row>)
      requires lastRank + 1 == |Rows(file)|
      ensures r.Some? ==> r.value in Rows(file) && r.value.time >= time
      ensures RowTimesOrdered(Rows(file)) && r.Some? ==> AtOrAfter(Rows(file), time, r.value)
      ensures RowTimesOrdered(Rows(file)) ==>
        (r.None? <==> forall k | 0 <= k < |Rows(file)| :: Rows(file)[k].time < time)
    {
      ghost var rows := Rows(file);
      var low, high := 0, lastRank;
      assert EarlierUpTo(rows, time, 0);
      hide Rows, RowTimesOrdered, AtOrAfter, EarlierUpTo;
      while low < high
        invariant 0 <= low <= high <= lastRank
        invariant RowTimesOrdered(rows) ==> EarlierUpTo(rows, time, low)
        invariant high < lastRank ==> rows[high].time > time
      {
        var median := (low + high) / 2;
        var row := GetRowAtIndexPos(median);
        if row.time == time {
          HitAt(rows, time, median);
          return Some(row);
        }
        if row.time > time {
          high := median;
        } else {
          EarlierBefore(rows, time, median);
          low := median + 1;
        }
      }
      var row := GetRowAtIndexPos(low);
      if row.time >= time {
        HitAt(rows, time, low);
        return Some(row);
      }
      EarlierBefore(rows, time, low);
      AllEarlier(rows, time);
      return None;
    }

    method GetIndexRowsCount() returns (n: nat)
      ensures n == |Rows(file)|
    {
      n := |file| / ROW_SIZE;
    }

    method GetOffsetFirstMessage() returns (p: Position)
      ensures p == At(0, 0)
    {
      p := At(0, 0);
    }

    /** Reads the last 32 bytes. Seeking before the start of the file is an error. */
    method ReadLastRow() returns (r: Option<Row>)
      ensures r == TailRow(file)
      ensures |file| % ROW_SIZE == 0 ==> r == if Rows(file) == [] then None else Some(Last(Rows(file)))
    {
      TailIsLast(file);
      if |file| < ROW_SIZE {
        return None;
      }
      r := Some(Decode(file[|file| - ROW_SIZE..]));
    }

    method GetOffsetLastMessage() returns (p: Position)
      ensures p == match TailRow(file) case None => NotFound case Some(row) => At(row.id, row.offset)
      ensures |file| % ROW_SIZE == 0 ==>
        p == if Rows(file) == [] then NotFound else At(Last(Rows(file)).id, Last(Rows(file)).offset)
    {
      var r := ReadLastRow();
      return if r.Some? then At(r.value.id, r.value.offset) else NotFound;
    }

    method GetOffsetAfterLastMessage() returns (p: Position)
      ensures p == match TailRow(file) case None => NotFound case Some(row) => At(row.id + 1, row.offset + row.length)
      ensures |file| % ROW_SIZE == 0 ==>
        p == if Rows(file) == [] then NotFound
             else At(Last(Rows(file)).id + 1, Last(Rows(file)).offset + Last(Rows(file)).length)
    {
      var r := ReadLastRow();
      return if r.Some? then At(r.value.id + 1, r.value.offset + r.value.length) else NotFound;
    }

    method GetOffsetAtMessageId(id: nat) returns (p: Position)
      ensures Rows(file) == [] <==> p == NilRow
      ensures Rows(file) != [] && RowIdsIncrease(Rows(file)) ==> p == AtId(Rows(file), id)
    {
      var count := GetIndexRowsCount();
      if count == 0 {
        return NilRow;
      }
      var r := SearchMessageId(id, count - 1);
      return if r.Some? then At(r.value.id, r.value.offset) else NotFound;
    }

    method GetOffsetAfterMessageId(id: nat) returns (p: Position)
      ensures Rows(file) == [] <==> p == NilRow
      ensures Rows(file) != [] && RowIdsIncrease(Rows(file)) ==> p == AfterId(Rows(file), id)
    {
      var count := GetIndexRowsCount();
      if count == 0 {
        return NilRow;
      }
      var r := SearchMessageId(id, count - 1);
      return if r.Some? then At(r.value.id + 1, r.value.offset + r.value.length) else NotFound;
    }

    method GetOffsetAtTimestamp(time: int) returns (p: Position)
      ensures Rows(file) == [] <==> p == NilRow
      ensures Rows(file) != [] && RowTimesOrdered(Rows(file)) ==>
        if forall k | 0 <= k < |Rows(file)| :: Rows(file)[k].time < time then p == NotFound
        else exists row :: row in Rows(file) && AtOrAfter(Rows(file), time, row) && p == At(row.id, row.offset)
    {
      var count := GetIndexRowsCount();
      if count == 0 {
        return NilRow;
      }
      var r := SearchTimestamp(time, count - 1);
      return if r.Some? then At(r.value.id, r.value.offset) else NotFound;
    }
  }

  /** The first lines are decoded and their rows written; the offset is where the next starts. */
  ghost predicate Scanned(c: Codec, lines: seq<Bytes>, count: nat, offset: nat, file: Bytes) {
    && count <= |lines|
    && Decodable(c, lines[..count])
    && offset == OffsetOf(lines, count)
    && file == EncodeAll(RowsOf(c, lines[..count]))
  }

  /** What the scan remembers of the first and of the latest line. */
  ghost predicate Noted(c: Codec, lines: seq<Bytes>, count: nat, offset: nat,
                        firstId: nat, firstTime: int, message: Option<Message>) {
    if count == 0 then message.None? && firstId == 0 && firstTime == 0 && offset == 0
    else
      && count <= |lines| && offset > 0
      && message.Some? && message == c.decode(lines[count - 1])
      && c.decode(lines[0]).Some?
      && firstId == c.decode(lines[0]).value.id
      && firstTime == c.decode(lines[0]).value.time
  }

  lemma ScanStart(c: Codec, lines: seq<Bytes>)
    ensures Scanned(c, lines, 0, 0, [])
  {
  }

  lemma ScanEnd(c: Codec, lines: seq<Bytes>, offset: nat, firstId: nat, firstTime: int,
                message: Option<Message>, file: Bytes)
    requires Scanned(c, lines, |lines|, offset, file)
    requires Noted(c, lines, |lines|, offset, firstId, firstTime, message)
    ensures Decodable(c, lines) && file == EncodeAll(RowsOf(c, lines))
    ensures StatsOf(c, lines) ==
            if message.None? then Stats(|lines|, 0, firstId, 0, firstTime, 0)
            else Stats(|lines|, offset, firstId, message.value.id, firstTime, message.value.time)
  {
    assert lines[..|lines|] == lines;
  }

  lemma HeadLine(tail: Bytes)
    requires Newline(tail) < |tail|
    ensures Lines(tail) == [tail[..Newline(tail) + 1]] + Lines(tail[Newline(tail) + 1..])
  {
  }

  /** One step of the scan: the next line and the lines of what follows it. */
  lemma NoLine(unread: Bytes)
    requires Newline(unread) == |unread|
    ensures Lines(unread) == []
  {
  }

  lemma NextLine(unread: Bytes, lines: seq<Bytes>, count: nat)
    requires count <= |lines| && Lines(unread) == lines[count..] && Newline(unread) < |unread|
    ensures count < |lines|
    ensures lines[count] == unread[..Newline(unread) + 1]
    ensures Lines(unread[Newline(unread) + 1..]) == lines[count + 1..]
  {
    HeadLine(unread);
    assert lines[count..][0] == lines[count] && lines[count..][1..] == lines[count + 1..];
  }

  lemma ScanLine(c: Codec, lines: seq<Bytes>, count: nat, offset: nat, file: Bytes)
    requires count < |lines| && c.decode(lines[count]).Some?
    requires Scanned(c, lines, count, offset, file)
    ensures
      var m := c.decode(lines[count]).value;
      Scanned(c, lines, count + 1, offset + |lines[count]|,
              file + Encode(Row(m.id, |lines[count]|, offset, m.time)))
  {
    RowsExtend(c, lines, count);
    OffsetNext(lines, count);
    assert forall k | 0 <= k < count :: lines[..count][k] == lines[k];
  }

  lemma RowsExtend(c: Codec, lines: seq<Bytes>, count: nat)
    requires count < |lines| && Decodable(c, lines[..count]) && c.decode(lines[count]).Some?
    ensures Decodable(c, lines[..count + 1])
    ensures
      var m := c.decode(lines[count]).value;
      EncodeAll(RowsOf(c, lines[..count + 1])) ==
      EncodeAll(RowsOf(c, lines[..count])) + Encode(Row(m.id, |lines[count]|, OffsetOf(lines, count), m.time))
  {
    var rows, init := RowsOf(c, lines[..count + 1]), RowsOf(c, lines[..count]);
    forall k | 0 <= k < count
      ensures rows[k] == init[k]
    {
      assert lines[..count + 1][..k] == lines[..count][..k];
    }
    assert lines[..count + 1][..count] == lines[..count];
    assert rows[..count] == init;
  }
}
