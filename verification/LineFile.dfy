/** A data file as bytes: lines that end with one newline, how a linear scan splits them, and
    what a reader sees from the offset of any line on. */
module LineFile {
  import opened Records

  newtype byte = x: int | 0 <= x < 256
  type Bytes = seq<byte>

  const NL: byte := 10

  ghost predicate IsLine(l: Bytes) {
    |l| > 0 && l[|l| - 1] == NL && NL !in l[..|l| - 1]
  }

  ghost predicate AllLines(ls: seq<Bytes>) {
    forall k | 0 <= k < |ls| :: IsLine(ls[k])
  }

  function Flat(ls: seq<Bytes>): Bytes {
    if ls == [] then [] else ls[0] + Flat(ls[1..])
  }

  /** The position of the first newline, or the length when there is none. */
  function Newline(content: Bytes): (n: nat)
    ensures n <= |content|
    ensures NL !in content[..n]
    ensures n < |content| ==> content[n] == NL
  {
    if content == [] || content[0] == NL then 0
    else
      var n := 1 + Newline(content[1..]);
      assert content[..n] == [content[0]] + content[1..][..n - 1];
      n
  }

  /** The complete lines of the content. What follows the last newline is not a line. */
  function Lines(content: Bytes): seq<Bytes>
    decreases |content|
  {
    var n := Newline(content);
    if n == |content| then [] else [content[..n + 1]] + Lines(content[n + 1..])
  }

  /** The content consists of complete lines only. */
  ghost predicate Whole(content: Bytes) {
    content == [] || content[|content| - 1] == NL
  }

  lemma {:induction false} NewlineAt(content: Bytes, k: nat)
    requires k < |content| && content[k] == NL && forall i | 0 <= i < k :: content[i] != NL
    ensures Newline(content) == k
  {
    if k > 0 {
      NewlineAt(content[1..], k - 1);
    }
  }

  lemma FirstNewline(l: Bytes, rest: Bytes)
    requires IsLine(l)
    ensures Newline(l + rest) == |l| - 1
  {
    forall i | 0 <= i < |l| - 1
      ensures (l + rest)[i] != NL
    {
      assert l[i] in l[..|l| - 1];
    }
    NewlineAt(l + rest, |l| - 1);
  }

  /** Non-empty whole content splits into its first line and a whole rest. */
  lemma SplitLine(content: Bytes) returns (head: Bytes, rest: Bytes)
    requires Whole(content) && content != []
    ensures IsLine(head) && Whole(rest) && content == head + rest
    ensures Newline(content) == |head| - 1
    ensures Lines(content) == [head] + Lines(rest)
  {
    var n := Newline(content);
    assert NL in content && content[..|content|] == content;
    head, rest := content[..n + 1], content[n + 1..];
    assert head[..n] == content[..n];
  }

  lemma {:induction false} LinesOfFlat(ls: seq<Bytes>)
    requires AllLines(ls)
    ensures Lines(Flat(ls)) == ls && Whole(Flat(ls))
  {
    if ls != [] {
      FirstNewline(ls[0], Flat(ls[1..]));
      LinesOfFlat(ls[1..]);
      assert Flat(ls)[|ls[0]|..] == Flat(ls[1..]);
      assert Flat(ls)[..|ls[0]|] == ls[0];
      assert ls == [ls[0]] + ls[1..];
      if Flat(ls[1..]) != [] {
        assert Flat(ls)[|Flat(ls)| - 1] == Flat(ls[1..])[|Flat(ls[1..])| - 1];
      }
    }
  }

  lemma {:induction false} FlatOfLines(content: Bytes)
    requires Whole(content)
    ensures Flat(Lines(content)) == content && AllLines(Lines(content))
    decreases |content|
  {
    if content != [] {
      var head, rest := SplitLine(content);
      FlatOfLines(rest);
      assert Lines(content)[1..] == Lines(rest);
    }
  }

  lemma Associative(a: Bytes, b: Bytes, c: Bytes)
    ensures a + (b + c) == (a + b) + c
  {
  }

  lemma {:induction false} FlatConcat(a: seq<Bytes>, b: seq<Bytes>)
    ensures Flat(a + b) == Flat(a) + Flat(b)
  {
    if a == [] {
      assert a + b == b;
    } else {
      FlatConcat(a[1..], b);
      assert (a + b)[1..] == a[1..] + b;
      Associative(a[0], Flat(a[1..]), Flat(b));
    }
  }

  /** Where the line of the given rank starts. */
  function OffsetOf(ls: seq<Bytes>, rank: nat): nat
    requires rank <= |ls|
  {
    |Flat(ls[..rank])|
  }

  /** Reading from the offset of a line yields that line and all later ones. */
  lemma LinesFrom(ls: seq<Bytes>, rank: nat)
    requires AllLines(ls) && rank <= |ls|
    ensures OffsetOf(ls, rank) <= |Flat(ls)|
    ensures Flat(ls)[OffsetOf(ls, rank)..] == Flat(ls[rank..])
    ensures Lines(Flat(ls)[OffsetOf(ls, rank)..]) == ls[rank..]
  {
    assert ls == ls[..rank] + ls[rank..];
    FlatConcat(ls[..rank], ls[rank..]);
    LinesOfFlat(ls[rank..]);
  }

  lemma OffsetNext(ls: seq<Bytes>, rank: nat)
    requires rank < |ls|
    ensures OffsetOf(ls, rank + 1) == OffsetOf(ls, rank) + |ls[rank]|
  {
    assert ls[..rank + 1] == ls[..rank] + [ls[rank]];
    FlatConcat(ls[..rank], [ls[rank]]);
    assert Flat([ls[rank]]) == ls[rank] + Flat([]);
  }

  // ---------------------------------------------------------------- messages as lines

  /** JSON encoding and decoding of one message, left uninterpreted. */
  datatype Codec = Codec(encode: Message -> Bytes, decode: Bytes -> Option<Message>)

  /** Encoding puts a message on one line and decoding that line gives the message back. */
  ghost predicate Faithful(c: Codec) {
    forall m: Message :: NL !in c.encode(m) && c.decode(c.encode(m) + [NL]) == Some(m)
  }

  function Encoded(c: Codec, msgs: seq<Message>): (ls: seq<Bytes>)
    ensures |ls| == |msgs|
  {
    seq(|msgs|, k requires 0 <= k < |msgs| => c.encode(msgs[k]) + [NL])
  }

  lemma EncodedLines(c: Codec, msgs: seq<Message>)
    requires Faithful(c)
    ensures AllLines(Encoded(c, msgs))
    ensures forall k | 0 <= k < |msgs| :: c.decode(Encoded(c, msgs)[k]) == Some(msgs[k])
  {
    forall k | 0 <= k < |msgs|
      ensures IsLine(Encoded(c, msgs)[k])
    {
      var l := Encoded(c, msgs)[k];
      assert l[..|l| - 1] == c.encode(msgs[k]);
    }
  }

  lemma EncodedConcat(c: Codec, a: seq<Message>, b: seq<Message>)
    ensures Flat(Encoded(c, a + b)) == Flat(Encoded(c, a)) + Flat(Encoded(c, b))
  {
    assert Encoded(c, a + b) == Encoded(c, a) + Encoded(c, b);
    FlatConcat(Encoded(c, a), Encoded(c, b));
  }

  /** Where a message is on file: its encoding and a line feed, behind the lines before it. */
  lemma LineOnFile(c: Codec, msgs: seq<Message>, k: nat)
    requires k < |msgs|
    ensures
      var file, at, line := Flat(Encoded(c, msgs)), OffsetOf(Encoded(c, msgs), k), c.encode(msgs[k]);
      && OffsetOf(Encoded(c, msgs), 0) == 0 && OffsetOf(Encoded(c, msgs), |msgs|) == |file|
      && OffsetOf(Encoded(c, msgs), k + 1) == at + |line| + 1 <= |file|
      && file[at..at + |line|] == line && file[at + |line|] == 10
  {
    var ls := Encoded(c, msgs);
    var head, tail := ls[..k], ls[k + 1..];
    assert ls == head + ([ls[k]] + tail) && ls[..|ls|] == ls;
    FlatConcat(head, [ls[k]] + tail);
    FlatConcat([ls[k]], tail);
    OffsetNext(ls, k);
    FlatOne(ls[k]);
    Placed(Flat(head), c.encode(msgs[k]), Flat(tail));
  }

  lemma FlatOne(l: Bytes)
    ensures Flat([l]) == l
  {
    assert [l][1..] == [] && Flat([l]) == l + [];
  }

  lemma Placed(head: Bytes, line: Bytes, tail: Bytes)
    ensures
      var file := head + ((line + [NL]) + tail);
      && |head| + |line| + 1 <= |file|
      && file[|head|..|head| + |line|] == line && file[|head| + |line|] == NL
  {
  }
}
