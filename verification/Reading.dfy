/** What every iterator handler shares: the request that places its cursor and the outcomes of
    asking it for one more record. */
module Reading {
  import opened Records

  datatype Request =
    | FirstMessage
    | LastMessage
    | AfterLastMessage
    | AtMessageId(id: nat)
    | AfterMessageId(id: nat)
    | AtTimestamp(time: int)
    | Unknown

  /** A delivered record, or None for a stored record that does not decode. */
  type Item = Option<Message>

  /** The outcome of GetNextRecord: an item with its reported id, or no record, possibly with an
      error. */
  datatype Outcome = Got(id: nat, item: Item) | End(failed: bool)

  function Items(msgs: seq<Message>): (items: seq<Item>)
    ensures |items| == |msgs|
  {
    seq(|msgs|, k requires 0 <= k < |msgs| => Some(msgs[k]))
  }
}
