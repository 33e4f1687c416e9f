/** Records stored by the write buffer: a logical mutation tagged with a log sequence number. */
module Entries {

  /** The conventional optional value (Rust's `Option`). */
  datatype Option<+T> = None | Some(value: T)

  /** An unsigned byte (`u8`). */
  type byte = x: int | 0 <= x < 256

  /** A byte string (`Vec<u8>`), used for keys and values. */
  type Bytes = seq<byte>

  /** An unsigned 64-bit integer (`u64`), used for log sequence numbers. */
  type u64 = x: int | 0 <= x < 0x1_0000_0000_0000_0000

  /** A logical mutation. `Empty` is the payload of the skip list's head sentinel only. */
  datatype Entry =
    | Put(key: Bytes, val: Bytes)
    | Del(key: Bytes)
    | Empty

  /** A mutation together with the sequence number the log assigned to it. */
  datatype LogEntry = LogEntry(entry: Entry, logSeqNum: u64)

  /** `LogEntry::new`: the record keeps the mutation and the sequence number it is given. */
  function NewLogEntry(entry: Entry, logSeqNum: u64): (r: LogEntry)
    ensures r.entry == entry && r.logSeqNum == logSeqNum
  {
    LogEntry(entry, logSeqNum)
  }

  /** `LogEntry::default()`: the empty mutation at sequence number 0 (also the head sentinel's record). */
  function Default(): (r: LogEntry)
    ensures r.entry.Empty? && r.logSeqNum == 0
    ensures !Keyed(r)
  {
    LogEntry(Empty, 0)
  }

  /** Does the record carry a key? Exactly the `Put` and `Del` mutations do. */
  predicate Keyed(x: LogEntry)
  {
    x.entry.Put? || x.entry.Del?
  }

  /** The key of a mutation, when it has one (the `match` at the head of `SkipList::insert`). */
  function KeyOf(e: Entry): (k: Option<Bytes>)
    ensures k.Some? <==> !e.Empty?
    ensures e.Put? ==> k == Some(e.key)
    ensures e.Del? ==> k == Some(e.key)
  {
    match e
    case Put(key, _) => Some(key)
    case Del(key) => Some(key)
    case Empty => None
  }
}
