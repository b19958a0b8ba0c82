/** Machine integers, keys, entries and the small value types every layer shares. */
module Base {
  type byte = x: int | 0 <= x < 0x100
  type uint32 = x: int | 0 <= x < 0x1_0000_0000
  type uint64 = x: int | 0 <= x < 0x1_0000_0000_0000_0000
  type int64 = x: int | -0x8000_0000_0000_0000 <= x < 0x8000_0000_0000_0000

  /** One more than the largest uint64. */
  const TWO_64 := 0x1_0000_0000_0000_0000

  type Bytes = seq<byte>

  datatype Option<+T> = None | Some(value: T)

  datatype Result<+T> = Ok(value: T) | Err(error: string)

  /** Every key is a series and a timestamp, ordered by series first. */
  datatype Key = Key(series: uint64, timestamp: int64)

  /** What a layer stores under a key: a value, or a tombstone when `deleted`. */
  datatype Cell = Cell(deleted: bool, value: Bytes)

  /** A WAL record, a memtable item and an SSTable entry all carry these fields. */
  datatype Entry = Entry(key: Key, cell: Cell)

  /** The newest cell of each key. */
  type Contents = map<Key, Cell>

  /** The three-way comparison that the skiplist and the SSTable reader share. */
  function Compare(a: Key, b: Key): (c: int)
    ensures c == 0 <==> a == b
  {
    if a.series < b.series then -1
    else if a.series > b.series then 1
    else if a.timestamp < b.timestamp then -1
    else if a.timestamp > b.timestamp then 1
    else 0
  }

  /** Keys are ordered by series, and within a series by timestamp. */
  lemma CompareIsLexicographic(a: Key, b: Key)
    ensures Compare(a, b) < 0 <==> a.series < b.series || (a.series == b.series && a.timestamp < b.timestamp)
    ensures Compare(a, b) > 0 <==> b.series < a.series || (a.series == b.series && b.timestamp < a.timestamp)
  {}

  predicate Less(a: Key, b: Key) {
    Compare(a, b) < 0
  }

  /** Entries in strictly ascending key order, as every SSTable and memtable iterator yields them. */
  ghost predicate Sorted(es: seq<Entry>) {
    forall i, j :: 0 <= i < j < |es| ==> Less(es[i].key, es[j].key)
  }
}
