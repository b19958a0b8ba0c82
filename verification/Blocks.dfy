/** The block format of an SSTable: encoding, full decoding and the search that decodes one entry. */
module Blocks {
  import opened Base
  import opened LittleEndian
  import opened SortedEntries

  const ENTRY_HEADER := 25
  const LIMIT := 0x1_0000_0000

  /** uint32 of the encoded length: exact for every entry below 4 GiB. */
  function EncodedSize(e: Entry): uint32 {
    Low32(ENTRY_HEADER + |e.cell.value|)
  }

  predicate Small(e: Entry) {
    ENTRY_HEADER + |e.cell.value| < LIMIT
  }

  lemma EncodedSizeExact(e: Entry)
    requires Small(e)
    ensures EncodedSize(e) == ENTRY_HEADER + |e.cell.value|
  {}

  /** entry length(4) + seriesID(8) + timestamp(8) + deleted flag(1) + value length(4) + value */
  function EntryBytes(e: Entry): (b: Bytes)
    ensures |b| == ENTRY_HEADER + |e.cell.value|
  {
    Put32(Low32(ENTRY_HEADER + |e.cell.value| - 4)) + Put64(e.key.series) + Put64(Unsigned(e.key.timestamp))
    + [if e.cell.deleted then 1 else 0] + Put32(Low32(|e.cell.value|)) + e.cell.value
  }

  function BlockBytes(es: seq<Entry>): Bytes {
    if es == [] then [] else BlockBytes(es[..|es| - 1]) + EntryBytes(es[|es| - 1])
  }

  /** The exact number of bytes the entries encode to. */
  function TotalSize(es: seq<Entry>): nat {
    if es == [] then 0 else TotalSize(es[..|es| - 1]) + ENTRY_HEADER + |es[|es| - 1].cell.value|
  }

  lemma {:induction false} BlockBytesLength(es: seq<Entry>)
    ensures |BlockBytes(es)| == TotalSize(es)
  {
    if es != [] {
      BlockBytesLength(es[..|es| - 1]);
    }
  }

  lemma TotalSizePrefix(es: seq<Entry>, i: nat)
    requires i <= |es|
    ensures TotalSize(es[..i]) <= TotalSize(es)
  {
    if i < |es| {
      assert es[..|es| - 1][..i] == es[..i];
      TotalSizePrefix(es[..|es| - 1], i);
    } else {
      assert es[..i] == es;
    }
  }

  lemma EncodedPrefix(es: seq<Entry>, i: nat)
    requires i < |es|
    ensures BlockBytes(es[..i + 1]) == BlockBytes(es[..i]) + EntryBytes(es[i])
    ensures TotalSize(es[..i + 1]) == TotalSize(es[..i]) + ENTRY_HEADER + |es[i].cell.value| <= TotalSize(es)
  {
    assert es[..i + 1][..i] == es[..i];
    TotalSizePrefix(es, i + 1);
  }

  method EncodeEntry(dst: array<byte>, at: nat, e: Entry)
    requires Small(e) && at + ENTRY_HEADER + |e.cell.value| <= dst.Length
    modifies dst
    ensures dst[..at + ENTRY_HEADER + |e.cell.value|] == old(dst[..at]) + EntryBytes(e)
  {
    hide Put;
    ghost var pre := dst[..at];
    ghost var a, b := Put32(Low32(ENTRY_HEADER + |e.cell.value| - 4)), Put64(e.key.series);
    ghost var c, d := Put64(Unsigned(e.key.timestamp)), [if e.cell.deleted then 1 else 0];
    ghost var f := Put32(Low32(|e.cell.value|));
    Store(dst, at, EncodedSize(e) - 4, 4);
    Store(dst, at + 4, e.key.series, 8);
    Store(dst, at + 12, Unsigned(e.key.timestamp), 8);
    dst[at + 20] := if e.cell.deleted then 1 else 0;
    assert dst[..at + 21] == pre + a + b + c + d;
    Store(dst, at + 21, Low32(|e.cell.value|), 4);
    Copy(dst, at + 25, e.cell.value);
    Regroup(pre, a, b, c, d, f, e.cell.value);
  }

  lemma Regroup(pre: Bytes, a: Bytes, b: Bytes, c: Bytes, d: Bytes, e: Bytes, f: Bytes)
    ensures pre + a + b + c + d + e + f == pre + (a + b + c + d + e + f)
  {}

  class Block {
    var entries: seq<Entry>
    var size: uint32

    ghost predicate Valid()
      reads this
    {
      (forall e :: e in entries ==> Small(e)) && size == Low32(TotalSize(entries))
    }

    constructor ()
      ensures Valid() && entries == [] && size == 0
    {
      entries, size := [], 0;
    }

    /** The size wraps like the uint32 it is; `Writer.Add` keeps it from doing so. */
    method Add(e: Entry)
      requires Valid() && Small(e)
      modifies this
      ensures Valid() && entries == old(entries) + [e]
      ensures size == (old(size) + 25 + |e.cell.value|) % 0x1_0000_0000
    {
      assert (entries + [e])[..|entries|] == entries;
      entries := entries + [e];
      size := (size + EncodedSize(e)) % LIMIT;
    }

    /**
     * Encodes into the scratch buffer if it is large enough and into a new one otherwise: whatever
     * the buffer held before, its first `size` bytes are the block's encoding.
     */
    method Encode(scratch: array<byte>) returns (buf: array<byte>)
      requires Valid() && TotalSize(entries) < LIMIT
      modifies scratch
      ensures buf == scratch || fresh(buf)
      ensures buf.Length >= size == |BlockBytes(entries)| && buf[..size] == BlockBytes(entries)
    {
      BlockBytesLength(entries);
      assert size == TotalSize(entries);
      if scratch.Length < size {
        buf := new byte[size];
      } else {
        buf := scratch;
      }
      EncodeEntries(buf, entries);
    }
  }

  /** Writes the entries one behind the other from the start of the buffer. */
  method EncodeEntries(buf: array<byte>, entries: seq<Entry>)
    requires TotalSize(entries) <= buf.Length && TotalSize(entries) < LIMIT
    requires forall e :: e in entries ==> Small(e)
    modifies buf
    ensures buf[..TotalSize(entries)] == BlockBytes(entries)
  {
    assert entries[..0] == [] && entries[..|entries|] == entries;
    assert BlockBytes([]) == [] && TotalSize([]) == 0;
    hide *;
    var offset: nat := 0;
    for i := 0 to |entries|
      invariant offset == TotalSize(entries[..i]) <= TotalSize(entries)
      invariant buf[..offset] == BlockBytes(entries[..i])
    {
      EncodedPrefix(entries, i);
      EncodedSizeExact(entries[i]);
      var entrySize := EncodedSize(entries[i]);
      EncodeEntry(buf, offset, entries[i]);
      offset := offset + entrySize;
    }
  }

  // ----- decoding

  /** One turn of the decoding loop. */
  datatype Turn<+T> = Stop | Bad(error: string) | Got(value: T, size: nat)

  function ReadEntry(data: Bytes): (t: Turn<Entry>)
    ensures t.Got? ==> 0 < t.size <= |data|
  {
    if data == [] then Stop
    else if |data| < 4 then Bad("corrupt block entry length")
    else
      var entryLength := Get32(data[0..4]);
      if 4 + entryLength > |data| || entryLength < 21 then Bad("corrupt block entry") else
      var series := Get64(data[4..12]);
      var timestamp := Signed(Get64(data[12..20]));
      var deleted := data[20] != 0;
      var valueLength := Get32(data[21..25]);
      if 25 + valueLength > 4 + entryLength then Bad("corrupt block value") else
      Got(Entry(Key(series, timestamp), Cell(deleted, data[25..25 + valueLength])), 4 + entryLength)
  }

  /** The same walk, but entries of other keys are skipped without looking at their values. */
  function ProbeEntry(data: Bytes, k: Key): (t: Turn<Option<Cell>>)
    ensures t.Got? ==> 0 < t.size <= |data|
  {
    if data == [] then Stop
    else if |data| < 4 then Bad("corrupt block entry length")
    else
      var entryLength := Get32(data[0..4]);
      if 4 + entryLength > |data| || entryLength < 21 then Bad("corrupt block entry") else
      var series := Get64(data[4..12]);
      var timestamp := Signed(Get64(data[12..20]));
      if series != k.series || timestamp != k.timestamp then Got(None, 4 + entryLength) else
      var deleted := data[20] != 0;
      var valueLength := Get32(data[21..25]);
      if 25 + valueLength > 4 + entryLength then Bad("corrupt block value") else
      Got(Some(Cell(deleted, data[25..25 + valueLength])), 4 + entryLength)
  }

  function Parse(data: Bytes): Result<seq<Entry>>
    decreases |data|
  {
    match ReadEntry(data)
    case Stop => Ok([])
    case Bad(e) => Err(e)
    case Got(e, size) =>
      match Parse(data[size..])
      case Err(x) => Err(x)
      case Ok(es) => Ok([e] + es)
  }

  function Probe(data: Bytes, k: Key): Result<Option<Cell>>
    decreases |data|
  {
    match ProbeEntry(data, k)
    case Stop => Ok(None)
    case Bad(e) => Err(e)
    case Got(Some(c), _) => Ok(Some(c))
    case Got(None, size) => Probe(data[size..], k)
  }

  // ----- what decoding accepts

  /** An encoded entry, byte by byte; there may be bytes behind its value. */
  ghost predicate Encodes(b: Bytes, e: Entry) {
    && 25 <= |b| && Get32(b[0..4]) == |b| - 4
    && Get64(b[4..12]) == e.key.series && (Get64(b[12..20]) - e.key.timestamp) % TWO_64 == 0
    && (e.cell.deleted <==> b[20] != 0)
    && 25 + Get32(b[21..25]) <= |b| && e.cell.value == b[25..25 + Get32(b[21..25])]
  }

  /** Entries one behind the other, and nothing behind them. */
  ghost predicate Holds(data: Bytes, es: seq<Entry>)
    decreases |es|
  {
    if es == [] then data == []
    else exists n {:trigger data[..n]} :: 0 <= n <= |data| && Encodes(data[..n], es[0]) && Holds(data[n..], es[1..])
  }

  lemma SameTimestamp(u: uint64, t: int64)
    ensures (u - t) % TWO_64 == 0 <==> Signed(u) == t
  {}

  lemma TurnReads(b: Bytes, e: Entry)
    requires 4 <= |b| && |b| == 4 + Get32(b[0..4])
    ensures Encodes(b, e) <==> ReadEntry(b) == Got(e, |b|)
  {
    if |b| >= 25 {
      SameTimestamp(Get64(b[12..20]), e.key.timestamp);
    }
  }

  /** A turn looks at no byte behind the entry. */
  lemma TurnInFront(data: Bytes, n: nat)
    requires 4 <= n <= |data| && n == 4 + Get32(data[0..4])
    ensures data[..n][0..4] == data[0..4] && ReadEntry(data) == ReadEntry(data[..n])
  {
    var b := data[..n];
    assert b[0..4] == data[0..4];
    if n >= 25 {
      assert b[4..12] == data[4..12] && b[12..20] == data[12..20] && b[20] == data[20] && b[21..25] == data[21..25];
      var m := Get32(data[21..25]);
      assert 25 + m <= n ==> b[25..25 + m] == data[25..25 + m];
    }
  }

  lemma TurnStops(data: Bytes)
    ensures ReadEntry(data).Stop? <==> data == []
    ensures ReadEntry(data).Got? ==> 4 <= |data| && ReadEntry(data).size == 4 + Get32(data[0..4])
  {}

  lemma FirstEncoded(data: Bytes, es: seq<Entry>) returns (n: nat)
    requires Holds(data, es) && es != []
    ensures 4 <= n <= |data| && n == 4 + Get32(data[0..4]) && Encodes(data[..n], es[0]) && Holds(data[n..], es[1..])
  {
    n :| 0 <= n <= |data| && Encodes(data[..n], es[0]) && Holds(data[n..], es[1..]);
    assert data[..n][0..4] == data[0..4];
    hide Holds;
  }

  lemma {:induction false} HeldIsParsed(data: Bytes, es: seq<Entry>)
    requires Holds(data, es)
    ensures Parse(data) == Ok(es)
    decreases |es|
  {
    hide ReadEntry;
    hide Encodes;
    TurnStops(data);
    if es != [] {
      var n := FirstEncoded(data, es);
      TurnInFront(data, n);
      TurnReads(data[..n], es[0]);
      hide Holds;
      HeldIsParsed(data[n..], es[1..]);
      assert es == [es[0]] + es[1..];
    }
  }

  lemma {:induction false} ParsedIsHeld(data: Bytes, es: seq<Entry>)
    requires Parse(data) == Ok(es)
    ensures Holds(data, es)
    decreases |data|
  {
    hide ReadEntry;
    hide Encodes;
    TurnStops(data);
    var t := ReadEntry(data);
    if t.Got? {
      var n := t.size;
      var rest := Parse(data[n..]);
      assert es == [t.value] + rest.value && es[1..] == rest.value;
      TurnInFront(data, n);
      TurnReads(data[..n], es[0]);
      ParsedIsHeld(data[n..], es[1..]);
      assert Encodes(data[..n], es[0]);
    }
  }

  /** A block decodes to exactly the entries whose bytes it holds, and to nothing if it holds others. */
  lemma ParseAcceptsIff(data: Bytes, es: seq<Entry>)
    ensures Parse(data) == Ok(es) <==> Holds(data, es)
  {
    if Holds(data, es) {
      HeldIsParsed(data, es);
    }
    if Parse(data) == Ok(es) {
      ParsedIsHeld(data, es);
    }
  }

  lemma ParseIsExact(data: Bytes)
    ensures forall es :: Parse(data) == Ok(es) <==> Holds(data, es)
  {
    hide Parse;
    hide Holds;
    forall es ensures Parse(data) == Ok(es) <==> Holds(data, es) {
      ParseAcceptsIff(data, es);
    }
  }

  /** readBlock's loop over the decompressed bytes. */
  method ParseBlock(data: Bytes) returns (res: Result<seq<Entry>>)
    ensures res == Parse(data)
    ensures forall es :: res == Ok(es) <==> Holds(data, es)
  {
    hide ReadEntry;
    hide Holds;
    ParseIsExact(data);
    var entries, left := [], data;
    assert Parse(data).Ok? ==> [] + Parse(data).value == Parse(data).value;
    while true
      invariant Parse(data) == match Parse(left) case Err(x) => Err(x) case Ok(es) => Ok(entries + es)
      decreases |left|
    {
      match ReadEntry(left) {
        case Stop =>
          assert entries + [] == entries;
          return Ok(entries);
        case Bad(e) =>
          return Err(e);
        case Got(e, size) =>
          ghost var rest := Parse(left[size..]);
          assert rest.Ok? ==> entries + ([e] + rest.value) == entries + [e] + rest.value;
          entries, left := entries + [e], left[size..];
      }
    }
  }

  /** findEntryInBlock's loop: it returns at the first entry of the key. */
  method ProbeBlock(data: Bytes, k: Key) returns (res: Result<Option<Cell>>)
    ensures res == Probe(data, k)
    ensures forall es :: Holds(data, es) ==> res == Ok(Search(es, k))
  {
    hide Holds;
    ProbeIsExact(data, k);
    var left := data;
    while true
      invariant Probe(data, k) == Probe(left, k)
      decreases |left|
    {
      match ProbeEntry(left, k) {
        case Stop =>
          return Ok(None);
        case Bad(e) =>
          return Err(e);
        case Got(Some(c), _) =>
          return Ok(Some(c));
        case Got(None, size) =>
          left := left[size..];
      }
    }
  }

  /** On any bytes that decode, the fast search returns the first match of the decoded entries. */
  lemma {:induction false} ProbeRefinesParse(data: Bytes, k: Key)
    ensures Parse(data).Ok? ==> Probe(data, k) == Ok(Search(Parse(data).value, k))
    ensures Probe(data, k).Err? ==> Parse(data).Err?
    decreases |data|
  {
    ProbeMatchesRead(data, k);
    hide ReadEntry;
    hide ProbeEntry;
    match ReadEntry(data) {
      case Got(e, size) =>
        ProbeRefinesParse(data[size..], k);
        if Parse(data[size..]).Ok? {
          var es := Parse(data[size..]).value;
          assert ([e] + es)[0] == e && ([e] + es)[1..] == es;
        }
      case _ =>
    }
  }

  lemma ProbeIsExact(data: Bytes, k: Key)
    ensures forall es :: Holds(data, es) ==> Probe(data, k) == Ok(Search(es, k))
  {
    hide Probe;
    hide Parse;
    hide Holds;
    ProbeRefinesParse(data, k);
    ParseIsExact(data);
  }

  lemma ProbeMatchesRead(data: Bytes, k: Key)
    ensures ReadEntry(data).Stop? ==> ProbeEntry(data, k).Stop?
    ensures ReadEntry(data).Got? ==>
      var t := ReadEntry(data);
      ProbeEntry(data, k) == Got(if t.value.key == k then Some(t.value.cell) else None, t.size)
  {}

  /** Decoding undoes encoding. */
  lemma ReadEncoded(e: Entry, rest: Bytes)
    requires Small(e)
    ensures ReadEntry(EntryBytes(e) + rest) == Got(e, |EntryBytes(e)|)
  {
    var b := EntryBytes(e);
    var data := b + rest;
    EntryParts(e);
    assert data[0..4] == b[0..4] && data[4..12] == b[4..12] && data[12..20] == b[12..20];
    assert data[20] == b[20] && data[21..25] == b[21..25];
    assert data[25..25 + |e.cell.value|] == b[25..];
    SignedUnsigned(e.key.timestamp);
  }

  lemma EntryParts(e: Entry)
    requires Small(e)
    ensures var b := EntryBytes(e);
            && b[0..4] == Put32(21 + |e.cell.value|) && b[4..12] == Put64(e.key.series)
            && b[12..20] == Put64(Unsigned(e.key.timestamp)) && b[20] == (if e.cell.deleted then 1 else 0)
            && b[21..25] == Put32(|e.cell.value|) && b[25..] == e.cell.value
  {
    hide Put32;
    hide Put64;
  }

  lemma {:induction false} BlockBytesConcat(a: seq<Entry>, b: seq<Entry>)
    ensures BlockBytes(a + b) == BlockBytes(a) + BlockBytes(b)
  {
    hide EntryBytes;
    if b == [] {
      assert a + b == a;
    } else {
      var n := |b| - 1;
      assert (a + b)[..|a + b| - 1] == a + b[..n];
      BlockBytesConcat(a, b[..n]);
    }
  }

  lemma BlockBytesFirst(es: seq<Entry>)
    requires es != []
    ensures BlockBytes(es) == EntryBytes(es[0]) + BlockBytes(es[1..])
  {
    hide EntryBytes;
    assert es == [es[0]] + es[1..];
    BlockBytesConcat([es[0]], es[1..]);
    assert BlockBytes([es[0]]) == [] + EntryBytes(es[0]);
  }

  lemma ParseStep(first: Bytes, rest: Bytes, e: Entry, es: seq<Entry>)
    requires ReadEntry(first + rest) == Got(e, |first|) && Parse(rest) == Ok(es)
    ensures Parse(first + rest) == Ok([e] + es)
  {
    hide ReadEntry;
    assert (first + rest)[|first|..] == rest;
  }

  lemma {:induction false} BlockRoundTrip(es: seq<Entry>)
    requires forall e :: e in es ==> Small(e)
    ensures Parse(BlockBytes(es)) == Ok(es)
  {
    if es == [] {
      assert BlockBytes(es) == [];
    } else {
      hide *;
      var first, rest := es[0], es[1..];
      assert es == [first] + rest;
      BlockBytesFirst(es);
      BlockRoundTrip(rest);
      ReadEncoded(first, BlockBytes(rest));
      ParseStep(EntryBytes(first), BlockBytes(rest), first, rest);
    }
  }
}
