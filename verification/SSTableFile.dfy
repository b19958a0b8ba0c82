/** The layout of an SSTable file: header, compressed blocks, index, bloom filter, footer. */
module SSTableFiles {
  import opened Base
  import opened LittleEndian
  import opened SegmentLog
  import opened Blocks
  import opened Bloom

  const MAGIC: uint32 := 0x57495350
  const VERSION: byte := 1
  const HEADER_SIZE := 12
  const RECORD_SIZE := 28
  const FOOTER_SIZE := 52

  /** The code outside this repository: compression, checksum and hash. */
  datatype Externals = Externals(encode: Bytes -> Bytes, decode: Bytes -> Option<Bytes>,
                                 crc: Bytes -> uint32, hash: Hash)

  /** Decompressing what was compressed gives it back. */
  ghost predicate Inverse(x: Externals) {
    forall b :: x.decode(x.encode(b)) == Some(b)
  }

  datatype IndexEntry = IndexEntry(key: Key, offset: nat, size: nat)

  function Header(blockSize: uint32): (b: Bytes)
    ensures |b| == HEADER_SIZE
  {
    Put32(MAGIC) + [VERSION] + Put32(blockSize) + [0, 0, 0]
  }

  function DataBytes(x: Externals, blocks: seq<seq<Entry>>): Bytes {
    if blocks == [] then [] else
    var n := |blocks| - 1;
    DataBytes(x, blocks[..n]) + x.encode(BlockBytes(blocks[n]))
  }

  function FirstKey(b: seq<Entry>): Key {
    if b == [] then Key(0, 0) else b[0].key
  }

  /** Each block under its first key, where it starts and how long it is. */
  function IndexOf(x: Externals, blocks: seq<seq<Entry>>): (index: seq<IndexEntry>)
    ensures |index| == |blocks|
  {
    if blocks == [] then [] else
    var n := |blocks| - 1;
    IndexOf(x, blocks[..n])
    + [IndexEntry(FirstKey(blocks[n]), HEADER_SIZE + |DataBytes(x, blocks[..n])|, |x.encode(BlockBytes(blocks[n]))|)]
  }

  /** seriesID(8) + timestamp(8) + offset(8) + size(4) */
  function RecordBytes(r: IndexEntry): (b: Bytes)
    ensures |b| == RECORD_SIZE
  {
    Put64(r.key.series) + Put64(Unsigned(r.key.timestamp)) + Put64(Low64(r.offset)) + Put32(Low32(r.size))
  }

  function IndexBytes(index: seq<IndexEntry>): (b: Bytes)
    ensures |b| == RECORD_SIZE * |index|
  {
    if index == [] then [] else
    var n := |index| - 1;
    IndexBytes(index[..n]) + RecordBytes(index[n])
  }

  function Footer(indexOffset: nat, indexSize: nat, bloomOffset: nat, bloomSize: nat, count: nat,
                  checksum: uint32): (b: Bytes)
    ensures |b| == FOOTER_SIZE
  {
    Put32(MAGIC) + [VERSION] + [0, 0, 0] + Put64(Low64(indexOffset)) + Put64(Low64(indexSize))
    + Put64(Low64(bloomOffset)) + Put64(Low64(bloomSize)) + Put64(Low64(count)) + Put32(checksum)
  }

  /** Blocks, index and filter go through the checksum, and the footer records where they are. */
  function WithFooter(x: Externals, data: Bytes, index: Bytes, filter: Bytes, count: nat): Bytes {
    data + index + filter
    + Footer(|data|, |index|, |data| + |index|, |filter|, count, x.crc(data + index + filter))
  }

  function FileBytes(x: Externals, blockSize: uint32, blocks: seq<seq<Entry>>, filter: Filter): Bytes {
    WithFooter(x, Header(blockSize) + DataBytes(x, blocks), IndexBytes(IndexOf(x, blocks)), FilterBytes(filter),
               Count(blocks))
  }

  /** The number of entries in all blocks. */
  function Count(blocks: seq<seq<Entry>>): nat {
    if blocks == [] then 0 else Count(blocks[..|blocks| - 1]) + |blocks[|blocks| - 1]|
  }

  // ----- reading a file back

  /** ReadAt: all of the bytes asked for, or an error; none at all can be read behind the end, too. */
  function ReadAt(file: Bytes, offset: nat, size: nat): (r: Result<Bytes>)
    ensures r.Ok? ==> |r.value| == size
  {
    if offset + size <= |file| then Ok(file[offset..offset + size])
    else if size == 0 && offset < 0x8000_0000_0000_0000 then Ok([])
    else Err("EOF")
  }

  /** The first n bytes that a section reader yields: it stops at the end of the file. */
  function Section(file: Bytes, n: nat): Bytes {
    if n <= |file| then file[..n] else file
  }

  function DecodeRecord(data: Bytes): IndexEntry
    requires |data| == RECORD_SIZE
  {
    IndexEntry(Key(Get64(data[0..8]), Signed(Get64(data[8..16]))), Get64(data[16..24]), Get32(data[24..28]))
  }

  function DecodeIndex(data: Bytes): (index: seq<IndexEntry>)
    requires |data| % RECORD_SIZE == 0
    ensures |index| == |data| / RECORD_SIZE
  {
    if data == [] then []
    else [DecodeRecord(data[..RECORD_SIZE])] + DecodeIndex(data[RECORD_SIZE..])
  }

  /** What OpenReader learns of a file. */
  datatype Opened = Opened(index: seq<IndexEntry>, entryCount: nat, bloomFilter: Option<Filter>)

  function Open(x: Externals, file: Bytes): Result<Opened> {
    if |file| < FOOTER_SIZE then Err("sstable too small") else
    var footer := file[|file| - FOOTER_SIZE..];
    if Get32(footer[0..4]) != MAGIC then Err("invalid sstable magic") else
    if footer[4] != VERSION then Err("unsupported sstable version") else
    OpenAt(x, file, Get64(footer[8..16]), Get64(footer[16..24]), Get64(footer[24..32]), Get64(footer[32..40]),
           Get64(footer[40..48]), Get32(footer[48..52]))
  }

  /** Index, filter and checksum, once the footer has said where they are. */
  function OpenAt(x: Externals, file: Bytes, indexOffset: nat, indexSize: nat, bloomOffset: nat, bloomSize: nat,
                  count: nat, checksum: uint32): Result<Opened> {
    if indexSize % RECORD_SIZE != 0 then Err("corrupt index size") else
    match ReadAt(file, indexOffset, indexSize)
    case Err(e) => Err(e)
    case Ok(indexData) =>
      match if bloomSize == 0 then Ok(None) else OpenFilter(file, bloomOffset, bloomSize)
      case Err(e) => Err(e)
      case Ok(filter) =>
        var hashed := if bloomSize > 0 then bloomOffset + bloomSize else indexOffset + indexSize;
        if x.crc(Section(file, hashed)) != checksum then Err("sstable checksum mismatch")
        else Ok(Opened(DecodeIndex(indexData), count, filter))
  }

  function OpenFilter(file: Bytes, offset: nat, size: nat): (r: Result<Option<Filter>>)
    ensures r.Ok? ==> offset + size <= |file|
  {
    match ReadAt(file, offset, size)
    case Err(e) => Err(e)
    case Ok(data) =>
      match DecodeFilter(data)
      case Err(e) => Err(e)
      case Ok(f) => Ok(Some(f))
  }

  // ----- which files open

  /** The 28 bytes of an index record. */
  ghost predicate RecordReads(b: Bytes, r: IndexEntry) {
    && |b| == 28 && Get64(b[0..8]) == r.key.series && (Get64(b[8..16]) - r.key.timestamp) % TWO_64 == 0
    && Get64(b[16..24]) == r.offset && Get32(b[24..28]) == r.size
  }

  ghost predicate RecordsRead(data: Bytes, index: seq<IndexEntry>) {
    && |data| == 28 * |index|
    && forall i :: 0 <= i < |index| ==> RecordReads(data[28 * i..28 * i + 28], index[i])
  }

  ghost predicate IndexReads(file: Bytes, offset: nat, size: nat, index: seq<IndexEntry>) {
    if size == 0 then index == [] && (offset <= |file| || offset < 0x8000_0000_0000_0000)
    else offset + size <= |file| && RecordsRead(file[offset..offset + size], index)
  }

  /** The number of bits, the number of hashes and the bits; a size of zero means that there is no filter. */
  ghost predicate FilterReads(file: Bytes, offset: nat, size: nat, filter: Option<Filter>) {
    if size == 0 then filter.None?
    else
      && 12 <= size && offset + size <= |file| && filter.Some?
      && var b := file[offset..offset + size];
      && filter.value.numBits == Get64(b[0..8]) && filter.value.numHashes == Get32(b[8..12])
      && filter.value.bits == b[12..]
  }

  /**
   * A file that opens: its last 52 bytes carry magic number and version and say where a whole index and
   * filter are, and the checksum they carry is that of all bytes up to the end of these.
   */
  ghost predicate Reads(x: Externals, file: Bytes, o: Opened) {
    && 52 <= |file|
    && var f := file[|file| - 52..];
    var indexOffset, indexSize := Get64(f[8..16]), Get64(f[16..24]);
    var bloomOffset, bloomSize := Get64(f[24..32]), Get64(f[32..40]);
    && Get32(f[0..4]) == 0x5749_5350 && f[4] == 1 && o.entryCount == Get64(f[40..48])
    && IndexReads(file, indexOffset, indexSize, o.index) && FilterReads(file, bloomOffset, bloomSize, o.bloomFilter)
    && x.crc(Section(file, if bloomSize > 0 then bloomOffset + bloomSize else indexOffset + indexSize))
       == Get32(f[48..52])
  }

  lemma SameTimestamp(u: uint64, t: int64)
    ensures (u - t) % TWO_64 == 0 <==> Signed(u) == t
  {}

  lemma RecordIsDecoded(b: Bytes, r: IndexEntry)
    requires |b| == RECORD_SIZE
    ensures DecodeRecord(b) == r <==> RecordReads(b, r)
  {
    SameTimestamp(Get64(b[8..16]), r.key.timestamp);
    hide Get64;
    hide Get32;
  }

  lemma RecordsTail(data: Bytes, index: seq<IndexEntry>)
    requires |data| == 28 * |index| && index != []
    ensures RecordsRead(data, index) <==> RecordReads(data[..28], index[0]) && RecordsRead(data[28..], index[1..])
  {
    hide RecordReads;
    var rest, more := data[28..], index[1..];
    assert data[28 * 0..28 * 0 + 28] == data[..28];
    forall i {:trigger index[i]} | 0 < i < |index|
      ensures rest[28 * (i - 1)..28 * (i - 1) + 28] == data[28 * i..28 * i + 28] && more[i - 1] == index[i]
    {
      TailSlice(data, i);
    }
    if RecordsRead(data, index) {
      forall i | 0 <= i < |more| ensures RecordReads(rest[28 * i..28 * i + 28], more[i]) {
        assert RecordReads(data[28 * (i + 1)..28 * (i + 1) + 28], index[i + 1]);
      }
    }
    if RecordReads(data[..28], index[0]) && RecordsRead(rest, more) {
      forall i | 0 <= i < |index| ensures RecordReads(data[28 * i..28 * i + 28], index[i]) {
        if i > 0 {
          assert RecordReads(rest[28 * (i - 1)..28 * (i - 1) + 28], more[i - 1]);
        }
      }
    }
  }

  lemma TailSlice(data: Bytes, i: nat)
    requires 0 < i && 28 * i + 28 <= |data|
    ensures data[28..][28 * (i - 1)..28 * (i - 1) + 28] == data[28 * i..28 * i + 28]
  {}

  lemma {:induction false} IndexIsDecoded(data: Bytes, index: seq<IndexEntry>)
    requires |data| % RECORD_SIZE == 0
    ensures DecodeIndex(data) == index <==> RecordsRead(data, index)
    decreases |data|
  {
    hide DecodeRecord;
    hide RecordReads;
    if |index| == |data| / 28 && index != [] {
      RecordsTail(data, index);
      RecordIsDecoded(data[..28], index[0]);
      IndexIsDecoded(data[28..], index[1..]);
      hide RecordsRead;
      assert index == [index[0]] + index[1..];
      var decoded := DecodeIndex(data);
      assert decoded[0] == DecodeRecord(data[..28]) && decoded[1..] == DecodeIndex(data[28..]);
    }
  }

  lemma IndexIff(file: Bytes, offset: nat, size: nat, index: seq<IndexEntry>)
    ensures IndexReads(file, offset, size, index) <==>
            size % RECORD_SIZE == 0 && ReadAt(file, offset, size).Ok?
            && DecodeIndex(ReadAt(file, offset, size).value) == index
  {
    hide DecodeRecord;
    hide RecordReads;
    if size > 0 && size % RECORD_SIZE == 0 && offset + size <= |file| {
      IndexIsDecoded(file[offset..offset + size], index);
    }
  }

  lemma FilterIff(file: Bytes, offset: nat, size: nat, filter: Option<Filter>)
    ensures FilterReads(file, offset, size, filter) <==>
            (if size == 0 then Ok(None) else OpenFilter(file, offset, size)) == Ok(filter)
  {}

  /** A file opens exactly as what its bytes say, and not at all if they say nothing consistent. */
  lemma OpenAcceptsIff(x: Externals, file: Bytes, o: Opened)
    ensures Open(x, file) == Ok(o) <==> Reads(x, file, o)
  {
    hide DecodeIndex;
    hide IndexReads;
    hide FilterReads;
    hide OpenFilter;
    hide ReadAt;
    hide Section;
    hide Get64;
    hide Get32;
    if |file| >= 52 {
      var f := file[|file| - 52..];
      IndexIff(file, Get64(f[8..16]), Get64(f[16..24]), o.index);
      FilterIff(file, Get64(f[24..32]), Get64(f[32..40]), o.bloomFilter);
    }
  }

  lemma OpenIsExact(x: Externals, file: Bytes)
    ensures forall o :: Open(x, file) == Ok(o) <==> Reads(x, file, o)
  {
    hide Open;
    hide Reads;
    forall o ensures Open(x, file) == Ok(o) <==> Reads(x, file, o) {
      OpenAcceptsIff(x, file, o);
    }
  }

  /**
   * Whatever the bytes before the footer have become, the file is refused if their checksum is not the
   * one in the footer.
   */
  lemma ChangedFileRefused(x: Externals, body: Bytes, a: nat, b: nat, c: nat, d: nat, n: nat, checksum: uint32)
    requires a < TWO_64 && b < TWO_64 && c < TWO_64 && 0 < d < TWO_64 && n < TWO_64
    requires c + d == |body| && x.crc(body) != checksum
    ensures Open(x, body + Footer(a, b, c, d, n, checksum)).Err?
  {
    OpenFooter(x, body, a, b, c, d, n, checksum);
    hide Open;
    hide Footer;
    hide DecodeIndex;
    hide OpenFilter;
    hide ReadAt;
    assert (body + Footer(a, b, c, d, n, checksum))[..|body|] == body;
  }

  // ----- the layout, byte by byte

  lemma HeaderParts(blockSize: uint32)
    ensures Header(blockSize) == [0x50, 0x53, 0x49, 0x57, 1] + Put32(blockSize) + [0, 0, 0]
  {
    MagicBytes();
    hide Put;
  }

  lemma MagicBytes()
    ensures Put32(MAGIC) == [0x50, 0x53, 0x49, 0x57]
  {
    assert Put(0x57, 1) == [0x57] && Put(0x5749, 2) == [0x49, 0x57] && Put(0x57_4953, 3) == [0x53, 0x49, 0x57];
  }

  lemma RecordParts(r: IndexEntry)
    ensures var b := RecordBytes(r);
            && b[0..8] == Put64(r.key.series) && b[8..16] == Put64(Unsigned(r.key.timestamp))
            && b[16..24] == Put64(Low64(r.offset)) && b[24..28] == Put32(Low32(r.size))
  {
    hide Put32;
    hide Put64;
  }

  // ----- round trip

  /** Offsets and sizes that their fields can hold. */
  ghost predicate Addressable(x: Externals, blocks: seq<seq<Entry>>) {
    && HEADER_SIZE + |DataBytes(x, blocks)| + RECORD_SIZE * |blocks| < TWO_64 && Count(blocks) < TWO_64
    && forall b :: b in blocks ==> b != [] && |x.encode(BlockBytes(b))| < LIMIT
  }

  lemma RecordRoundTrip(r: IndexEntry)
    requires r.offset < TWO_64 && r.size < LIMIT
    ensures DecodeRecord(RecordBytes(r)) == r
  {
    hide Put32;
    hide Put64;
    var b := RecordBytes(r);
    assert b[0..8] == Put64(r.key.series) && b[8..16] == Put64(Unsigned(r.key.timestamp));
    assert b[16..24] == Put64(r.offset) && b[24..28] == Put32(r.size);
    SignedUnsigned(r.key.timestamp);
  }

  lemma {:induction false} DecodeAppend(data: Bytes, record: Bytes)
    requires |data| % RECORD_SIZE == 0 && |record| == RECORD_SIZE
    ensures DecodeIndex(data + record) == DecodeIndex(data) + [DecodeRecord(record)]
    decreases |data|
  {
    hide DecodeRecord;
    if data == [] {
      assert data + record == record && record[..RECORD_SIZE] == record && record[RECORD_SIZE..] == [];
    } else {
      assert (data + record)[..RECORD_SIZE] == data[..RECORD_SIZE];
      assert (data + record)[RECORD_SIZE..] == data[RECORD_SIZE..] + record;
      DecodeAppend(data[RECORD_SIZE..], record);
    }
  }

  lemma {:induction false} IndexRoundTrip(index: seq<IndexEntry>)
    requires forall r :: r in index ==> r.offset < TWO_64 && r.size < LIMIT
    ensures DecodeIndex(IndexBytes(index)) == index
  {
    hide RecordBytes;
    hide DecodeRecord;
    if index != [] {
      var n := |index| - 1;
      IndexRoundTrip(index[..n]);
      RecordRoundTrip(index[n]);
      DecodeAppend(IndexBytes(index[..n]), RecordBytes(index[n]));
    }
  }

  lemma IndexFits(x: Externals, blocks: seq<seq<Entry>>)
    requires Addressable(x, blocks)
    ensures forall r :: r in IndexOf(x, blocks) ==> r.offset < TWO_64 && r.size < LIMIT
  {
    if blocks != [] {
      var n := |blocks| - 1;
      assert blocks[n] in blocks && forall b :: b in blocks[..n] ==> b in blocks;
      assert Count(blocks[..n]) <= Count(blocks);
      IndexFits(x, blocks[..n]);
    }
  }

  lemma FooterParts(a: nat, b: nat, c: nat, d: nat, n: nat, checksum: uint32)
    requires a < TWO_64 && b < TWO_64 && c < TWO_64 && d < TWO_64 && n < TWO_64
    ensures var f := Footer(a, b, c, d, n, checksum);
            && f[0..4] == Put32(MAGIC) && f[4] == VERSION && f[8..16] == Put64(a) && f[16..24] == Put64(b)
            && f[24..32] == Put64(c) && f[32..40] == Put64(d) && f[40..48] == Put64(n) && f[48..52] == Put32(checksum)
  {
    hide Put32;
    hide Put64;
  }

  lemma Slices(a: Bytes, b: Bytes, c: Bytes, d: Bytes)
    ensures var file := a + b + c + d;
            && file[..|a| + |b| + |c|] == a + b + c
            && file[|a|..|a| + |b|] == b && file[|a| + |b|..|a| + |b| + |c|] == c
            && file[|file| - |d|..] == d
  {}

  lemma OpenAtParts(x: Externals, a: Bytes, b: Bytes, c: Bytes, footer: Bytes, n: nat, filter: Filter)
    requires 0 < |c| && |b| % RECORD_SIZE == 0 && DecodeFilter(c) == Ok(filter)
    ensures OpenAt(x, a + b + c + footer, |a|, |b|, |a| + |b|, |c|, n, x.crc(a + b + c))
         == Ok(Opened(DecodeIndex(b), n, Some(filter)))
  {
    hide DecodeIndex;
    hide DecodeFilter;
    Slices(a, b, c, footer);
  }

  /** The footer is found at the end of the file, and its fields are read back. */
  lemma OpenFooter(x: Externals, body: Bytes, a: nat, b: nat, c: nat, d: nat, n: nat, checksum: uint32)
    requires a < TWO_64 && b < TWO_64 && c < TWO_64 && d < TWO_64 && n < TWO_64
    ensures var file := body + Footer(a, b, c, d, n, checksum);
            Open(x, file) == OpenAt(x, file, a, b, c, d, n, checksum)
  {
    FooterParts(a, b, c, d, n, checksum);
    var footer := Footer(a, b, c, d, n, checksum);
    hide Footer;
    hide OpenAt;
    assert (body + footer)[|body + footer| - FOOTER_SIZE..] == footer;
  }

  lemma WithFooterOpens(x: Externals, a: Bytes, b: Bytes, c: Bytes, n: nat, filter: Filter)
    requires |a| + |b| < TWO_64 && 0 < |c| < TWO_64 && n < TWO_64
    requires |b| % RECORD_SIZE == 0 && DecodeFilter(c) == Ok(filter)
    ensures var file := WithFooter(x, a, b, c, n);
            && Open(x, file) == Ok(Opened(DecodeIndex(b), n, Some(filter)))
            && file[..|file| - FOOTER_SIZE] == a + b + c
  {
    hide Open;
    hide OpenAt;
    hide Footer;
    hide DecodeIndex;
    hide DecodeFilter;
    var body := a + b + c;
    var checksum := x.crc(body);
    var footer := Footer(|a|, |b|, |a| + |b|, |c|, n, checksum);
    OpenFooter(x, body, |a|, |b|, |a| + |b|, |c|, n, checksum);
    OpenAtParts(x, a, b, c, footer, n, filter);
    assert WithFooter(x, a, b, c, n) == body + footer;
    assert (body + footer)[..|body|] == body;
  }

  /**
   * Whole-file round trip: opening what the writer wrote recovers index, entry count and filter, and
   * the region whose checksum is verified is exactly the bytes that were hashed.
   */
  lemma FileRoundTrip(x: Externals, blockSize: uint32, blocks: seq<seq<Entry>>, filter: Filter)
    requires Addressable(x, blocks) && 12 + |filter.bits| < TWO_64
    ensures var file := FileBytes(x, blockSize, blocks, filter);
            && Open(x, file) == Ok(Opened(IndexOf(x, blocks), Count(blocks), Some(filter)))
            && file[..|file| - FOOTER_SIZE]
               == Header(blockSize) + DataBytes(x, blocks) + IndexBytes(IndexOf(x, blocks)) + FilterBytes(filter)
  {
    IndexFits(x, blocks);
    IndexRoundTrip(IndexOf(x, blocks));
    FilterRoundTrip(filter);
    hide WithFooter;
    hide Open;
    hide DecodeIndex;
    hide IndexBytes;
    hide FilterBytes;
    hide DataBytes;
    WithFooterOpens(x, Header(blockSize) + DataBytes(x, blocks), IndexBytes(IndexOf(x, blocks)), FilterBytes(filter),
                    Count(blocks), filter);
  }

  /** Where the footer says that index and filter are, how many entries there are, and the checksum. */
  ghost predicate Points(x: Externals, file: Bytes, index: nat, filter: nat, end: nat, count: nat)
    requires index <= filter <= end < TWO_64 && count < TWO_64
  {
    && |file| == end + 52
    && var f := file[end..];
    && f[0..4] == [0x50, 0x53, 0x49, 0x57] && f[4] == 1
    && f[8..16] == Put64(index) && f[16..24] == Put64(filter - index)
    && f[24..32] == Put64(filter) && f[32..40] == Put64(end - filter)
    && f[40..48] == Put64(count) && f[48..52] == Put32(x.crc(file[..end]))
  }

  lemma FooterPoints(x: Externals, a: Bytes, b: Bytes, c: Bytes, n: nat)
    requires |a| + |b| + |c| < TWO_64 && n < TWO_64
    ensures Points(x, WithFooter(x, a, b, c, n), |a|, |a| + |b|, |a| + |b| + |c|, n)
  {
    hide Put32;
    hide Put64;
    hide Footer;
    MagicBytes();
    FooterParts(|a|, |b|, |a| + |b|, |c|, n, x.crc(a + b + c));
    Slices(a, b, c, Footer(|a|, |b|, |a| + |b|, |c|, n, x.crc(a + b + c)));
  }

  /** A written file: header and blocks, 28 bytes of index for each block, the filter, and the footer. */
  lemma FooterOfFile(x: Externals, blockSize: uint32, blocks: seq<seq<Entry>>, filter: Filter)
    requires Count(blocks) < TWO_64
    requires 12 + |DataBytes(x, blocks)| + 28 * |blocks| + 12 + |filter.bits| < TWO_64
    ensures var index := 12 + |DataBytes(x, blocks)|;
            Points(x, FileBytes(x, blockSize, blocks, filter), index, index + 28 * |blocks|,
                   index + 28 * |blocks| + 12 + |filter.bits|, Count(blocks))
  {
    hide Points;
    hide WithFooter;
    hide DataBytes;
    hide IndexBytes;
    hide FilterBytes;
    hide Header;
    hide Count;
    FooterPoints(x, Header(blockSize) + DataBytes(x, blocks), IndexBytes(IndexOf(x, blocks)), FilterBytes(filter),
                 Count(blocks));
  }
}
