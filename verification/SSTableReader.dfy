/** The SSTable reader: opening a file, point lookup and iteration. */
module SSTableReader {
  import opened Base
  import opened LittleEndian
  import opened History
  import opened SortedEntries
  import opened SegmentLog
  import opened Blocks
  import opened Bloom
  import opened SSTableFiles

  /** The decompressed bytes of a block, if they can be read. */
  function BlockData(x: Externals, file: Bytes, r: IndexEntry): Result<Bytes> {
    match ReadAt(file, r.offset, r.size)
    case Err(e) => Err(e)
    case Ok(data) =>
      match x.decode(data)
      case None => Err("snappy decompress")
      case Some(b) => Ok(b)
  }

  function BlockEntries(x: Externals, file: Bytes, r: IndexEntry): Result<seq<Entry>> {
    match BlockData(x, file, r)
    case Err(e) => Err(e)
    case Ok(data) => Parse(data)
  }

  function BlockProbe(x: Externals, file: Bytes, r: IndexEntry, k: Key): Result<Option<Cell>> {
    match BlockData(x, file, r)
    case Err(e) => Err(e)
    case Ok(data) => Probe(data, k)
  }

  /** The index leads to the blocks: each under its first key. */
  ghost predicate Serves(x: Externals, file: Bytes, index: seq<IndexEntry>, blocks: seq<seq<Entry>>) {
    && |index| == |blocks|
    && forall i :: 0 <= i < |blocks| ==>
         && blocks[i] != [] && (forall e :: e in blocks[i] ==> Small(e))
         && index[i].key == blocks[i][0].key
         && BlockData(x, file, index[i]) == Ok(BlockBytes(blocks[i]))
  }

  /** The filter lets every entry pass. */
  ghost predicate Admits(f: Filter, hash: Hash, es: seq<Entry>) {
    && Sized(f) && f.numBits > 0 && f.numHashes > 0
    && forall e :: e in es ==> Covers(f.bits, f.numBits, f.numHashes, hash(e.key.series))
  }

  lemma DecodeIndexEnds(left: Bytes)
    requires |left| % RECORD_SIZE == 0
    ensures left == [] ==> DecodeIndex(left) == []
    ensures left != [] ==> DecodeIndex(left) == [DecodeRecord(left[..RECORD_SIZE])] + DecodeIndex(left[RECORD_SIZE..])
  {
    hide DecodeRecord;
  }

  /** One record of 28 bytes after the other. */
  method DecodeRecords(data: Bytes) returns (index: seq<IndexEntry>)
    requires |data| % RECORD_SIZE == 0
    ensures index == DecodeIndex(data)
  {
    hide DecodeRecord;
    hide DecodeIndex;
    index := [];
    var left := data;
    while left != []
      invariant |left| % RECORD_SIZE == 0
      invariant index + DecodeIndex(left) == DecodeIndex(data)
      decreases |left|
    {
      DecodeIndexEnds(left);
      ghost var record, rest := [DecodeRecord(left[..RECORD_SIZE])], DecodeIndex(left[RECORD_SIZE..]);
      assert index + (record + rest) == index + record + rest;
      index, left := index + [DecodeRecord(left[..RECORD_SIZE])], left[RECORD_SIZE..];
    }
    DecodeIndexEnds(left);
  }

  class Reader {
    const x: Externals
    const file: Bytes
    var index: seq<IndexEntry>
    var entryCount: nat
    var bloomFilter: Option<Filter>

    constructor (x: Externals, file: Bytes)
      ensures this.x == x && this.file == file
    {
      this.x, this.file := x, file;
      this.index, this.entryCount, this.bloomFilter := [], 0, None;
    }

    /** Fills in what the footer leads to, or refuses the file. */
    method ReadFooter() returns (ok: bool)
      modifies this
      ensures ok <==> Open(x, file).Ok?
      ensures ok ==> Open(x, file) == Ok(Opened(index, entryCount, bloomFilter))
      ensures forall o :: Reads(x, file, o) <==> ok && o == Opened(index, entryCount, bloomFilter)
    {
      OpenIsExact(x, file);
      hide Reads;
      hide Get32;
      hide Get64;
      hide DecodeFilter;
      if |file| < FOOTER_SIZE {
        return false;
      }
      var footer := file[|file| - FOOTER_SIZE..];
      if Get32(footer[0..4]) != MAGIC || footer[4] != VERSION {
        return false;
      }
      var indexOffset: nat, indexSize: nat := Get64(footer[8..16]), Get64(footer[16..24]);
      var bloomOffset: nat, bloomSize: nat := Get64(footer[24..32]), Get64(footer[32..40]);
      var checksum := Get32(footer[48..52]);
      entryCount := Get64(footer[40..48]);
      var indexOk := ReadIndex(indexOffset, indexSize);
      if !indexOk {
        return false;
      }
      bloomFilter := None;
      if bloomSize > 0 {
        var f := OpenFilter(file, bloomOffset, bloomSize);
        if f.Err? {
          return false;
        }
        bloomFilter := f.value;
      }
      var hashed := if bloomSize > 0 then bloomOffset + bloomSize else indexOffset + indexSize;
      return x.crc(Section(file, hashed)) == checksum;
    }

    method ReadIndex(offset: nat, size: nat) returns (ok: bool)
      modifies this`index
      ensures ok <==> size % RECORD_SIZE == 0 && ReadAt(file, offset, size).Ok?
      ensures ok ==> index == DecodeIndex(ReadAt(file, offset, size).value)
    {
      if size % RECORD_SIZE != 0 {
        return false;
      }
      var data := ReadAt(file, offset, size);
      if data.Err? {
        return false;
      }
      index := DecodeRecords(data.value);
      return true;
    }

    /** The last block whose first key is not above the target, by binary search. */
    method FindBlock(k: Key) returns (i: nat)
      requires forall a, b :: 0 <= a < b < |index| ==> Less(index[a].key, index[b].key)
      ensures i <= |index|
      ensures forall j :: 0 <= j < i ==> Compare(index[j].key, k) <= 0
      ensures forall j :: i <= j < |index| ==> Compare(index[j].key, k) > 0
    {
      var low, high := 0, |index|;
      while low < high
        invariant 0 <= low <= high <= |index|
        invariant forall j :: 0 <= j < low ==> Compare(index[j].key, k) <= 0
        invariant forall j :: high <= j < |index| ==> Compare(index[j].key, k) > 0
      {
        var mid := (low + high) / 2;
        if Compare(index[mid].key, k) > 0 {
          high := mid;
        } else {
          low := mid + 1;
        }
      }
      i := low;
    }

    method FindEntryInBlock(r: IndexEntry, k: Key) returns (res: Result<Option<Cell>>)
      ensures res == BlockProbe(x, file, r, k)
    {
      var data := BlockData(x, file, r);
      if data.Err? {
        return Err(data.error);
      }
      res := ProbeBlock(data.value, k);
    }

    method ReadBlock(r: IndexEntry) returns (res: Result<seq<Entry>>)
      ensures res == BlockEntries(x, file, r)
    {
      var data := BlockData(x, file, r);
      if data.Err? {
        return Err(data.error);
      }
      res := ParseBlock(data.value);
    }

    /** Without a filter every series passes. */
    ghost predicate Passes(k: Key)
      reads this
    {
      bloomFilter.Some? ==>
        && bloomFilter.value.numBits > 0 && bloomFilter.value.numHashes > 0
        && Covers(bloomFilter.value.bits, bloomFilter.value.numBits, bloomFilter.value.numHashes, x.hash(k.series))
    }

    /**
     * Filter, block search and entry search. It fails exactly when the one block that could hold the key
     * cannot be searched. If the index leads to the given blocks, the answer is that of a linear search of
     * all their entries.
     */
    method Get(k: Key, ghost blocks: seq<seq<Entry>>) returns (value: Bytes, found: bool, deleted: bool, ok: bool)
      requires forall a, b :: 0 <= a < b < |index| ==> Less(index[a].key, index[b].key)
      requires bloomFilter.Some? ==> Sized(bloomFilter.value)
      ensures !ok <==> Passes(k) && exists i :: Candidate(index, k, i) && BlockProbe(x, file, index[i], k).Err?
      ensures && Serves(x, file, index, blocks) && Sorted(Flat(blocks))
              && (bloomFilter.Some? ==> Admits(bloomFilter.value, x.hash, Flat(blocks)))
              ==> ok && Answers(Search(Flat(blocks), k), value, found, deleted)
    {
      hide Covers;
      hide Serves;
      hide Admits;
      hide Search;
      hide BlockProbe;
      hide Candidate;
      hide Sorted;
      hide Flat;
      hide Less;
      if bloomFilter.Some? {
        var may := MayContain(bloomFilter.value, x.hash, k.series);
        if !may {
          MissIfAdmitted(bloomFilter.value, x.hash, Flat(blocks), k);
          return [], false, false, true;
        }
      }
      var i := FindBlock(k);
      CandidateIs(index, k, i);
      if Serves(x, file, index, blocks) && Sorted(Flat(blocks)) {
        BlockDecides(x, file, index, blocks, k, i);
      }
      if i == 0 {
        return [], false, false, true;
      }
      var c := FindEntryInBlock(index[i - 1], k);
      if c.Err? {
        return [], false, false, false;
      }
      if c.value.None? {
        return [], false, false, true;
      }
      if c.value.value.deleted {
        return [], false, true, true;
      }
      return c.value.value.value, true, false, true;
    }
  }

  /** What Get returns for the result of a search. */
  ghost predicate Answers(c: Option<Cell>, value: Bytes, found: bool, deleted: bool) {
    && (found <==> c.Some? && !c.value.deleted) && (deleted <==> c.Some? && c.value.deleted)
    && (found ==> value == c.value.value)
  }

  /** The last index record whose key is not above the target. */
  ghost predicate Candidate(index: seq<IndexEntry>, k: Key, i: int) {
    && 0 <= i < |index| && !Less(k, index[i].key)
    && forall j :: i < j < |index| ==> Less(k, index[j].key)
  }

  lemma CandidateIs(index: seq<IndexEntry>, k: Key, i: nat)
    requires i <= |index|
    requires forall j :: 0 <= j < i ==> Compare(index[j].key, k) <= 0
    requires forall j :: i <= j < |index| ==> Compare(index[j].key, k) > 0
    ensures forall c :: Candidate(index, k, c) <==> i > 0 && c == i - 1
  {
    assert i > 0 ==> !Less(k, index[i - 1].key);
  }

  lemma MissIfAdmitted(f: Filter, hash: Hash, es: seq<Entry>, k: Key)
    requires !(f.numBits > 0 && f.numHashes > 0 && Covers(f.bits, f.numBits, f.numHashes, hash(k.series)))
    ensures Admits(f, hash, es) ==> Search(es, k) == None
  {
    hide Covers;
    if Admits(f, hash, es) {
      MissWithout(es, k);
    }
  }

  /** The search of the candidate block gives what a linear search of all blocks gives. */
  lemma BlockDecides(x: Externals, file: Bytes, index: seq<IndexEntry>, blocks: seq<seq<Entry>>, k: Key, i: nat)
    requires Serves(x, file, index, blocks) && Sorted(Flat(blocks)) && i <= |index|
    requires forall j :: 0 <= j < i ==> Compare(index[j].key, k) <= 0
    requires forall j :: i <= j < |index| ==> Compare(index[j].key, k) > 0
    ensures if i == 0 then Search(Flat(blocks), k) == None
            else BlockProbe(x, file, index[i - 1], k) == Ok(Search(Flat(blocks), k))
  {
    BlockOfKey(x, file, index, blocks, k, i);
    hide Search;
    hide Probe;
    hide Parse;
    hide BlockBytes;
    hide BlockData;
    if i > 0 {
      BlockRoundTrip(blocks[i - 1]);
      ProbeRefinesParse(BlockBytes(blocks[i - 1]), k);
    }
  }

  /** A block reads as exactly the entries that its decompressed bytes hold. */
  lemma BlockEntriesIff(x: Externals, file: Bytes, r: IndexEntry, es: seq<Entry>)
    ensures BlockEntries(x, file, r) == Ok(es) <==>
            exists data :: ReadAt(file, r.offset, r.size).Ok?
              && x.decode(ReadAt(file, r.offset, r.size).value) == Some(data) && Holds(data, es)
  {
    hide Parse;
    hide Holds;
    hide ReadAt;
    if BlockData(x, file, r).Ok? {
      ParseAcceptsIff(BlockData(x, file, r).value, es);
    }
  }

  lemma MissWithout(es: seq<Entry>, k: Key)
    requires forall e :: e in es ==> e.key != k
    ensures Search(es, k) == None
  {
    assert !HasKey(es, k);
    SearchMiss(es, k);
  }

  /** OpenReader of a file the writer closed: the reader finds every block and its filter. */
  method OpenReader(x: Externals, file: Bytes, ghost blockSize: uint32, ghost blocks: seq<seq<Entry>>,
                    ghost filter: Filter)
    returns (r: Reader, ok: bool)
    requires Inverse(x) && Addressable(x, blocks) && 12 + |filter.bits| < TWO_64
    requires forall i, e :: 0 <= i < |blocks| && e in blocks[i] ==> Small(e)
    requires file == FileBytes(x, blockSize, blocks, filter)
    ensures ok && r.x == x && r.file == file && Serves(x, file, r.index, blocks)
    ensures r.bloomFilter == Some(filter) && r.entryCount == Count(blocks)
  {
    WrittenServes(x, blockSize, blocks, filter);
    hide Serves;
    hide Open;
    hide FileBytes;
    r := new Reader(x, file);
    ok := r.ReadFooter();
  }

  /** Every block the index leads to decodes to its entries. */
  lemma BlockReads(x: Externals, file: Bytes, index: seq<IndexEntry>, blocks: seq<seq<Entry>>, i: nat)
    requires Serves(x, file, index, blocks) && i < |blocks|
    ensures BlockEntries(x, file, index[i]) == Ok(blocks[i])
  {
    hide Parse;
    BlockRoundTrip(blocks[i]);
  }

  // ----- which block can hold a key

  lemma SearchMember(es: seq<Entry>, k: Key, c: Cell)
    requires Sorted(es)
    ensures Search(es, k) == Some(c) <==> Entry(k, c) in es
  {
    if Entry(k, c) in es {
      var i :| 0 <= i < |es| && es[i] == Entry(k, c);
      SearchAt(es, i);
    }
    if Search(es, k) == Some(c) {
      if !HasKey(es, k) {
        SearchMiss(es, k);
      }
      var i :| 0 <= i < |es| && es[i].key == k;
      SearchAt(es, i);
      assert es[i] == Entry(k, c);
    }
  }

  lemma {:induction false} InFlat(blocks: seq<seq<Entry>>, e: Entry)
    ensures e in Flat(blocks) <==> exists j :: 0 <= j < |blocks| && e in blocks[j]
  {
    if blocks != [] {
      var n := |blocks| - 1;
      InFlat(blocks[..n], e);
      if j :| 0 <= j < n && e in blocks[..n][j] {
        assert e in blocks[j];
      }
      if j :| 0 <= j < |blocks| && e in blocks[j] {
        assert j < n ==> e in blocks[..n][j];
      }
    }
  }

  lemma {:induction false} BlocksAscend(blocks: seq<seq<Entry>>, i: nat, j: nat, a: Entry, b: Entry)
    requires Sorted(Flat(blocks)) && i < j < |blocks| && a in blocks[i] && b in blocks[j]
    ensures Less(a.key, b.key)
  {
    var n := |blocks| - 1;
    var front := Flat(blocks[..n]);
    assert forall p :: 0 <= p < |front| ==> Flat(blocks)[p] == front[p];
    if j < n {
      BlocksAscend(blocks[..n], i, j, a, b);
    } else {
      InFlat(blocks[..n], a);
      assert a in blocks[..n][i];
      var p :| 0 <= p < |front| && front[p] == a;
      var q :| 0 <= q < |blocks[n]| && blocks[n][q] == b;
      assert Flat(blocks)[|front| + q] == b;
    }
  }

  lemma {:induction false} BlockSorted(blocks: seq<seq<Entry>>, i: nat)
    requires Sorted(Flat(blocks)) && i < |blocks|
    ensures Sorted(blocks[i])
  {
    var n := |blocks| - 1;
    var front := Flat(blocks[..n]);
    assert forall p :: 0 <= p < |front| ==> Flat(blocks)[p] == front[p];
    assert forall q :: 0 <= q < |blocks[n]| ==> Flat(blocks)[|front| + q] == blocks[n][q];
    if i < n {
      BlockSorted(blocks[..n], i);
    }
  }

  lemma IndexAscends(x: Externals, file: Bytes, index: seq<IndexEntry>, blocks: seq<seq<Entry>>)
    requires Serves(x, file, index, blocks) && Sorted(Flat(blocks))
    ensures forall a, b :: 0 <= a < b < |index| ==> Less(index[a].key, index[b].key)
  {
    forall a, b | 0 <= a < b < |index| ensures Less(index[a].key, index[b].key) {
      BlocksAscend(blocks, a, b, blocks[a][0], blocks[b][0]);
    }
  }

  lemma FirstIsLeast(b: seq<Entry>, e: Entry)
    requires Sorted(b) && e in b
    ensures b != [] && !Less(e.key, b[0].key)
  {
    var i :| 0 <= i < |b| && b[i] == e;
    assert i == 0 || Less(b[0].key, b[i].key);
  }

  lemma NotAfter(blocks: seq<seq<Entry>>, j: nat, e: Entry)
    requires Sorted(Flat(blocks)) && j < |blocks| && e in blocks[j]
    ensures blocks[j] != [] && Compare(blocks[j][0].key, e.key) <= 0
  {
    BlockSorted(blocks, j);
    hide Flat;
    FirstIsLeast(blocks[j], e);
  }

  /** Only the last block that starts at or below the key can hold it. */
  lemma OnlyBlock(blocks: seq<seq<Entry>>, k: Key, i: nat, j: nat, c: Cell)
    requires Sorted(Flat(blocks)) && i <= |blocks| && j < |blocks| && Entry(k, c) in blocks[j]
    requires i > 0 ==> blocks[i - 1] != [] && Compare(blocks[i - 1][0].key, k) <= 0
    requires j >= i ==> blocks[j] != [] && Compare(blocks[j][0].key, k) > 0
    ensures j + 1 == i
  {
    if j + 1 < i {
      BlocksAscend(blocks, j, i - 1, Entry(k, c), blocks[i - 1][0]);
    } else {
      NotAfter(blocks, j, Entry(k, c));
    }
    hide Sorted;
    hide Flat;
  }

  lemma ServedKeys(x: Externals, file: Bytes, index: seq<IndexEntry>, blocks: seq<seq<Entry>>)
    requires Serves(x, file, index, blocks)
    ensures |index| == |blocks| && forall i :: 0 <= i < |blocks| ==> blocks[i] != [] && index[i].key == blocks[i][0].key
  {
    hide Small;
    hide BlockData;
  }

  lemma BlockOfKey(x: Externals, file: Bytes, index: seq<IndexEntry>, blocks: seq<seq<Entry>>, k: Key, i: nat)
    requires Serves(x, file, index, blocks) && Sorted(Flat(blocks)) && i <= |index|
    requires forall j :: 0 <= j < i ==> Compare(index[j].key, k) <= 0
    requires forall j :: i <= j < |index| ==> Compare(index[j].key, k) > 0
    ensures Search(Flat(blocks), k) == if i == 0 then None else Search(blocks[i - 1], k)
  {
    hide Serves;
    hide Sorted;
    ServedKeys(x, file, index, blocks);
    forall c ensures Entry(k, c) in Flat(blocks) <==> i > 0 && Entry(k, c) in blocks[i - 1] {
      InFlat(blocks, Entry(k, c));
      if j :| 0 <= j < |blocks| && Entry(k, c) in blocks[j] {
        OnlyBlock(blocks, k, i, j, c);
      }
    }
    var all, some := Search(Flat(blocks), k), if i == 0 then None else Search(blocks[i - 1], k);
    if i > 0 {
      BlockSorted(blocks, i - 1);
    }
    if all.Some? {
      SearchMember(Flat(blocks), k, all.value);
      SearchMember(blocks[i - 1], k, all.value);
    } else if some.Some? {
      SearchMember(blocks[i - 1], k, some.value);
      SearchMember(Flat(blocks), k, some.value);
    }
  }

  // ----- what the writer wrote can be served

  lemma {:induction false} IndexAt(x: Externals, blocks: seq<seq<Entry>>, i: nat)
    requires i < |blocks|
    ensures IndexOf(x, blocks)[i]
         == IndexEntry(FirstKey(blocks[i]), HEADER_SIZE + |DataBytes(x, blocks[..i])|,
                       |x.encode(BlockBytes(blocks[i]))|)
  {
    hide BlockBytes;
    hide DataBytes;
    var n := |blocks| - 1;
    if i < n {
      IndexAt(x, blocks[..n], i);
      assert blocks[..n][..i] == blocks[..i];
    }
  }

  lemma {:induction false} DataAt(x: Externals, blocks: seq<seq<Entry>>, i: nat)
    requires i < |blocks|
    ensures DataBytes(x, blocks[..i]) + x.encode(BlockBytes(blocks[i])) <= DataBytes(x, blocks)
  {
    hide BlockBytes;
    var n := |blocks| - 1;
    if i < n {
      DataAt(x, blocks[..n], i);
      assert blocks[..n][..i] == blocks[..i];
    }
  }

  lemma Middle(header: Bytes, a: Bytes, b: Bytes, data: Bytes, file: Bytes)
    requires a + b <= data && header + data <= file
    ensures ReadAt(file, |header| + |a|, |b|) == Ok(b)
  {
    var from, to := |header| + |a|, |header| + |a| + |b|;
    assert data[|a|..|a| + |b|] == (a + b)[|a|..] == b;
    assert (header + data)[from..to] == data[|a|..|a| + |b|];
    assert file[..|header + data|] == header + data;
    assert file[from..to] == (header + data)[from..to];
  }

  lemma FileStarts(x: Externals, blockSize: uint32, blocks: seq<seq<Entry>>, filter: Filter)
    ensures Header(blockSize) + DataBytes(x, blocks) <= FileBytes(x, blockSize, blocks, filter)
  {
    hide Header;
    hide DataBytes;
    hide IndexBytes;
    hide FilterBytes;
    hide Footer;
  }

  lemma BlockServed(x: Externals, blockSize: uint32, blocks: seq<seq<Entry>>, filter: Filter, i: nat)
    requires Inverse(x) && i < |blocks|
    ensures BlockData(x, FileBytes(x, blockSize, blocks, filter), IndexOf(x, blocks)[i]) == Ok(BlockBytes(blocks[i]))
  {
    hide BlockBytes;
    hide DataBytes;
    hide IndexOf;
    hide FileBytes;
    hide Header;
    hide ReadAt;
    IndexAt(x, blocks, i);
    DataAt(x, blocks, i);
    FileStarts(x, blockSize, blocks, filter);
    Middle(Header(blockSize), DataBytes(x, blocks[..i]), x.encode(BlockBytes(blocks[i])), DataBytes(x, blocks),
           FileBytes(x, blockSize, blocks, filter));
  }

  /** A closed file opens, its index leads to its blocks and its filter lets every entry pass. */
  lemma WrittenServes(x: Externals, blockSize: uint32, blocks: seq<seq<Entry>>, filter: Filter)
    requires Inverse(x) && Addressable(x, blocks) && 12 + |filter.bits| < TWO_64
    requires forall i, e :: 0 <= i < |blocks| && e in blocks[i] ==> Small(e)
    ensures var file := FileBytes(x, blockSize, blocks, filter);
            && Open(x, file) == Ok(Opened(IndexOf(x, blocks), Count(blocks), Some(filter)))
            && Serves(x, file, IndexOf(x, blocks), blocks)
  {
    FileRoundTrip(x, blockSize, blocks, filter);
    hide Open;
    hide FileBytes;
    hide BlockData;
    hide DataBytes;
    hide IndexOf;
    hide BlockBytes;
    var file := FileBytes(x, blockSize, blocks, filter);
    forall i | 0 <= i < |blocks|
      ensures blocks[i] != [] && IndexOf(x, blocks)[i].key == blocks[i][0].key
      ensures BlockData(x, file, IndexOf(x, blocks)[i]) == Ok(BlockBytes(blocks[i]))
    {
      assert blocks[i] in blocks;
      IndexAt(x, blocks, i);
      BlockServed(x, blockSize, blocks, filter, i);
    }
  }
}
