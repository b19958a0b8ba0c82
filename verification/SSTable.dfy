/** A table from its entries to a file and back: writer, reader and iterator together. */
module SSTables {
  import opened Base
  import opened SortedEntries
  import opened SegmentLog
  import opened Blocks
  import opened Bloom
  import opened SSTableFiles
  import opened SSTableWriter
  import opened SSTableReader
  import opened SSTableIterator

  /** Snappy's documented bound: compression adds at most a sixth and 32 bytes. */
  ghost predicate Bounded(x: Externals) {
    forall b :: |x.encode(b)| <= 32 + |b| + |b| / 6
  }

  // ----- a closed file is addressable if its entries are not too large

  lemma {:induction false} TotalSizeConcat(a: seq<Entry>, b: seq<Entry>)
    ensures TotalSize(a + b) == TotalSize(a) + TotalSize(b)
  {
    if b == [] {
      assert a + b == a;
    } else {
      var n := |b| - 1;
      assert (a + b)[..|a + b| - 1] == a + b[..n];
      TotalSizeConcat(a, b[..n]);
    }
  }

  /** Each block takes at most four times the size of its entries, its index record included. */
  lemma BlockCost(x: Externals, b: seq<Entry>)
    requires Bounded(x) && b != []
    ensures |x.encode(BlockBytes(b))| + RECORD_SIZE <= 4 * TotalSize(b)
    ensures |x.encode(BlockBytes(b))| <= 32 + TotalSize(b) + TotalSize(b) / 6
  {
    BlockBytesLength(b);
    assert TotalSize(b) >= ENTRY_HEADER;
    hide TotalSize;
    hide BlockBytes;
  }

  lemma {:induction false} FileCost(x: Externals, blocks: seq<seq<Entry>>)
    requires Bounded(x) && forall b :: b in blocks ==> b != []
    ensures |DataBytes(x, blocks)| + RECORD_SIZE * |blocks| <= 4 * TotalSize(Flat(blocks))
    ensures |Flat(blocks)| <= TotalSize(Flat(blocks))
  {
    if blocks != [] {
      var n := |blocks| - 1;
      var last := blocks[n];
      assert last in blocks && forall b :: b in blocks[..n] ==> b in blocks;
      FileCost(x, blocks[..n]);
      BlockCost(x, last);
      CountBelowSize(last);
      TotalSizeConcat(Flat(blocks[..n]), last);
      hide TotalSize;
      hide BlockBytes;
    }
  }

  lemma {:induction false} CountBelowSize(es: seq<Entry>)
    ensures |es| <= TotalSize(es)
  {
    if es != [] {
      CountBelowSize(es[..|es| - 1]);
    }
  }

  lemma {:induction false} SizeOfMember(es: seq<Entry>, maxEntry: nat)
    requires |es| == 1 && ENTRY_HEADER + |es[0].cell.value| <= maxEntry
    ensures TotalSize(es) <= maxEntry
  {
    assert TotalSize(es[..0]) == 0;
  }

  lemma PackedIsAddressable(x: Externals, blockSize: nat, maxEntry: nat, entries: seq<Entry>, blocks: seq<seq<Entry>>)
    requires Bounded(x) && Packed(blocks, blockSize) && Flat(blocks) == entries
    requires forall e :: e in entries ==> ENTRY_HEADER + |e.cell.value| <= maxEntry
    requires HEADER_SIZE + 4 * TotalSize(entries) < TWO_64
    requires 32 + Max(blockSize, maxEntry) + Max(blockSize, maxEntry) / 6 < LIMIT
    ensures Addressable(x, blocks) && forall i, e :: 0 <= i < |blocks| && e in blocks[i] ==> Small(e)
  {
    forall i, e | 0 <= i < |blocks| && e in blocks[i] ensures e in entries {
      InFlat(blocks, e);
    }
    forall b | b in blocks ensures b != [] && |x.encode(BlockBytes(b))| < LIMIT {
      var i :| 0 <= i < |blocks| && blocks[i] == b;
      assert Fits(b, blockSize);
      BlockCost(x, b);
      if |b| == 1 {
        assert b[0] in blocks[i];
        SizeOfMember(b, maxEntry);
      }
    }
    FileCost(x, blocks);
    CountIsLength(blocks);
  }

  /** What the writer and its caller promise about sizes. */
  ghost predicate Manageable(x: Externals, blockSize: uint32, entries: seq<Entry>, maxEntry: nat) {
    && Inverse(x) && Bounded(x)
    && (forall e :: e in entries ==> ENTRY_HEADER + |e.cell.value| <= maxEntry)
    && Max(blockSize, maxEntry) + maxEntry < LIMIT
    && 32 + Max(blockSize, maxEntry) + Max(blockSize, maxEntry) / 6 < LIMIT
    && HEADER_SIZE + 4 * TotalSize(entries) < TWO_64
  }

  /** Sorted entries go through Add and Close; the file is opened again. */
  method StoreAndOpen(x: Externals, blockSize: uint32, entries: seq<Entry>, numBits: uint64, numHashes: uint32,
                      ghost maxEntry: nat) returns (r: Reader, ghost blocks: seq<seq<Entry>>, ok: bool)
    requires Manageable(x, blockSize, entries, maxEntry) && 1 <= numBits && 1 <= numHashes
    ensures ok && r.x == x && Serves(x, r.file, r.index, blocks) && Flat(blocks) == entries
    ensures r.entryCount == |entries| && r.bloomFilter.Some? && Admits(r.bloomFilter.value, x.hash, entries)
  {
    hide Packed;
    hide FileBytes;
    hide Addressable;
    hide Serves;
    hide Covers;
    hide TotalSize;
    hide Small;
    ghost var filter;
    var file;
    file, blocks, filter := WriteTable(x, blockSize, entries, numBits, numHashes, maxEntry);
    PackedIsAddressable(x, blockSize, maxEntry, entries, blocks);
    CountIsLength(blocks);
    r, ok := OpenReader(x, file, blockSize, blocks, filter);
  }

  lemma FilterIsSized(f: Filter, hash: Hash, es: seq<Entry>)
    requires Admits(f, hash, es)
    ensures Sized(f)
  {}

  /**
   * Indexed lookup refines linear lookup: whatever sorted entries are written, a lookup through
   * filter, index and block finds exactly what a linear search of the entries finds.
   */
  method StoreAndGet(x: Externals, blockSize: uint32, entries: seq<Entry>, numBits: uint64, numHashes: uint32, k: Key,
                     ghost maxEntry: nat) returns (value: Bytes, found: bool, deleted: bool, ok: bool)
    requires Manageable(x, blockSize, entries, maxEntry) && 1 <= numBits && 1 <= numHashes && Sorted(entries)
    ensures ok
    ensures found <==> Search(entries, k).Some? && !Search(entries, k).value.deleted
    ensures deleted <==> Search(entries, k).Some? && Search(entries, k).value.deleted
    ensures found ==> value == Search(entries, k).value.value
  {
    hide Manageable;
    hide Serves;
    hide Admits;
    hide Sorted;
    var r, blocks, isOpen := StoreAndOpen(x, blockSize, entries, numBits, numHashes, maxEntry);
    IndexAscends(x, r.file, r.index, blocks);
    FilterIsSized(r.bloomFilter.value, x.hash, entries);
    value, found, deleted, ok := r.Get(k, blocks);
  }

  /** Iteration over the written file yields exactly the entries that were added, in order. */
  method StoreAndIterate(x: Externals, blockSize: uint32, entries: seq<Entry>, numBits: uint64, numHashes: uint32,
                         ghost maxEntry: nat) returns (out: seq<Entry>)
    requires Manageable(x, blockSize, entries, maxEntry) && 1 <= numBits && 1 <= numHashes
    ensures out == entries
  {
    hide Manageable;
    hide Serves;
    hide Admits;
    hide Yield;
    var r, blocks, isOpen := StoreAndOpen(x, blockSize, entries, numBits, numHashes, maxEntry);
    YieldsAll(x, r.file, r.index, blocks);
    var it := new Iterator(r);
    out := [];
    while it.valid
      invariant fresh(it) && it.reader == r && it.Valid() && out + it.Remaining() == entries
      decreases |it.Remaining()|
    {
      out := out + [it.Current()];
      var more := it.Next();
    }
  }
}
