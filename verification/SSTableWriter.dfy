/** The SSTable writer: block splitting in uint32 arithmetic, index, filter and footer. */
module SSTableWriter {
  import opened Base
  import opened LittleEndian
  import opened SegmentLog
  import opened Blocks
  import opened Bloom
  import opened SSTableFiles

  ghost function Max(a: nat, b: nat): nat {
    if a > b then a else b
  }

  /**
   * How the entries are split: no block is empty, a block fits the block size unless it is a single
   * entry, and the first entry of a block would not have fitted the block before.
   */
  ghost predicate Packed(blocks: seq<seq<Entry>>, blockSize: nat) {
    && (forall i :: 0 <= i < |blocks| ==> Fits(blocks[i], blockSize))
    && forall i :: 0 < i < |blocks| ==> Overflowing(blocks[i - 1], blocks[i], blockSize)
  }

  ghost predicate Fits(block: seq<Entry>, blockSize: nat) {
    block != [] && (TotalSize(block) <= blockSize || |block| == 1)
  }

  /** The first entry of the next block would have made this one too large. */
  ghost predicate Overflowing(block: seq<Entry>, next: seq<Entry>, blockSize: nat) {
    next != [] && TotalSize(block) + ENTRY_HEADER + |next[0].cell.value| > blockSize
  }

  /** The blocks written, and behind them the block being filled, if it holds anything. */
  ghost function AllBlocks(blocks: seq<seq<Entry>>, current: seq<Entry>): seq<seq<Entry>> {
    if current == [] then blocks else blocks + [current]
  }

  ghost function SeriesOf(es: seq<Entry>): (keys: seq<uint64>)
    ensures |keys| == |es| && forall i :: 0 <= i < |es| ==> keys[i] == es[i].key.series
  {
    seq(|es|, i requires 0 <= i < |es| => es[i].key.series)
  }

  lemma PackedPush(blocks: seq<seq<Entry>>, next: seq<Entry>, blockSize: nat)
    ensures Packed(blocks + [next], blockSize) <==>
              && Packed(blocks, blockSize) && Fits(next, blockSize)
              && (blocks != [] ==> Overflowing(blocks[|blocks| - 1], next, blockSize))
  {
    hide Fits;
    hide Overflowing;
    var n, all := |blocks|, blocks + [next];
    assert all[n] == next && forall i :: 0 <= i < n ==> all[i] == blocks[i];
    if Packed(all, blockSize) {
      assert Fits(all[n], blockSize) && forall i :: 0 <= i < n ==> Fits(all[i], blockSize);
      assert forall i :: 0 < i <= n ==> Overflowing(all[i - 1], all[i], blockSize);
    }
  }

  lemma AddPacked(blocks: seq<seq<Entry>>, current: seq<Entry>, e: Entry, blockSize: nat)
    requires Packed(AllBlocks(blocks, current), blockSize)
    requires current != [] ==> TotalSize(current) + ENTRY_HEADER + |e.cell.value| <= blockSize
    requires current == [] && blocks != [] ==>
               TotalSize(blocks[|blocks| - 1]) + ENTRY_HEADER + |e.cell.value| > blockSize
    ensures Packed(AllBlocks(blocks, current + [e]), blockSize)
  {
    hide Packed;
    assert (current + [e])[..|current|] == current;
    PackedPush(blocks, current, blockSize);
    PackedPush(blocks, current + [e], blockSize);
  }

  lemma GrownFits(current: seq<Entry>, e: Entry, blockSize: nat, maxEntry: nat)
    requires if current == [] then ENTRY_HEADER + |e.cell.value| <= maxEntry
             else TotalSize(current) + ENTRY_HEADER + |e.cell.value| <= blockSize
    ensures TotalSize(current + [e]) <= Max(blockSize, maxEntry)
  {
    assert (current + [e])[..|current|] == current;
  }

  lemma AddSeries(es: seq<Entry>, e: Entry)
    ensures SeriesOf(es + [e]) == SeriesOf(es) + [e.key.series]
  {}

  lemma FlushedBytes(x: Externals, blocks: seq<seq<Entry>>, current: seq<Entry>)
    requires current != []
    ensures DataBytes(x, blocks + [current]) == DataBytes(x, blocks) + x.encode(BlockBytes(current))
    ensures IndexOf(x, blocks + [current]) == IndexOf(x, blocks)
              + [IndexEntry(current[0].key, HEADER_SIZE + |DataBytes(x, blocks)|, |x.encode(BlockBytes(current))|)]
    ensures Flat(blocks + [current]) == Flat(blocks) + current
  {
    assert (blocks + [current])[..|blocks|] == blocks;
  }

  /**
   * The guard of Add compares a uint32 sum, which may wrap: it decides as the exact sum would if and
   * only if the sum fits or what is left of it still exceeds the block size.
   */
  lemma SplitGuardExactIff(size: uint32, e: Entry, blockSize: uint32)
    requires Small(e)
    ensures var exact := size + ENTRY_HEADER + |e.cell.value|;
            ((size + EncodedSize(e)) % LIMIT > blockSize <==> exact > blockSize)
            <==> (exact < LIMIT || exact - LIMIT > blockSize)
  {
    EncodedSizeExact(e);
  }

  /** What the writer has put out and recorded for the given blocks and the one being filled. */
  ghost predicate Layout(x: Externals, blockSize: uint32, blocks: seq<seq<Entry>>, current: seq<Entry>,
                         out: Bytes, index: seq<IndexEntry>, entryCount: nat, bloomKeys: seq<uint64>,
                         added: seq<Entry>) {
    && added == Flat(blocks) + current
    && Packed(AllBlocks(blocks, current), blockSize)
    && out == Header(blockSize) + DataBytes(x, blocks) && index == IndexOf(x, blocks)
    && entryCount == |added| && bloomKeys == SeriesOf(added)
  }

  lemma LayoutAdd(x: Externals, blockSize: uint32, blocks: seq<seq<Entry>>, current: seq<Entry>,
                  out: Bytes, index: seq<IndexEntry>, entryCount: nat, bloomKeys: seq<uint64>,
                  added: seq<Entry>, e: Entry)
    requires Layout(x, blockSize, blocks, current, out, index, entryCount, bloomKeys, added)
    requires current != [] ==> TotalSize(current) + ENTRY_HEADER + |e.cell.value| <= blockSize
    requires current == [] && blocks != [] ==>
               TotalSize(blocks[|blocks| - 1]) + ENTRY_HEADER + |e.cell.value| > blockSize
    ensures Layout(x, blockSize, blocks, current + [e], out, index, entryCount + 1, bloomKeys + [e.key.series],
                   added + [e])
  {
    hide Packed;
    hide DataBytes;
    hide IndexOf;
    hide TotalSize;
    hide Flat;
    hide SeriesOf;
    hide AllBlocks;
    AddPacked(blocks, current, e, blockSize);
    AddSeries(added, e);
    assert Flat(blocks) + (current + [e]) == Flat(blocks) + current + [e];
  }

  lemma LayoutFlush(x: Externals, blockSize: uint32, blocks: seq<seq<Entry>>, current: seq<Entry>,
                    out: Bytes, index: seq<IndexEntry>, entryCount: nat, bloomKeys: seq<uint64>,
                    added: seq<Entry>, data: Bytes, record: IndexEntry)
    requires Layout(x, blockSize, blocks, current, out, index, entryCount, bloomKeys, added) && current != []
    requires data == x.encode(BlockBytes(current)) && record == IndexEntry(current[0].key, |out|, |data|)
    ensures Layout(x, blockSize, blocks + [current], [], out + data, index + [record], entryCount, bloomKeys, added)
  {
    hide Packed;
    hide DataBytes;
    hide IndexOf;
    hide BlockBytes;
    hide Flat;
    hide SeriesOf;
    hide Header;
    FlushedBytes(x, blocks, current);
    assert Flat(blocks + [current]) + [] == Flat(blocks) + current;
    assert Header(blockSize) + DataBytes(x, blocks) + x.encode(BlockBytes(current))
        == Header(blockSize) + (DataBytes(x, blocks) + x.encode(BlockBytes(current)));
  }

  class Writer {
    const x: Externals
    const blockSize: uint32
    ghost const maxEntry: nat
    var out: Bytes
    var currentBlock: Block
    var blockBuf: array<byte>
    var index: seq<IndexEntry>
    var entryCount: nat
    var offset: nat
    var bloomKeys: seq<uint64>
    ghost var blocks: seq<seq<Entry>>
    ghost var added: seq<Entry>

    ghost predicate Valid()
      reads this, currentBlock
    {
      && Max(blockSize, maxEntry) + maxEntry < LIMIT
      && currentBlock.Valid() && TotalSize(currentBlock.entries) <= Max(blockSize, maxEntry)
      && offset == |out|
      && Layout(x, blockSize, blocks, currentBlock.entries, out, index, entryCount, bloomKeys, added)
    }

    /** Until Close, the current block is empty only at the very beginning. */
    ghost predicate Filling()
      reads this, currentBlock
    {
      currentBlock.entries == [] ==> blocks == []
    }

    constructor (x: Externals, blockSize: uint32, ghost maxEntry: nat)
      requires Max(blockSize, maxEntry) + maxEntry < LIMIT
      ensures Valid() && Filling() && added == [] && fresh(currentBlock) && fresh(blockBuf)
      ensures this.x == x && this.blockSize == blockSize && this.maxEntry == maxEntry
    {
      this.x, this.blockSize, this.maxEntry := x, blockSize, maxEntry;
      this.out := Header(blockSize);
      this.offset := |Header(blockSize)|;
      this.currentBlock := new Block();
      this.blockBuf := new byte[0];
      this.index, this.entryCount, this.bloomKeys := [], 0, [];
      this.blocks, this.added := [], [];
    }

    /** Starts a new block if the entry would overflow the current one; the uint32 sum never wraps. */
    method Add(e: Entry)
      requires Valid() && Filling() && ENTRY_HEADER + |e.cell.value| <= maxEntry
      modifies this, currentBlock, blockBuf
      ensures Valid() && Filling() && added == old(added) + [e]
      ensures if old(currentBlock.entries) != [] && old(currentBlock.size) + 25 + |e.cell.value| > blockSize then
                blocks == old(blocks) + [old(currentBlock.entries)] && currentBlock.entries == [e]
              else
                blocks == old(blocks) && currentBlock.entries == old(currentBlock.entries) + [e]
      ensures currentBlock == old(currentBlock) || fresh(currentBlock)
      ensures blockBuf == old(blockBuf) || fresh(blockBuf)
    {
      hide Layout;
      hide TotalSize;
      EncodedSizeExact(e);
      var entrySize := EncodedSize(e);
      if |currentBlock.entries| > 0 && (currentBlock.size + entrySize) % LIMIT > blockSize {
        FlushBlock();
      }
      AddToCurrent(e);
    }

    method AddToCurrent(e: Entry)
      requires Valid() && Small(e)
      requires currentBlock.entries != [] ==>
                 TotalSize(currentBlock.entries) + ENTRY_HEADER + |e.cell.value| <= blockSize
      requires currentBlock.entries == [] ==> ENTRY_HEADER + |e.cell.value| <= maxEntry
      requires currentBlock.entries == [] && blocks != [] ==>
                 TotalSize(blocks[|blocks| - 1]) + ENTRY_HEADER + |e.cell.value| > blockSize
      modifies this, currentBlock
      ensures Valid() && Filling() && added == old(added) + [e]
      ensures currentBlock == old(currentBlock) && blockBuf == old(blockBuf)
      ensures blocks == old(blocks) && currentBlock.entries == old(currentBlock.entries) + [e]
    {
      ghost var current := currentBlock.entries + [e];
      GrownFits(currentBlock.entries, e, blockSize, maxEntry);
      LayoutAdd(x, blockSize, blocks, currentBlock.entries, out, index, entryCount, bloomKeys, added, e);
      hide Layout;
      hide TotalSize;
      hide Low32;
      hide Small;
      hide Max;
      currentBlock.Add(e);
      CountEntry(e, current);
    }

    method CountEntry(e: Entry, ghost current: seq<Entry>)
      requires Max(blockSize, maxEntry) + maxEntry < LIMIT && offset == |out|
      requires currentBlock.Valid() && currentBlock.entries == current && TotalSize(current) <= Max(blockSize, maxEntry)
      requires Layout(x, blockSize, blocks, current, out, index, entryCount + 1, bloomKeys + [e.key.series],
                      added + [e])
      modifies this`entryCount, this`bloomKeys, this`added
      ensures Valid() && added == old(added) + [e]
    {
      hide Layout;
      hide TotalSize;
      hide Low32;
      entryCount := entryCount + 1;
      bloomKeys := bloomKeys + [e.key.series];
      added := added + [e];
    }

    method EncodeWithCompression() returns (data: Bytes)
      requires currentBlock.Valid() && TotalSize(currentBlock.entries) < LIMIT
      modifies this`blockBuf, blockBuf
      ensures data == x.encode(BlockBytes(currentBlock.entries))
      ensures blockBuf == old(blockBuf) || fresh(blockBuf)
    {
      blockBuf := currentBlock.Encode(blockBuf);
      data := x.encode(blockBuf[..currentBlock.size]);
    }

    /** The block is compressed, written and entered in the index under its first key. */
    method FlushBlock()
      requires Valid()
      modifies this, blockBuf
      ensures Valid() && added == old(added) && blocks == AllBlocks(old(blocks), old(currentBlock.entries))
      ensures currentBlock.entries == []
      ensures currentBlock == old(currentBlock) || fresh(currentBlock)
      ensures blockBuf == old(blockBuf) || fresh(blockBuf)
    {
      if |currentBlock.entries| == 0 {
        return;
      }
      assert TotalSize([]) == 0;
      hide Layout;
      hide TotalSize;
      hide BlockBytes;
      hide Low32;
      hide Small;
      var data := EncodeWithCompression();
      var record := IndexEntry(currentBlock.entries[0].key, offset, |data|);
      LayoutFlush(x, blockSize, blocks, currentBlock.entries, out, index, entryCount, bloomKeys, added, data, record);
      StartBlock(data, record);
    }

    method StartBlock(data: Bytes, record: IndexEntry)
      requires Max(blockSize, maxEntry) + maxEntry < LIMIT && offset == |out|
      requires Layout(x, blockSize, blocks + [currentBlock.entries], [], out + data, index + [record], entryCount,
                      bloomKeys, added)
      modifies this
      ensures Valid() && added == old(added) && blockBuf == old(blockBuf)
      ensures fresh(currentBlock) && currentBlock.entries == []
      ensures blocks == old(blocks) + [old(currentBlock.entries)]
    {
      assert TotalSize([]) == 0;
      hide Layout;
      hide TotalSize;
      index := index + [record];
      out := out + data;
      offset := offset + |data|;
      blocks := blocks + [currentBlock.entries];
      currentBlock := new Block();
    }

    /** The filter over the series of every entry added. */
    method BuildBloomFilter(numBits: uint64, numHashes: uint32) returns (filter: Filter)
      requires numBits >= 1
      ensures Sized(filter) && filter.numBits == numBits && filter.numHashes == numHashes
      ensures forall k :: k in bloomKeys ==> Covers(filter.bits, numBits, numHashes, x.hash(k))
    {
      hide BitAt;
      hide Position;
      hide Hits;
      var b := new BloomFilter(numBits, numHashes);
      for i := 0 to |bloomKeys|
        invariant b.Valid() && fresh(b.bits)
        invariant forall j :: 0 <= j < i ==> Covers(b.bits[..], numBits, numHashes, x.hash(bloomKeys[j]))
      {
        ghost var before := b.bits[..];
        b.Add(x.hash, bloomKeys[i]);
        forall j | 0 <= j < i ensures Covers(b.bits[..], numBits, numHashes, x.hash(bloomKeys[j])) {
          StillCovers(before, b.bits[..], numBits, numHashes, x.hash(bloomKeys[j]));
        }
      }
      filter := Filter(b.bits[..], numBits, numHashes);
    }

    method WriteIndex() returns (indexSize: nat)
      requires offset == |out|
      modifies this`out, this`offset
      ensures out == old(out) + IndexBytes(index) && offset == |out| && indexSize == RECORD_SIZE * |index|
    {
      var buf: Bytes := [];
      for i := 0 to |index|
        invariant buf == IndexBytes(index[..i])
      {
        assert index[..i + 1][..i] == index[..i];
        buf := buf + RecordBytes(index[i]);
      }
      assert index[..|index|] == index;
      out, offset, indexSize := out + buf, offset + |buf|, |buf|;
    }

    /** Flushes the last block and finishes the file: index, filter, footer. */
    method Close(numBits: uint64, numHashes: uint32) returns (file: Bytes, filter: Filter)
      requires Valid() && numBits >= 1
      modifies this, blockBuf
      ensures file == FileBytes(x, blockSize, blocks, filter)
      ensures Flat(blocks) == added == old(added) && Packed(blocks, blockSize)
      ensures Sized(filter) && filter.numBits == numBits && filter.numHashes == numHashes
      ensures forall e :: e in added ==> Covers(filter.bits, numBits, numHashes, x.hash(e.key.series))
    {
      hide Layout;
      hide TotalSize;
      hide Max;
      FlushBlock();
      filter := BuildBloomFilter(numBits, numHashes);
      LayoutDone(x, blockSize, blocks, out, index, entryCount, bloomKeys, added);
      hide WithFooter;
      hide Covers;
      hide Packed;
      hide DataBytes;
      hide IndexOf;
      hide Flat;
      hide Header;
      file := WriteTail(FilterBytes(filter));
    }

    /** Index, filter and footer behind the blocks. */
    method WriteTail(bloomBytes: Bytes) returns (file: Bytes)
      requires offset == |out|
      modifies this`out, this`offset
      ensures file == WithFooter(x, old(out), IndexBytes(index), bloomBytes, entryCount)
    {
      hide Footer;
      hide IndexBytes;
      var indexOffset := offset;
      var indexSize := WriteIndex();
      var bloomOffset := offset;
      out, offset := out + bloomBytes, offset + |bloomBytes|;
      file := out + Footer(indexOffset, indexSize, bloomOffset, |bloomBytes|, entryCount, x.crc(out));
    }
  }

  lemma StillCovers(before: Bytes, after: Bytes, numBits: uint64, numHashes: nat, h: (uint64, uint64))
    requires numBits >= 1 && Covers(before, numBits, numHashes, h)
    requires forall p: nat :: BitAt(before, p) ==> BitAt(after, p)
    ensures Covers(after, numBits, numHashes, h)
  {}

  /** The flush loop: every entry goes through Add, and Close finishes the file. */
  method WriteTable(x: Externals, blockSize: uint32, entries: seq<Entry>, numBits: uint64, numHashes: uint32,
                    ghost maxEntry: nat) returns (file: Bytes, ghost blocks: seq<seq<Entry>>, ghost filter: Filter)
    requires Max(blockSize, maxEntry) + maxEntry < LIMIT && numBits >= 1
    requires forall e :: e in entries ==> ENTRY_HEADER + |e.cell.value| <= maxEntry
    ensures file == FileBytes(x, blockSize, blocks, filter) && Flat(blocks) == entries && Packed(blocks, blockSize)
    ensures Sized(filter) && filter.numBits == numBits && filter.numHashes == numHashes
    ensures forall e :: e in entries ==> Covers(filter.bits, numBits, numHashes, x.hash(e.key.series))
  {
    hide FileBytes;
    hide Packed;
    hide Layout;
    hide Covers;
    hide Flat;
    hide TotalSize;
    hide Block.Valid;
    var w := new Writer(x, blockSize, maxEntry);
    for i := 0 to |entries|
      invariant w.Valid() && w.Filling() && w.added == entries[..i]
      invariant fresh(w) && fresh(w.currentBlock) && fresh(w.blockBuf)
    {
      w.Add(entries[i]);
      assert entries[..i + 1] == entries[..i] + [entries[i]];
    }
    assert entries[..|entries|] == entries;
    var f;
    file, f := w.Close(numBits, numHashes);
    blocks, filter := w.blocks, f;
  }

  lemma {:induction false} CountIsLength(blocks: seq<seq<Entry>>)
    ensures Count(blocks) == |Flat(blocks)|
  {
    if blocks != [] {
      CountIsLength(blocks[..|blocks| - 1]);
    }
  }

  lemma LayoutDone(x: Externals, blockSize: uint32, blocks: seq<seq<Entry>>, out: Bytes, index: seq<IndexEntry>,
                   entryCount: nat, bloomKeys: seq<uint64>, added: seq<Entry>)
    requires Layout(x, blockSize, blocks, [], out, index, entryCount, bloomKeys, added)
    ensures Flat(blocks) == added && entryCount == Count(blocks) && Packed(blocks, blockSize)
    ensures out == Header(blockSize) + DataBytes(x, blocks) && index == IndexOf(x, blocks)
    ensures forall e :: e in added ==> e.key.series in bloomKeys
  {
    CountIsLength(blocks);
    assert Flat(blocks) + [] == Flat(blocks);
    forall e | e in added ensures e.key.series in bloomKeys {
      var i :| 0 <= i < |added| && added[i] == e;
      assert bloomKeys[i] == e.key.series;
    }
  }
}
