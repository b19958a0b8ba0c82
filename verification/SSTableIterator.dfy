/** Iteration over an SSTable, one decoded block at a time. */
module SSTableIterator {
  import opened Base
  import opened SegmentLog
  import opened Blocks
  import opened SSTableFiles
  import opened SSTableReader

  /** The entries of the blocks in order, up to the first block that cannot be read. */
  ghost function Yield(x: Externals, file: Bytes, index: seq<IndexEntry>): seq<Entry> {
    if index == [] then [] else
    match BlockEntries(x, file, index[0])
    case Err(_) => []
    case Ok(es) => es + Yield(x, file, index[1..])
  }

  class Iterator {
    const reader: Reader
    var blockIndex: nat
    var entries: seq<Entry>
    var entryIndex: nat
    var valid: bool

    ghost predicate Valid()
      reads this, reader
    {
      blockIndex <= |reader.index| && (valid ==> entryIndex < |entries|)
    }

    /** What is still to be yielded, the current entry first. */
    ghost function Remaining(): seq<Entry>
      requires Valid()
      reads this, reader
    {
      if valid then entries[entryIndex..] + Yield(reader.x, reader.file, reader.index[blockIndex..]) else []
    }

    /** A fresh iterator stands at the first of all the entries. */
    constructor (reader: Reader)
      ensures Valid() && Remaining() == Yield(reader.x, reader.file, reader.index) && this.reader == reader
    {
      this.reader := reader;
      this.blockIndex, this.entries, this.entryIndex, this.valid := 0, [], 0, false;
      new;
      assert reader.index[0..] == reader.index;
      var more := LoadNextBlock();
    }

    /** The entry it stands at. */
    function Current(): (e: Entry)
      requires Valid() && valid
      reads this, reader
      ensures Remaining() != [] && e == Remaining()[0]
    {
      entries[entryIndex]
    }

    /** Steps over the current entry; false once there are no more. */
    method Next() returns (more: bool)
      requires Valid()
      modifies this
      ensures Valid() && more == valid == (Remaining() != [])
      ensures Remaining() == if old(Remaining()) == [] then [] else old(Remaining())[1..]
    {
      hide Yield;
      if !valid {
        return false;
      }
      entryIndex := entryIndex + 1;
      if entryIndex < |entries| {
        return true;
      }
      assert old(Remaining())[1..] == Yield(reader.x, reader.file, reader.index[blockIndex..]);
      more := LoadNextBlock();
    }

    /** Decodes blocks until one holds an entry; an unreadable block ends the iteration. */
    method LoadNextBlock() returns (more: bool)
      requires blockIndex <= |reader.index|
      modifies this
      ensures Valid() && more == valid == (Remaining() != [])
      ensures Remaining() == old(Yield(reader.x, reader.file, reader.index[blockIndex..]))
    {
      hide BlockEntries;
      while blockIndex < |reader.index|
        invariant blockIndex <= |reader.index|
        invariant Yield(reader.x, reader.file, reader.index[blockIndex..])
               == old(Yield(reader.x, reader.file, reader.index[blockIndex..]))
      {
        var next := reader.ReadBlock(reader.index[blockIndex]);
        if next.Err? {
          valid := false;
          return false;
        }
        assert reader.index[blockIndex..][1..] == reader.index[blockIndex + 1..];
        blockIndex := blockIndex + 1;
        if |next.value| == 0 {
          continue;
        }
        entries, entryIndex, valid := next.value, 0, true;
        return true;
      }
      valid := false;
      return false;
    }
  }

  lemma FlatFront(blocks: seq<seq<Entry>>)
    requires blocks != []
    ensures Flat(blocks) == blocks[0] + Flat(blocks[1..])
  {
    assert blocks == [blocks[0]] + blocks[1..];
    FlatConcat([blocks[0]], blocks[1..]);
    assert Flat([blocks[0]]) == Flat([]) + blocks[0];
  }

  /** On any file: the entries of the blocks before the first that cannot be read, and nothing of the rest. */
  lemma {:induction false} YieldsUpToUnreadable(x: Externals, file: Bytes, index: seq<IndexEntry>,
                                                blocks: seq<seq<Entry>>)
    requires |blocks| <= |index| && forall i :: 0 <= i < |blocks| ==> BlockEntries(x, file, index[i]) == Ok(blocks[i])
    requires |blocks| < |index| ==> BlockEntries(x, file, index[|blocks|]).Err?
    ensures Yield(x, file, index) == Flat(blocks)
  {
    hide BlockEntries;
    if blocks != [] {
      YieldsUpToUnreadable(x, file, index[1..], blocks[1..]);
      FlatFront(blocks);
    }
  }

  /** Over a file the writer closed the iterator yields exactly the entries that were added. */
  lemma {:induction false} YieldsAll(x: Externals, file: Bytes, index: seq<IndexEntry>, blocks: seq<seq<Entry>>)
    requires Serves(x, file, index, blocks)
    ensures Yield(x, file, index) == Flat(blocks)
  {
    hide BlockEntries;
    hide BlockData;
    hide Small;
    if blocks != [] {
      BlockReads(x, file, index, blocks, 0);
      assert Serves(x, file, index[1..], blocks[1..]);
      YieldsAll(x, file, index[1..], blocks[1..]);
      FlatFront(blocks);
    }
  }
}
