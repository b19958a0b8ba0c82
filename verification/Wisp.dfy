/** The database object, driven by one thread: each method performs a run of the engine. */
module Wisps {
  import opened Base
  import opened History
  import opened SortedEntries
  import G = Generations
  import opened SegmentLog
  import E = Engine
  import T = EngineTheorems
  import S = Sequential
  import K = WrittenKeys
  import R = WalRecord
  import W = Wal
  import opened MemTables
  import opened Compactor
  import opened TableLists
  import Scanner
  import opened Merge
  import opened WispStates

  /** What the readers of the listed files serve. */
  function Served(files: seq<SSTableFile>): (tables: seq<Table>)
    ensures |tables| == |files| && forall i :: 0 <= i < |files| ==> tables[i] == files[i].table
  {
    seq(|files|, i requires 0 <= i < |files| => files[i].table)
  }

  lemma ServedHas(files: seq<SSTableFile>, t: Table)
    ensures t in Served(files) <==> exists f :: f in files && f.table == t
  {
    if f :| f in files && f.table == t {
      var i :| 0 <= i < |files| && files[i] == f;
      assert Served(files)[i] == t;
    }
    if t in Served(files) {
      var i :| 0 <= i < |files| && Served(files)[i] == t;
      assert files[i].table == t;
    }
  }

  /** One more file is listed: that of generation `gen`, with what the writes leave. */
  ghost predicate Stored(before: seq<SSTableFile>, after: seq<SSTableFile>, gen: nat, ops: seq<Entry>) {
    exists f :: f in after && f !in before
      && f.table.gen == gen && Sorted(f.table.entries) && Fold(f.table.entries) == Fold(ops)
      && (forall g :: g in after ==> g == f || g in before) && (forall g :: g in before ==> g in after)
  }

  class Wisp {
    const list: SSTableList
    const threshold: uint64
    const wal: W.WAL
    var mutableMemTable: MemTable
    var immutableMemTable: MemTable?
    var immutableWALSegment: nat
    /** The state of the engine's machine that this object is in. */
    ghost var st: E.State
    ghost var Repr: set<object>

    ghost predicate Valid()
      reads this, Repr
    {
      Apart() && PartsValid() && S.Good(st) && Matches(st, Now())
    }

    /** The parts and what they own are different objects. */
    ghost predicate Apart()
      reads this, Repr
    {
      && {this, list, wal} <= Repr
      && mutableMemTable in Repr && mutableMemTable in mutableMemTable.Repr && mutableMemTable.Repr <= Repr
      && {this, list, wal} !! mutableMemTable.Repr
      && (forall f :: f in list.tables ==> f in Repr && f !in mutableMemTable.Repr)
      && (immutableMemTable != null ==>
            && immutableMemTable in Repr && immutableMemTable in immutableMemTable.Repr
            && immutableMemTable.Repr <= Repr
            && {this, list, wal} !! immutableMemTable.Repr
            && immutableMemTable.Repr !! mutableMemTable.Repr
            && forall f :: f in list.tables ==> f !in immutableMemTable.Repr)
    }

    ghost predicate PartsValid()
      requires Apart()
      reads this, Repr
    {
      Parts(1)
    }

    /** Every listed file has `refs` references, the list's included. */
    ghost predicate Parts(refs: nat)
      requires Apart()
      reads this, Repr
    {
      && threshold > 0 && wal.Valid() && wal.open
      && 1 <= wal.base <= wal.segmentID == wal.base + |wal.log| - 1
      && list.Valid() && TableLists.Descending(list.tables)
      && (forall f :: f in list.tables ==> f.refCount == refs && Sorted(f.table.entries) && f.table.gen <= list.nextGen)
      && mutableMemTable.Valid() && mutableMemTable.mutable && mutableMemTable.flushThreshold == threshold
      && TotalWeight(mutableMemTable.ops) < TWO_64
      && (immutableMemTable != null ==> immutableMemTable.Valid() && !immutableMemTable.mutable)
    }

    ghost function Now(): Picture
      requires Apart()
      reads this, Repr
    {
      Picture(Fold(mutableMemTable.ops), if immutableMemTable == null then None else Some(Fold(immutableMemTable.ops)),
              immutableWALSegment, wal.base, wal.log, wal.gap, list.nextGen, Served(list.tables))
    }

    /** Around the given parts, with nothing in memory yet. */
    constructor (list: SSTableList, wal: W.WAL, mem: MemTable, ghost st: E.State)
      requires wal.Valid() && wal.open && 1 <= wal.base <= wal.segmentID == wal.base + |wal.log| - 1
      requires list.Valid() && TableLists.Descending(list.tables)
      requires forall f :: f in list.tables ==>
                 f.refCount == 1 && Sorted(f.table.entries) && f.table.gen <= list.nextGen
      requires mem.Valid() && mem.mutable && mem.ops == [] && {list, wal} !! mem.Repr && mem in mem.Repr
      requires mem.flushThreshold > 0
      requires forall f :: f in list.tables ==> f !in mem.Repr
      ensures Apart() && PartsValid() && this.st == st && mutableMemTable == mem && this.wal == wal && this.list == list
      ensures threshold == mem.flushThreshold && immutableMemTable == null
      ensures Repr == {this, list, wal} + mem.Repr + (set f | f in list.tables)
      ensures Now() == Picture(map[], None, 0, wal.base, wal.log, wal.gap, list.nextGen, Served(list.tables))
    {
      NothingPut();
      hide MemTable.Valid;
      hide W.WAL.Valid;
      hide SSTableList.Valid;
      hide TotalWeight;
      hide Fold;
      hide Served;
      this.list, this.wal, this.threshold := list, wal, mem.flushThreshold;
      this.mutableMemTable, this.immutableMemTable, this.immutableWALSegment := mem, null, 0;
      this.st := st;
      this.Repr := {this, list, wal} + mem.Repr + (set f | f in list.tables);
    }

    method PutMutable(k: Key, value: Bytes) returns (ok: bool)
      requires Apart() && PartsValid()
      requires TotalWeight(mutableMemTable.ops) + Weight(Entry(k, Cell(false, value))) < TWO_64
      modifies this`Repr, mutableMemTable.Repr
      ensures Apart() && PartsValid()
      ensures fresh(Repr - old(Repr)) && fresh(mutableMemTable.Repr - old(mutableMemTable.Repr))
      ensures ok && mutableMemTable.ops == old(mutableMemTable.ops) + [Entry(k, Cell(false, value))]
      ensures Now() == old(Now()).(mut := old(Now()).mut[k := Cell(false, value)])
    {
      WeightAppend(mutableMemTable.ops, Entry(k, Cell(false, value)));
      hide Wraps;
      hide MemTable.Valid;
      hide W.WAL.Valid;
      hide SSTableList.Valid;
      hide TotalWeight;
      hide Fold;
      hide Served;
      hide Weight;
      ok := mutableMemTable.Put(k, value);
      Repr := Repr + mutableMemTable.Repr;
    }

    method DeleteMutable(k: Key) returns (ok: bool)
      requires Apart() && PartsValid() && TotalWeight(mutableMemTable.ops) + Weight(Entry(k, Cell(true, []))) < TWO_64
      modifies this`Repr, mutableMemTable.Repr
      ensures Apart() && PartsValid()
      ensures fresh(Repr - old(Repr)) && fresh(mutableMemTable.Repr - old(mutableMemTable.Repr))
      ensures ok && mutableMemTable.ops == old(mutableMemTable.ops) + [Entry(k, Cell(true, []))]
      ensures Now() == old(Now()).(mut := old(Now()).mut[k := Cell(true, [])])
    {
      WeightAppend(mutableMemTable.ops, Entry(k, Cell(true, [])));
      hide Wraps;
      hide MemTable.Valid;
      hide W.WAL.Valid;
      hide SSTableList.Valid;
      hide TotalWeight;
      hide Fold;
      hide Served;
      hide Weight;
      ok := mutableMemTable.Delete(k);
      Repr := Repr + mutableMemTable.Repr;
    }

    method LogRecord(op: Entry) returns (ok: bool)
      requires Apart() && PartsValid()
      modifies wal
      ensures Apart() && PartsValid() && ok && old(wal.log) != []
      ensures Now() == old(Now()).(log := Appended(old(wal.log), old(wal.Overflows(op)), op))
      ensures W.AppendedBytes(old(wal.files), old(wal.segmentID), wal.maxSegmentSize, R.Frame(wal.crc, op),
                              wal.files, wal.segmentID)
    {
      hide W.AppendedBytes;
      hide R.Frame;
      hide MemTable.Valid;
      hide W.WAL.Valid;
      hide SSTableList.Valid;
      hide TotalWeight;
      hide Fold;
      hide Served;
      ok := wal.AppendRecord(op);
    }

    /** The write reaches the log first and then the mutable memtable. */
    method LogAndPut(k: Key, value: Bytes) returns (ok: bool)
      requires Valid() && TotalWeight(mutableMemTable.ops) + Weight(Entry(k, Cell(false, value))) < TWO_64
      modifies this`st, this`Repr, wal, mutableMemTable.Repr
      ensures Valid() && fresh(Repr - old(Repr)) && ok
      ensures st.history == old(st.history) + [Entry(k, Cell(false, value))]
      ensures mutableMemTable.ops == old(mutableMemTable.ops) + [Entry(k, Cell(false, value))]
      ensures wal.gap == old(wal.gap)
      ensures W.AppendedBytes(old(wal.files), old(wal.segmentID), wal.maxSegmentSize,
                              R.Frame(wal.crc, Entry(k, Cell(false, value))), wal.files, wal.segmentID)
    {
      hide MemTable.Valid;
      hide W.WAL.Valid;
      hide SSTableList.Valid;
      hide TotalWeight;
      hide Fold;
      hide Served;
      hide Weight;
      hide S.Good;
      hide Matches;
      hide W.AppendedBytes;
      hide R.Frame;
      ghost var op := Entry(k, Cell(false, value));
      ghost var st' := Wrote(st, Now(), op, wal.Overflows(op));
      ok := LogRecord(Entry(k, Cell(false, value)));
      if !ok {
        return false;
      }
      ok := PutMutable(k, value);
      st := st';
    }

    /** Likewise for a tombstone. */
    method LogAndDelete(k: Key) returns (ok: bool)
      requires Valid() && TotalWeight(mutableMemTable.ops) + Weight(Entry(k, Cell(true, []))) < TWO_64
      modifies this`st, this`Repr, wal, mutableMemTable.Repr
      ensures Valid() && fresh(Repr - old(Repr)) && ok
      ensures st.history == old(st.history) + [Entry(k, Cell(true, []))]
      ensures mutableMemTable.ops == old(mutableMemTable.ops) + [Entry(k, Cell(true, []))] && wal.gap == old(wal.gap)
      ensures W.AppendedBytes(old(wal.files), old(wal.segmentID), wal.maxSegmentSize,
                              R.Frame(wal.crc, Entry(k, Cell(true, []))), wal.files, wal.segmentID)
    {
      hide MemTable.Valid;
      hide W.WAL.Valid;
      hide SSTableList.Valid;
      hide TotalWeight;
      hide Fold;
      hide Served;
      hide Weight;
      hide S.Good;
      hide Matches;
      hide W.AppendedBytes;
      hide R.Frame;
      ghost var op := Entry(k, Cell(true, []));
      ghost var st' := Wrote(st, Now(), op, wal.Overflows(op));
      ok := LogRecord(Entry(k, Cell(true, [])));
      if !ok {
        return false;
      }
      ok := DeleteMutable(k);
      st := st';
    }

    /** Seals the mutable memtable and the log's segments that carry it, and installs a fresh one. */
    method FreezeMutable()
      requires Valid() && immutableMemTable == null
      modifies this, wal, mutableMemTable`mutable
      ensures Valid() && fresh(Repr - old(Repr)) && st.history == old(st.history)
      ensures immutableMemTable == old(mutableMemTable) && FrozenTo(old(Now()), Now())
      ensures fresh(mutableMemTable.Repr) && mutableMemTable.ops == [] && mutableMemTable.size == 0
      ensures immutableMemTable.ops == old(mutableMemTable.ops) && !immutableMemTable.mutable
      ensures immutableWALSegment == old(wal.segmentID) && wal.segmentID == immutableWALSegment + 1
      ensures wal.files == old(wal.files)[wal.segmentID := []] && wal.gap == old(wal.gap)
    {
      hide MemTable.Valid;
      hide W.WAL.Valid;
      hide SSTableList.Valid;
      hide TotalWeight;
      hide Fold;
      hide Served;
      hide Weight;
      hide S.Good;
      hide Matches;
      NothingPut();
      ghost var st' := Froze(st, Now());
      Seal();
      mutableMemTable := new MemTable(threshold);
      Repr := Repr + mutableMemTable.Repr;
      st := st';
    }

    method Seal()
      requires Apart() && PartsValid() && immutableMemTable == null
      modifies this`immutableMemTable, this`immutableWALSegment, wal, mutableMemTable`mutable
      ensures immutableMemTable == mutableMemTable && mutableMemTable.Valid() && !mutableMemTable.mutable
      ensures wal.Valid() && wal.open && wal.base == old(wal.base) && wal.log == old(wal.log) + [[]]
      ensures wal.gap == old(wal.gap) && wal.files == old(wal.files)[wal.segmentID := []]
      ensures immutableWALSegment == old(wal.segmentID) == wal.segmentID - 1
    {
      hide MemTable.Valid;
      mutableMemTable.Freeze();
      immutableMemTable := mutableMemTable;
      var sealed := wal.RotateLocked();
      immutableWALSegment := sealed;
    }

    /** The immutable memtable's entries under the next generation, as a file not yet in the list. */
    method WriteTable(imm: MemTable) returns (file: SSTableFile)
      requires list.Valid() && imm.Valid() && list !in imm.Repr
      modifies list`nextGen
      ensures list.Valid() && list.nextGen == old(list.nextGen) + 1
      ensures fresh(file) && file.Usable() && file.refCount == 1 && file.table.gen == list.nextGen
      ensures Sorted(file.table.entries) && Fold(file.table.entries) == Fold(imm.ops)
    {
      hide MemTable.Valid;
      hide SSTableList.Valid;
      hide Sorted;
      hide Fold;
      var nextGen := list.NextGen();
      var entries := imm.Entries();
      file := new SSTableFile(Table(nextGen, entries));
    }

    method AddTable(file: SSTableFile)
      requires Apart() && PartsValid() && file.Usable() && file.refCount == 1 && Sorted(file.table.entries)
      requires file !in Repr && file.table.gen <= list.nextGen
      requires forall f :: f in list.tables ==> f.table.gen != file.table.gen
      modifies list, this`Repr
      ensures Apart() && PartsValid() && Repr == old(Repr) + {file}
      ensures list.nextGen == old(list.nextGen)
      ensures Descending(list.tables) && forall f :: f in list.tables <==> f == file || f in old(list.tables)
    {
      hide MemTable.Valid;
      hide W.WAL.Valid;
      hide TotalWeight;
      hide Sorted;
      hide Fold;
      list.Add(file);
      Repr := Repr + {file};
    }

    /** Writes the immutable memtable's table and adds it to the list. */
    method Publish() returns (ghost t: Table)
      requires Apart() && PartsValid() && immutableMemTable != null
      modifies list, this`Repr
      ensures Apart() && PartsValid() && fresh(Repr - old(Repr)) && Published(old(Now()), Now(), t)
      ensures Stored(old(list.tables), list.tables, old(list.nextGen) + 1, immutableMemTable.ops)
    {
      hide MemTable.Valid;
      hide W.WAL.Valid;
      hide SSTableList.Valid;
      hide TotalWeight;
      hide Fold;
      hide Served;
      hide Sorted;
      ghost var files := list.tables;
      ServedBounds(files, list.nextGen);
      var file := WriteTable(immutableMemTable);
      t := file.table;
      AddTable(file);
      ServedAfterAdd(files, list.tables, file);
    }

    /** The immutable memtable is let go, and then the segments that carried it are reclaimed. */
    method DropImmutable(sealed: nat)
      requires Apart() && PartsValid() && sealed == Now().segment && wal.base <= sealed < wal.segmentID
      modifies this`immutableMemTable, wal
      ensures Apart() && PartsValid() && immutableMemTable == null && Now() == Dropped(old(Now()))
      ensures wal.segmentID == old(wal.segmentID)
      ensures wal.files == old(wal.files) - W.SealedUpTo(old(wal.files), sealed, wal.segmentID)
    {
      hide MemTable.Valid;
      hide W.WAL.Valid;
      hide SSTableList.Valid;
      hide TotalWeight;
      hide Fold;
      hide Served;
      immutableMemTable := null;
      if sealed > 0 {
        wal.RemoveSegmentsUpTo(sealed);
      }
    }

    method FlushCurrent()
      requires Valid() && immutableMemTable != null
      modifies this, wal, list
      ensures Valid() && fresh(Repr - old(Repr)) && st.history == old(st.history)
      ensures mutableMemTable == old(mutableMemTable) && immutableMemTable == null
      ensures FlushedTo(old(Now()), Now())
      ensures Stored(old(list.tables), list.tables, old(list.nextGen) + 1, old(immutableMemTable.ops))
      ensures wal.segmentID == old(wal.segmentID) && (old(wal.gap).NoGap? ==> wal.gap.NoGap?)
      ensures wal.files == old(wal.files) - W.SealedUpTo(old(wal.files), old(immutableWALSegment), wal.segmentID)
    {
      hide MemTable.Valid;
      hide W.WAL.Valid;
      hide SSTableList.Valid;
      hide TotalWeight;
      hide Fold;
      hide Served;
      hide Weight;
      hide S.Good;
      hide Matches;
      hide Published;
      ghost var before := Now();
      var sealed := immutableWALSegment;
      ghost var t := Publish();
      ghost var st' := Flushed(st, before, Now(), t);
      ghost var published := Now();
      DropImmutable(sealed);
      st := st';
      assert FlushedTo(before, Now()) by {
        assert Published(before, published, t) && Now() == Dropped(published);
      }
    }

    /** flushImmutable: does nothing if the memtable has been flushed in the meantime. */
    method FlushImmutable(imm: MemTable)
      requires Valid()
      modifies this, wal, list
      ensures Valid() && fresh(Repr - old(Repr)) && st.history == old(st.history)
      ensures mutableMemTable == old(mutableMemTable)
      ensures immutableMemTable == if old(immutableMemTable) == imm then null else old(immutableMemTable)
      ensures old(immutableMemTable) == imm ==> FlushedTo(old(Now()), Now())
      ensures old(immutableMemTable) != imm ==>
                st == old(st) && Now() == old(Now()) && list.tables == old(list.tables) && wal.files == old(wal.files)
      ensures old(immutableMemTable) == imm ==>
                && Stored(old(list.tables), list.tables, old(list.nextGen) + 1, old(imm.ops))
                && wal.files == old(wal.files) - W.SealedUpTo(old(wal.files), old(immutableWALSegment), wal.segmentID)
      ensures wal.segmentID == old(wal.segmentID) && (old(wal.gap).NoGap? ==> wal.gap.NoGap?)
    {
      hide MemTable.Valid;
      hide W.WAL.Valid;
      hide SSTableList.Valid;
      hide TotalWeight;
      hide Fold;
      hide Served;
      hide Weight;
      hide S.Good;
      hide Matches;
      hide FlushedTo;
      if immutableMemTable == null || immutableMemTable != imm {
        return;
      }
      FlushCurrent();
    }

    /** Flushes and freezes until the mutable memtable has room; it stops because the threshold is positive. */
    method PrepareMutable()
      requires Valid()
      modifies Repr
      ensures Valid() && fresh(Repr - old(Repr)) && st.history == old(st.history)
      ensures mutableMemTable.size < threshold && (old(wal.gap).NoGap? ==> wal.gap.NoGap?)
      ensures if old(mutableMemTable.size) < threshold then
                && mutableMemTable == old(mutableMemTable) && immutableMemTable == old(immutableMemTable)
                && mutableMemTable.ops == old(mutableMemTable.ops) && wal.files == old(wal.files)
                && list.tables == old(list.tables)
              else mutableMemTable.ops == [] && immutableMemTable == old(mutableMemTable)
    {
      hide MemTable.Valid;
      hide W.WAL.Valid;
      hide SSTableList.Valid;
      hide TotalWeight;
      hide Fold;
      hide Served;
      hide Weight;
      hide S.Good;
      hide Matches;
      while mutableMemTable.IsFull()
        invariant Valid() && fresh(Repr - old(Repr)) && st.history == old(st.history)
        invariant old(wal.gap).NoGap? ==> wal.gap.NoGap?
        invariant if mutableMemTable == old(mutableMemTable) then
                    && mutableMemTable.size == old(mutableMemTable.size)
                    && (mutableMemTable.size < threshold ==>
                          && immutableMemTable == old(immutableMemTable)
                          && mutableMemTable.ops == old(mutableMemTable.ops) && wal.files == old(wal.files)
                          && list.tables == old(list.tables))
                  else
                    && old(mutableMemTable.size) >= threshold && immutableMemTable == old(mutableMemTable)
                    && mutableMemTable.ops == [] && mutableMemTable.size < threshold
        decreases mutableMemTable.IsFull(), immutableMemTable != null
      {
        if immutableMemTable != null {
          FlushImmutable(immutableMemTable);
        } else {
          FreezeMutable();
        }
      }
    }

    /** The write is the one addition to the history, however much was flushed on the way. */
    method Insert(k: Key, value: Bytes) returns (ok: bool)
      requires Valid() && threshold + Weight(Entry(k, Cell(false, value))) <= TWO_64
      modifies Repr
      ensures Valid() && fresh(Repr - old(Repr)) && ok
      ensures st.history == old(st.history) + [Entry(k, Cell(false, value))]
      ensures immutableMemTable == null && (old(wal.gap).NoGap? ==> wal.gap.NoGap?)
      ensures mutableMemTable.ops ==
              (if old(mutableMemTable.size) < threshold then old(mutableMemTable.ops) else [])
              + [Entry(k, Cell(false, value))]
    {
      hide MemTable.Valid;
      hide W.WAL.Valid;
      hide SSTableList.Valid;
      hide TotalWeight;
      hide Fold;
      hide Served;
      hide Weight;
      hide S.Good;
      hide Matches;
      hide W.AppendedBytes;
      hide R.Frame;
      PrepareMutable();
      HasRoom(mutableMemTable);
      ok := LogAndPut(k, value);
      if !ok {
        return false;
      }
      var immToFlush := immutableMemTable;
      if immToFlush != null {
        FlushImmutable(immToFlush);
      }
    }

    /** A delete adds a tombstone to the history. */
    method Delete(k: Key) returns (ok: bool)
      requires Valid() && threshold + Weight(Entry(k, Cell(true, []))) <= TWO_64
      modifies Repr
      ensures Valid() && fresh(Repr - old(Repr)) && ok
      ensures st.history == old(st.history) + [Entry(k, Cell(true, []))]
      ensures immutableMemTable == null && (old(wal.gap).NoGap? ==> wal.gap.NoGap?)
      ensures mutableMemTable.ops ==
              (if old(mutableMemTable.size) < threshold then old(mutableMemTable.ops) else [])
              + [Entry(k, Cell(true, []))]
    {
      hide MemTable.Valid;
      hide W.WAL.Valid;
      hide SSTableList.Valid;
      hide TotalWeight;
      hide Fold;
      hide Served;
      hide Weight;
      hide S.Good;
      hide Matches;
      hide W.AppendedBytes;
      hide R.Frame;
      PrepareMutable();
      HasRoom(mutableMemTable);
      ok := LogAndDelete(k);
      if !ok {
        return false;
      }
      var immToFlush := immutableMemTable;
      if immToFlush != null {
        FlushImmutable(immToFlush);
      }
    }

    /**
     * Flush writes the immutable memtable if there is one, and else freezes and writes the mutable
     * one, unless that is empty or already full: then it does nothing.
     */
    method Flush()
      requires Valid()
      modifies this, wal, list, mutableMemTable`mutable
      ensures Valid() && fresh(Repr - old(Repr)) && st.history == old(st.history) && immutableMemTable == null
      ensures old(wal.gap).NoGap? ==> wal.gap.NoGap?
      ensures old(immutableMemTable) != null ==> mutableMemTable == old(mutableMemTable)
      ensures old(immutableMemTable) == null && 0 < old(mutableMemTable.size) < threshold ==> mutableMemTable.ops == []
      ensures old(immutableMemTable) == null && !(0 < old(mutableMemTable.size) < threshold) ==> st == old(st)
    {
      hide MemTable.Valid;
      hide W.WAL.Valid;
      hide SSTableList.Valid;
      hide TotalWeight;
      hide Fold;
      hide Served;
      hide Weight;
      hide S.Good;
      hide Matches;
      var imm := immutableMemTable;
      if imm == null {
        if mutableMemTable.size > 0 && !mutableMemTable.IsFull() {
          FreezeMutable();
          imm := immutableMemTable;
        }
      }
      if imm != null {
        FlushImmutable(imm);
      }
    }

    /**
     * Close flushes, drops the list's references, and closes the log. Nothing is lost: the files stay
     * on disk, and what has not been flushed stays in the log.
     */
    method Close() returns (files: seq<SSTableFile>, ghost p: Picture)
      requires Valid()
      modifies Repr
      ensures S.Good(st) && Matches(st, p) && st.history == old(st.history) && p.tables == Served(files)
      ensures wal.Valid() && !wal.open && 1 <= p.base == wal.base && p.log == wal.log && p.gap == wal.gap
      ensures old(wal.gap).NoGap? ==> wal.gap.NoGap?
      ensures list.tables == [] && forall f :: f in files ==> f.closed && !f.readerOpen && f.onDisk
    {
      hide MemTable.Valid;
      hide W.WAL.Valid;
      hide TotalWeight;
      hide Fold;
      hide Served;
      hide S.Good;
      hide Matches;
      Flush();
      files, p := list.tables, Now();
      list.Close();
      wal.Close();
    }

    /** Mutable memtable, immutable memtable, tables: the first that holds the key decides. */
    method LookUp(k: Key, tables: seq<SSTableFile>) returns (c: Option<Cell>)
      requires Apart() && mutableMemTable.Valid() && (immutableMemTable != null ==> immutableMemTable.Valid())
      requires tables == list.tables && forall f :: f in tables ==> Sorted(f.table.entries)
      ensures c == Layered(Now(), k)
    {
      hide MemTable.Valid;
      hide Fold;
      hide Sorted;
      hide FirstHit;
      c := mutableMemTable.Lookup(k);
      if c.Some? {
        return c;
      }
      if immutableMemTable != null {
        c := immutableMemTable.Lookup(k);
        if c.Some? {
          return c;
        }
      }
      c := FindInTables(Served(tables), k);
    }

    method Acquire() returns (tables: seq<SSTableFile>)
      requires Apart() && Parts(1)
      modifies list.tables
      ensures Apart() && Parts(2) && Now() == old(Now()) && tables == list.tables
    {
      hide MemTable.Valid;
      hide W.WAL.Valid;
      hide SSTableList.Valid;
      hide TotalWeight;
      hide Fold;
      hide Served;
      hide Sorted;
      tables := list.GetTables();
    }

    method Release(tables: seq<SSTableFile>)
      requires Apart() && Parts(2) && tables == list.tables
      modifies list.tables
      ensures Apart() && Parts(1) && Now() == old(Now())
    {
      hide MemTable.Valid;
      hide W.WAL.Valid;
      hide TotalWeight;
      hide Fold;
      hide Served;
      hide Sorted;
      ReleaseTables(tables);
    }

    /**
     * Get returns what the writes so far leave under the key. `deleted` tells a tombstone from a miss: a
     * deleted key was deleted by the last write to it, and the newest layer that holds the key decides.
     */
    method Get(k: Key) returns (value: Bytes, found: bool, deleted: bool)
      requires Valid()
      modifies list.tables
      ensures Valid() && st.mems != []
      ensures found == Live(Find(Fold(st.history), k)).Some?
      ensures found ==> Live(Find(Fold(st.history), k)) == Some(value)
      ensures deleted ==> k in Fold(st.history) && Fold(st.history)[k].deleted
      ensures deleted <==> E.View(st, k).Some? && E.View(st, k).value.deleted
      ensures k in Fold(mutableMemTable.ops) ==> Answers(Fold(mutableMemTable.ops)[k], value, found, deleted)
      ensures k !in Fold(mutableMemTable.ops) && immutableMemTable != null && k in Fold(immutableMemTable.ops) ==>
                Answers(Fold(immutableMemTable.ops)[k], value, found, deleted)
      ensures k !in Fold(mutableMemTable.ops) && (immutableMemTable != null ==> k !in Fold(immutableMemTable.ops)) ==>
                TablesAnswer(list.tables, k, value, found, deleted)
    {
      hide MemTable.Valid;
      hide W.WAL.Valid;
      hide SSTableList.Valid;
      hide TotalWeight;
      hide Fold;
      hide Served;
      hide Weight;
      hide S.Good;
      hide Matches;
      hide Sorted;
      hide Layered;
      hide E.View;
      hide Answers;
      hide TablesAnswer;
      LayeredIsView(st, Now(), k);
      S.GoodIsReachable(st);
      K.FoundWasWritten(st, k);
      var tables := Acquire();
      var c := LookUp(k, tables);
      Release(tables);
      ShownDeleted(st.history, k, c);
      deleted := c.Some? && c.value.deleted;
      found := c.Some? && !c.value.deleted;
      value := if found then c.value.value else [];
      LayersAnswer(list.tables, Now(), k, c, value, found, deleted);
    }

    /** The merge of all tables as a file of the next generation, unless nothing is left. */
    method MergeTables(tables: seq<SSTableFile>) returns (file: SSTableFile?, written: seq<Entry>)
      requires Apart() && Parts(2) && tables == list.tables
      modifies list`nextGen
      ensures Apart() && Parts(2) && Now() == old(Now()).(nextGen := old(Now()).nextGen + 1)
      ensures Sorted(written) && IsMerge(Now().tables, true, written)
      ensures if written == [] then file == null
              else file != null && fresh(file) && file.Usable() && file.refCount == 1
                   && file.table == Table(list.nextGen, written)
    {
      hide MemTable.Valid;
      hide W.WAL.Valid;
      hide SSTableList.Valid;
      hide TotalWeight;
      hide Fold;
      hide Served;
      hide Sorted;
      hide IsMerge;
      var nextGen := list.NextGen();
      file, written := WriteMerged(tables, nextGen);
    }

    /** Replaces all tables by the merged one and lets go of the old files. */
    method SwapTables(tables: seq<SSTableFile>, file: SSTableFile?)
      requires Apart() && Parts(2) && tables == list.tables
      requires file != null ==> && file !in Repr && file.Usable() && file.refCount == 1 && Sorted(file.table.entries)
                                && file.table.gen == list.nextGen
                                && forall f :: f in tables ==> f.table.gen < list.nextGen
      modifies list`tables, list.tables, this`Repr
      ensures Apart() && Parts(1) && Repr == old(Repr) + if file == null then {} else {file}
      ensures Now() == old(Now()).(tables := if file == null then [] else [file.table])
      ensures forall f :: f in tables ==> f !in list.tables && !f.readerOpen && !f.onDisk
    {
      hide MemTable.Valid;
      hide W.WAL.Valid;
      hide TotalWeight;
      hide Fold;
      hide Sorted;
      list.ReplaceTables(tables, file);
      ReleaseTables(tables);
      Repr := Repr + if file == null then {} else {file};
      OnlyFile(list.tables, file);
    }

    /** Compact merges all tables; their files are closed and removed once nothing refers to them. */
    method Compact()
      requires Valid()
      modifies this`st, this`Repr, list, list.tables
      ensures Valid() && fresh(Repr - old(Repr)) && st.history == old(st.history) && |list.tables| <= 1
      ensures forall f :: f in old(list.tables) ==> f !in list.tables && !f.readerOpen && !f.onDisk
      ensures MergedTo(old(Now()), Now()) && OnlyNewest(old(Served(list.tables)), list.tables)
    {
      hide MemTable.Valid;
      hide W.WAL.Valid;
      hide SSTableList.Valid;
      hide TotalWeight;
      hide Fold;
      hide Served;
      hide Weight;
      hide S.Good;
      hide Matches;
      hide Sorted;
      var tables := Acquire();
      NothingToMerge();
      hide OnlyNewest;
      if |tables| == 0 {
        return;
      }
      Rewrite(tables);
    }

    method Rewrite(tables: seq<SSTableFile>)
      requires Apart() && Parts(2) && S.Good(st) && Matches(st, Now()) && tables == list.tables && tables != []
      modifies this`st, this`Repr, list, list.tables
      ensures Valid() && fresh(Repr - old(Repr)) && st.history == old(st.history) && |list.tables| <= 1
      ensures forall f :: f in tables ==> f !in list.tables && !f.readerOpen && !f.onDisk
      ensures MergedTo(old(Now()), Now()) && OnlyNewest(Served(tables), list.tables)
    {
      hide MemTable.Valid;
      hide W.WAL.Valid;
      hide SSTableList.Valid;
      hide TotalWeight;
      hide Fold;
      hide Served;
      hide Weight;
      hide S.Good;
      hide Matches;
      hide Sorted;
      hide IsMerge;
      hide OnlyNewest;
      hide NewestEntry;
      ghost var before := Now();
      var file, written := MergeTables(tables);
      ghost var st' := Compacted(st, before, true, written);
      SwapTables(tables, file);
      OneTable(before.tables, written, list.tables);
      st := st';
    }

    /**
     * Freezes the mutable memtable, once an earlier flush has made room, and takes the immutable one
     * and every table.
     */
    method SnapshotForScan() returns (tables: seq<SSTableFile>)
      requires Valid()
      modifies Repr
      ensures Apart() && Parts(2) && S.Good(st) && Matches(st, Now()) && fresh(Repr - old(Repr))
      ensures st.history == old(st.history) && tables == list.tables && Now().mut == map[]
    {
      hide MemTable.Valid;
      hide W.WAL.Valid;
      hide SSTableList.Valid;
      hide TotalWeight;
      hide Fold;
      hide Served;
      hide Weight;
      hide S.Good;
      hide Matches;
      while mutableMemTable.size > 0 && immutableMemTable != null
        invariant Valid() && fresh(Repr - old(Repr)) && st.history == old(st.history)
        decreases immutableMemTable != null
      {
        FlushImmutable(immutableMemTable);
      }
      if mutableMemTable.size > 0 {
        FreezeMutable();
      }
      SizeZeroIsEmpty(mutableMemTable);
      tables := Acquire();
    }

    /** The iterator over the snapshot; the caller holds the tables until it is done. */
    method Scan(seriesID: uint64, startTs: int64, endTs: int64)
      returns (it: Scanner.ScanIterator, tables: seq<SSTableFile>, ghost imm: seq<Entry>)
      requires Valid()
      modifies Repr
      ensures Apart() && Parts(2) && S.Good(st) && Matches(st, Now()) && fresh(Repr - old(Repr))
      ensures st.history == old(st.history) && tables == list.tables && Now().mut == map[]
      ensures fresh(it) && fresh(it.heap) && it !in Repr && it.heap !in Repr && it.Valid() && it.yielded == []
      ensures Sorted(imm) && Fold(imm) == (if Now().imm.Some? then Now().imm.value else map[])
      ensures it.heap.sources == Scanner.Snapshot(imm, Now().tables) && it.heap.rank == Scanner.ByIndex(|tables| + 1)
      ensures it.seriesID == seriesID && it.startTs == startTs && it.endTs == endTs
    {
      hide MemTable.Valid;
      hide W.WAL.Valid;
      hide SSTableList.Valid;
      hide TotalWeight;
      hide Fold;
      hide Served;
      hide Weight;
      hide S.Good;
      hide Matches;
      hide Sorted;
      tables := SnapshotForScan();
      var entries := ImmutableEntries();
      imm := entries;
      it := ScanOf(entries, tables, seriesID, startTs, endTs);
    }

    method ImmutableEntries() returns (es: seq<Entry>)
      requires Apart() && (immutableMemTable != null ==> immutableMemTable.Valid())
      ensures Sorted(es) && Fold(es) == (if Now().imm.Some? then Now().imm.value else map[])
    {
      NothingPut();
      hide MemTable.Valid;
      hide Fold;
      if immutableMemTable != null {
        es := immutableMemTable.Entries();
      } else {
        es := [];
      }
    }

    /**
     * A scan run to its end yields the values that the writes so far leave in the series and the time
     * range, in ascending order of their keys, and nothing else.
     */
    method ScanToEnd(seriesID: uint64, startTs: int64, endTs: int64) returns (out: seq<Entry>)
      requires Valid()
      modifies Repr
      ensures Valid() && fresh(Repr - old(Repr)) && st.history == old(st.history)
      ensures Exactly(out, st.history, seriesID, startTs, endTs)
    {
      hide MemTable.Valid;
      hide W.WAL.Valid;
      hide SSTableList.Valid;
      hide TotalWeight;
      hide Fold;
      hide Served;
      hide Weight;
      hide S.Good;
      hide Matches;
      hide Sorted;
      hide Newest;
      hide Exactly;
      var it, tables, imm := Scan(seriesID, startTs, endTs);
      out := it.Drain();
      ScannedShows(st, Now(), imm, out, seriesID, startTs, endTs);
      Release(tables);
    }

    /** One replayed record: Delete or Put. */
    method RecoverRecord(r: Entry) returns (ok: bool)
      requires Apart() && PartsValid() && Plain(r) && TotalWeight(mutableMemTable.ops) + Weight(r) < TWO_64
      modifies this`Repr, mutableMemTable.Repr
      ensures Apart() && PartsValid() && fresh(Repr - old(Repr)) && ok && mutableMemTable == old(mutableMemTable)
      ensures mutableMemTable.ops == old(mutableMemTable.ops) + [r]
      ensures fresh(mutableMemTable.Repr - old(mutableMemTable.Repr))
      ensures Now() == old(Now()).(mut := old(Now()).mut[r.key := r.cell])
    {
      hide MemTable.Valid;
      hide W.WAL.Valid;
      hide SSTableList.Valid;
      hide TotalWeight;
      hide Fold;
      hide Served;
      hide Weight;
      if r.cell.deleted {
        ok := DeleteMutable(r.key);
      } else {
        ok := PutMutable(r.key, r.cell.value);
      }
    }

    /**
     * Recover replays the whole log into the mutable memtable, however full that becomes. It fails
     * exactly when the log cannot be read back, as when the checksum of some record is wrong.
     */
    method Recover() returns (ok: bool)
      requires Apart() && PartsValid() && mutableMemTable.ops == []
      requires Loadable(W.ReplaySegments(wal.crc, wal.files, wal.base, |wal.log|))
      modifies this`Repr, mutableMemTable.Repr
      ensures Apart() && PartsValid() && fresh(Repr - old(Repr)) && (W.AnyCorrupt(wal.crc, wal.files) ==> !ok)
      ensures var replayed := W.ReplaySegments(wal.crc, wal.files, wal.base, |wal.log|);
              && ok == replayed.Ok?
              && (ok ==> mutableMemTable.ops == replayed.value)
              && Now() == old(Now()).(mut := if ok then Fold(replayed.value) else old(Now()).mut)
    {
      hide MemTable.Valid;
      hide W.WAL.Valid;
      hide SSTableList.Valid;
      hide TotalWeight;
      hide Fold;
      hide Served;
      hide Weight;
      hide Plain;
      hide Flat;
      hide W.IsReplayOf;
      hide W.AnyCorrupt;
      hide W.ReplaySegments;
      var records := wal.Replay();
      if records.Err? {
        return false;
      }
      ghost var rs := records.value;
      for i := 0 to |records.value|
        invariant Apart() && PartsValid() && fresh(Repr - old(Repr)) && mutableMemTable == old(mutableMemTable)
        invariant fresh(mutableMemTable.Repr - old(mutableMemTable.Repr))
        invariant mutableMemTable.ops == rs[..i] && Now() == old(Now()).(mut := Fold(rs[..i]))
      {
        WeightPrefix(rs, i);
        ok := RecoverRecord(records.value[i]);
        if !ok {
          return false;
        }
        assert rs[..i + 1] == rs[..i] + [rs[i]];
      }
      assert rs[..|rs|] == rs;
      return true;
    }
  }

  lemma ServedAfterAdd(before: seq<SSTableFile>, after: seq<SSTableFile>, file: SSTableFile)
    requires TableLists.Descending(after) && forall f :: f in after <==> f == file || f in before
    ensures Scanner.Descending(Served(after))
    ensures forall v :: v in Served(after) <==> v == file.table || v in Served(before)
  {
    forall v ensures v in Served(after) <==> v == file.table || v in Served(before) {
      ServedHas(before, v);
      ServedHas(after, v);
    }
  }

  lemma ServedBounds(files: seq<SSTableFile>, bound: nat)
    requires forall f :: f in files ==> f.table.gen <= bound
    ensures forall v :: v in Served(files) ==> v.gen <= bound
  {
    forall v | v in Served(files) ensures v.gen <= bound {
      ServedHas(files, v);
    }
  }

  /** Without wrap-around a memtable that is not full weighs less than its threshold. */
  lemma HasRoom(m: MemTable)
    requires m.Valid() && TotalWeight(m.ops) < TWO_64 && !m.IsFull()
    ensures TotalWeight(m.ops) < m.flushThreshold
  {}

  /** The table loop of Get: the first table that holds the key, tombstone or not, decides. */
  method FindInTables(tables: seq<Table>, k: Key) returns (c: Option<Cell>)
    requires forall t :: t in tables ==> Sorted(t.entries)
    ensures c == FirstHit(tables, k)
  {
    hide Fold;
    hide Sorted;
    for i := 0 to |tables|
      invariant FirstHit(tables, k) == FirstHit(tables[i..], k)
    {
      SearchIsFind(tables[i].entries, k);
      c := Search(tables[i].entries, k);
      if c.Some? {
        return c;
      }
      assert tables[i..][1..] == tables[i + 1..];
    }
    return None;
  }

  /** The files hold the newest entry of every key, unless it is a tombstone, and nothing else. */
  ghost predicate OnlyNewest(before: seq<Table>, after: seq<SSTableFile>) {
    && (forall f, e :: f in after && e in f.table.entries ==> NewestEntry(before, e) && !e.cell.deleted)
    && forall e :: NewestEntry(before, e) && !e.cell.deleted ==> exists f :: f in after && e in f.table.entries
  }

  lemma NothingToMerge()
    ensures OnlyNewest(Served([]), [])
  {}

  lemma OneTable(before: seq<Table>, written: seq<Entry>, after: seq<SSTableFile>)
    requires IsMerge(before, true, written) && if written == [] then after == [] else |after| == 1
    requires written != [] ==> after[0].table.entries == written
    ensures OnlyNewest(before, after)
  {
    hide NewestEntry;
    hide Sorted;
    if written != [] {
      assert after[0] in after;
    }
  }

  /** What Get returns for a cell. */
  ghost predicate Answers(c: Cell, value: Bytes, found: bool, deleted: bool) {
    deleted == c.deleted && found == !c.deleted && (found ==> value == c.value)
  }

  /** File i is the first in the list that holds the key. */
  ghost predicate HoldsFirst(files: seq<SSTableFile>, k: Key, i: int) {
    && 0 <= i < |files| && k in Fold(files[i].table.entries)
    && forall j :: 0 <= j < i ==> k !in Fold(files[j].table.entries)
  }

  /** The first table that holds the key decides; if none does, the key is neither found nor deleted. */
  ghost predicate TablesAnswer(files: seq<SSTableFile>, k: Key, value: Bytes, found: bool, deleted: bool) {
    && (forall i :: HoldsFirst(files, k, i) ==> Answers(Fold(files[i].table.entries)[k], value, found, deleted))
    && ((forall i :: 0 <= i < |files| ==> k !in Fold(files[i].table.entries)) ==> !found && !deleted)
  }

  lemma FirstHitIsFirst(files: seq<SSTableFile>, k: Key)
    ensures forall i :: HoldsFirst(files, k, i) ==> FirstHit(Served(files), k) == Some(Fold(files[i].table.entries)[k])
    ensures (forall i :: 0 <= i < |files| ==> k !in Fold(files[i].table.entries)) ==> FirstHit(Served(files), k) == None
  {
    var at := HitAt(Served(files), k);
    hide Fold;
    hide FirstHit;
    if at < |files| {
      assert Served(files)[at] == files[at].table;
      assert k in Fold(files[at].table.entries);
    }
    forall i | HoldsFirst(files, k, i) ensures i == at {
      assert Served(files)[i] == files[i].table;
    }
  }

  lemma LayersAnswer(files: seq<SSTableFile>, p: Picture, k: Key, c: Option<Cell>,
                     value: Bytes, found: bool, deleted: bool)
    requires p.tables == Served(files) && c == Layered(p, k)
    requires deleted == (c.Some? && c.value.deleted) && found == (c.Some? && !c.value.deleted)
    requires found ==> value == c.value.value
    ensures k in p.mut ==> Answers(p.mut[k], value, found, deleted)
    ensures k !in p.mut && p.imm.Some? && k in p.imm.value ==> Answers(p.imm.value[k], value, found, deleted)
    ensures k !in p.mut && (p.imm.Some? ==> k !in p.imm.value) ==> TablesAnswer(files, k, value, found, deleted)
  {
    FirstHitIsFirst(files, k);
    hide Fold;
    hide FirstHit;
    hide HoldsFirst;
  }

  /** A tombstone that is shown is the last write to the key. */
  lemma ShownDeleted(h: seq<Entry>, k: Key, c: Option<Cell>)
    requires Live(c) == Live(Find(Fold(h), k)) && (c.Some? ==> k in Fold(h))
    ensures c.Some? && c.value.deleted ==> k in Fold(h) && Fold(h)[k].deleted
  {
    hide Fold;
  }

  lemma ServedIsGood(files: seq<SSTableFile>)
    requires TableLists.Descending(files) && forall f :: f in files ==> Sorted(f.table.entries)
    ensures GoodTables(Served(files)) && Scanner.Descending(Served(files))
  {}

  /** CompactSSTables on the files' tables: no file if nothing is left. */
  method WriteMerged(files: seq<SSTableFile>, gen: nat) returns (file: SSTableFile?, written: seq<Entry>)
    requires TableLists.Descending(files) && forall f :: f in files ==> Sorted(f.table.entries)
    ensures Sorted(written) && IsMerge(Served(files), true, written)
    ensures if written == [] then file == null
            else file != null && fresh(file) && file.Usable() && file.refCount == 1 && file.table == Table(gen, written)
  {
    ServedIsGood(files);
    hide NewestEntry;
    hide Sorted;
    written := CompactSSTables(Served(files), true);
    file := null;
    if written != [] {
      file := new SSTableFile(Table(gen, written));
    }
  }

  method ScanOf(imm: seq<Entry>, files: seq<SSTableFile>, seriesID: uint64, startTs: int64, endTs: int64)
    returns (it: Scanner.ScanIterator)
    requires Sorted(imm) && forall f :: f in files ==> Sorted(f.table.entries)
    ensures fresh(it) && fresh(it.heap) && it.Valid() && it.yielded == []
    ensures it.heap.sources == Scanner.Snapshot(imm, Served(files)) && it.heap.rank == Scanner.ByIndex(|files| + 1)
    ensures it.seriesID == seriesID && it.startTs == startTs && it.endTs == endTs
  {
    it := new Scanner.ScanIterator(Scanner.Snapshot(imm, Served(files)), seriesID, startTs, endTs);
  }

  /** The log's files and the tables' files that a crash in state `before` leaves on disk. */
  ghost predicate LeftBehind(before: E.State, gap: W.Gap, kept: nat, crc: R.Checksum, segments: map<nat, Bytes>,
                             disk: seq<Table>) {
    && S.Reachable(before) && E.Inv(before) && before.base >= 1 && before.log != []
    && LogLeft(before, gap, kept, crc, segments)
    && E.Disciplined(before, E.Crash(Keeps(before, crc, kept), Tears(before, crc, kept)))
    && GoodTables(disk) && Represents(before.files, disk)
  }

  /** The log's records can be replayed into one memtable. */
  ghost predicate Replayable(log: seq<seq<Entry>>) {
    W.AllFit(log) && TotalWeight(Flat(log)) < TWO_64 && forall r :: r in Flat(log) ==> Plain(r)
  }

  /** The records that a replay yields, if it succeeds, go into one memtable. */
  ghost predicate Loadable(replayed: Result<seq<Entry>>) {
    replayed.Ok? ==> TotalWeight(replayed.value) < TWO_64 && forall r :: r in replayed.value ==> Plain(r)
  }

  /** Load lists exactly the files found, and the next generation follows the highest of them. */
  lemma LoadedIsListed(ts: G.Tables, disk: seq<Table>, files: seq<SSTableFile>, top: nat)
    requires GoodTables(disk) && Represents(ts, disk) && TableLists.Descending(files)
    requires forall f :: f in files ==> f.table in disk && f.table.gen <= top
    requires forall t :: t in disk ==> exists f :: f in files && f.table == t
    requires top == 0 || exists t :: t in disk && t.gen == top
    ensures Listed(ts, Served(files)) && E.MaxGen(ts.Keys) == top
  {
    hide Fold;
    hide Sorted;
    var tables := Served(files);
    forall i | 0 <= i < |tables|
      ensures Sorted(tables[i].entries) && tables[i].gen in ts && ts[tables[i].gen] == Fold(tables[i].entries)
    {
      assert files[i] in files;
      var j :| 0 <= j < |disk| && disk[j] == tables[i];
    }
    forall g | g in ts ensures g <= top && exists s :: 0 <= s < |tables| && tables[s].gen == g {
      var j :| 0 <= j < |disk| && disk[j].gen == g;
      assert disk[j] in disk;
      var f :| f in files && f.table == disk[j];
      var s :| 0 <= s < |files| && files[s] == f;
      assert tables[s].gen == g;
    }
    if t :| t in disk && t.gen == top {
      var j :| 0 <= j < |disk| && disk[j] == t;
      assert top in ts;
    }
    HighestIsMaxGen(ts.Keys, top);
  }

  lemma {:induction false} WeightPrefix(ops: seq<Entry>, i: nat)
    requires i < |ops|
    ensures TotalWeight(ops[..i]) + Weight(ops[i]) <= TotalWeight(ops)
    ensures Fold(ops[..i + 1]) == Fold(ops[..i])[ops[i].key := ops[i].cell]
    decreases |ops|
  {
    hide Weight;
    assert ops[..i + 1][..i] == ops[..i];
    var n := |ops| - 1;
    if i < n {
      WeightPrefix(ops[..n], i);
      assert ops[..n][..i] == ops[..i];
    }
  }

  lemma FirstTwoDiffer(files: seq<SSTableFile>)
    requires TableLists.Descending(files) && |files| > 1
    ensures files[0] in files && files[1] in files && files[0] != files[1]
  {}

  lemma OnlyFile(files: seq<SSTableFile>, file: SSTableFile?)
    requires TableLists.Descending(files) && forall f :: f in files <==> f == file
    ensures files == (if file == null then [] else [file])
    ensures Served(files) == if file == null then [] else [file.table]
  {
    assert file != null ==> file in files;
    if |files| == 1 {
      assert files[0] in files;
    } else if |files| > 1 {
      FirstTwoDiffer(files);
      assert false;
    }
  }

  lemma NothingPut()
    ensures TotalWeight([]) == 0 && Fold([]) == map[]
  {}

  /** An empty database. */
  method CreateWisp(crc: R.Checksum, maxSegmentSize: nat, threshold: uint64) returns (w: Wisp)
    ensures fresh(w.Repr) && w.Valid() && w.st == E.Init && w.immutableMemTable == null
    ensures w.threshold == if threshold == 0 then 4 * 1024 * 1024 else threshold
    ensures w.wal.crc == crc && w.wal.files == map[1 := []] && w.wal.gap.NoGap?
    ensures w.wal.maxSegmentSize == if maxSegmentSize == 0 then 4 * 1024 * 1024 else maxSegmentSize
    ensures w.mutableMemTable.ops == [] && w.mutableMemTable.size == 0 && w.list.tables == []
  {
    NothingPut();
    InitGood();
    hide S.Good;
    hide Matches;
    hide TotalWeight;
    hide Fold;
    hide Sorted;
    hide Served;
    hide MemTable.Valid;
    hide W.WAL.Valid;
    hide SSTableList.Valid;
    var mem := NewMemTable(threshold);
    var list := new SSTableList();
    var wal := new W.WAL(crc, maxSegmentSize);
    w := new Wisp(list, wal, mem, E.Init);
  }

  method NewMemTable(threshold: uint64) returns (mem: MemTable)
    ensures mem.Valid() && fresh(mem.Repr) && mem in mem.Repr && mem.mutable && mem.ops == [] && mem.size == 0
    ensures mem.flushThreshold == if threshold == 0 then 4 * 1024 * 1024 else threshold
  {
    mem := new MemTable(threshold);
  }

  /**
   * Opening what a crash left behind, whatever was under way and however many bytes of the record in
   * flight survived: the object is in the state that the engine reopens to, and so shows every
   * acknowledged write, and the one in flight if all its bytes are there.
   */
  method ReopenWisp(crc: R.Checksum, maxSegmentSize: nat, threshold: uint64, segments: map<nat, Bytes>,
                    disk: seq<Table>, ghost before: E.State, ghost gap: W.Gap, ghost kept: nat)
    returns (w: Wisp, ok: bool)
    requires LeftBehind(before, gap, kept, crc, segments, disk)
    requires Replayable(E.Surviving(before, Keeps(before, crc, kept)))
    ensures ok && fresh(w.Repr) && w.Valid()
    ensures w.st == E.Reopened(before, Keeps(before, crc, kept), Tears(before, crc, kept))
    ensures w.wal.crc == crc && w.wal.files == segments && w.wal.gap == GapLeft(before, gap, kept, crc)
    ensures w.wal.maxSegmentSize == if maxSegmentSize == 0 then 4 * 1024 * 1024 else maxSegmentSize
    ensures w.threshold == if threshold == 0 then 4 * 1024 * 1024 else threshold
  {
    hide S.Good;
    hide Matches;
    hide E.Inv;
    hide S.Reachable;
    hide Replayable;
    hide Loadable;
    hide W.AnyCorrupt;
    hide W.ReplaySegments;
    hide LogLeft;
    hide GapLeft;
    hide GapFits;
    hide TailOf;
    hide Keeps;
    hide Tears;
    hide E.Surviving;
    hide E.Reopened;
    hide E.Disciplined;
    hide GoodTables;
    hide Represents;
    hide W.FilesWith;
    hide W.GapIn;
    hide W.AtEnd;
    hide TotalWeight;
    hide Fold;
    hide Sorted;
    hide Served;
    hide MemTable.Valid;
    hide W.WAL.Valid;
    hide SSTableList.Valid;
    LogLeftReplays(before, gap, kept, crc, segments);
    ghost var log := E.Surviving(before, Keeps(before, crc, kept));
    var mem := NewMemTable(threshold);
    var list := LoadList(disk, before.files);
    var wal := OpenLog(crc, maxSegmentSize, segments, before.base, log, GapLeft(before, gap, kept, crc));
    w := new Wisp(list, wal, mem, E.Reopened(before, Keeps(before, crc, kept), Tears(before, crc, kept)));
    LogLoads(crc, segments, before.base, log);
    ok := w.Recover();
    ReopenedMatches(before, Keeps(before, crc, kept), Tears(before, crc, kept), w.Now());
  }

  lemma LogLoads(crc: R.Checksum, segments: map<nat, Bytes>, base: nat, log: seq<seq<Entry>>)
    requires Replayable(log)
    requires W.AllFit(log) ==> W.ReplaySegments(crc, segments, base, |log|) == Ok(Flat(log))
    ensures W.ReplaySegments(crc, segments, base, |log|) == Ok(Flat(log))
    ensures Loadable(W.ReplaySegments(crc, segments, base, |log|))
  {}

  method LoadList(disk: seq<Table>, ghost ts: G.Tables) returns (list: SSTableList)
    requires GoodTables(disk) && Represents(ts, disk)
    ensures fresh(list) && list.Valid() && TableLists.Descending(list.tables)
    ensures forall f :: f in list.tables ==>
              fresh(f) && f.refCount == 1 && Sorted(f.table.entries) && f.table.gen <= list.nextGen
    ensures Listed(ts, Served(list.tables)) && list.nextGen == E.MaxGen(ts.Keys)
  {
    list := new SSTableList.Load(disk);
    LoadedIsListed(ts, disk, list.tables, list.nextGen);
  }

  method OpenLog(crc: R.Checksum, maxSegmentSize: nat, segments: map<nat, Bytes>,
                 ghost base: nat, ghost log: seq<seq<Entry>>, ghost gap: W.Gap) returns (wal: W.WAL)
    requires log != [] && W.GapIn(crc, base, log, gap) && segments == W.FilesWith(crc, base, log, gap)
    ensures fresh(wal) && wal.Valid() && wal.open && wal.base == base && wal.log == log && wal.gap == gap
    ensures wal.segmentID == base + |log| - 1 && wal.crc == crc && wal.files == segments
    ensures wal.maxSegmentSize == if maxSegmentSize == 0 then 4 * 1024 * 1024 else maxSegmentSize
  {
    wal := new W.WAL.Reopen(crc, maxSegmentSize, segments, base, log, gap);
  }

  lemma InitGood()
    ensures S.Good(E.Init) && Matches(E.Init, Picture(map[], None, 0, 1, [[]], W.NoGap, 0, Served([])))
  {
    S.InitReachable();
    T.InitInv();
  }
}
