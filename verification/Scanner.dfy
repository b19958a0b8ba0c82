/** Scan: a resumable merge over a frozen memtable and the tables, newest source first. */
module Scanner {
  import opened Base
  import opened History
  import opened SortedEntries
  import G = Generations
  import E = Engine
  import T = EngineTheorems
  import opened Merge
  import opened MergeHeaps
  import C = Compactor

  /** scanMinHeap.Less: by series, then by timestamp, and of equal keys the earlier source first. */
  predicate ScanLess(a: Item, b: Item) {
    if a.entry.key.series != b.entry.key.series then a.entry.key.series < b.entry.key.series
    else if a.entry.key.timestamp != b.entry.key.timestamp then a.entry.key.timestamp < b.entry.key.timestamp
    else a.source < b.source
  }

  /** A source's rank is its index: the memtable is source 0, the tables follow in list order. */
  function ByIndex(n: nat): (rank: seq<int>)
    ensures |rank| == n && forall s :: 0 <= s < n ==> rank[s] == s
  {
    seq(n, s => s)
  }

  lemma ScanLessIsItemLess(n: nat, a: Item, b: Item)
    requires a.source < n && b.source < n
    ensures ItemLess(ByIndex(n), a, b) <==> ScanLess(a, b)
  {}

  predicate InRange(seriesID: uint64, startTs: int64, endTs: int64, k: Key) {
    k.series == seriesID && startTs <= k.timestamp <= endTs
  }

  class ScanIterator {
    const heap: MergeHeap
    const seriesID: uint64
    const startTs: int64
    const endTs: int64
    var lastKey: Option<Key>
    var valid: bool
    var currentKey: Key
    var currentVal: Bytes
    ghost var last: Option<Key>
    ghost var yielded: seq<Entry>

    ghost function Range(): Key -> bool {
      (k: Key) => InRange(seriesID, startTs, endTs, k)
    }

    ghost function Keep(): Entry -> bool {
      (e: Entry) => !e.cell.deleted
    }

    ghost predicate Valid()
      reads this, heap
    {
      heap.Valid() && MergeInv(heap.sources, heap.rank, heap.pos, Range(), Keep(), last, lastKey, yielded)
    }

    constructor (sources: seq<seq<Entry>>, seriesID: uint64, startTs: int64, endTs: int64)
      requires forall s :: 0 <= s < |sources| ==> Sorted(sources[s])
      ensures Valid() && fresh(heap) && yielded == []
      ensures heap.sources == sources && heap.rank == ByIndex(|sources|)
      ensures this.seriesID == seriesID && this.startTs == startTs && this.endTs == endTs
    {
      this.heap := new MergeHeap(sources, ByIndex(|sources|));
      this.seriesID, this.startTs, this.endTs := seriesID, startTs, endTs;
      this.lastKey, this.valid, this.currentKey, this.currentVal := None, false, Key(0, 0), [];
      this.last, this.yielded := None, [];
      new;
      StartInv(sources, ByIndex(|sources|), heap.pos, Range(), Keep());
    }

    /** Moves to the next live entry in range: true with it as the current one, or false at the end. */
    method Next() returns (found: bool)
      requires Valid()
      modifies this, heap
      ensures Valid() && found == valid
      ensures found ==> yielded == old(yielded) + [Entry(currentKey, Cell(false, currentVal))]
      ensures found ==> Remaining(heap.sources, heap.pos) < old(Remaining(heap.sources, heap.pos))
      ensures !found ==> yielded == old(yielded) && heap.items == {}
    {
      hide MergeInv;
      hide IsNext;
      hide Heads;
      while heap.items != {}
        invariant Valid() && yielded == old(yielded)
        invariant Remaining(heap.sources, heap.pos) <= old(Remaining(heap.sources, heap.pos))
        decreases Remaining(heap.sources, heap.pos)
      {
        ghost var pos, last0, lastKey0 := heap.pos, last, lastKey;
        var item := heap.Pop();
        var key := item.entry.key;
        RemainingShrinks(heap.sources, pos, item.source);
        last := Some(key);
        if key.series != seriesID {
          StepSkip(heap.sources, heap.rank, pos, Range(), Keep(), last0, lastKey0, yielded, item.source);
          continue;
        }
        if key.timestamp < startTs || key.timestamp > endTs {
          StepSkip(heap.sources, heap.rank, pos, Range(), Keep(), last0, lastKey0, yielded, item.source);
          continue;
        }
        if lastKey == Some(key) {
          StepSkip(heap.sources, heap.rank, pos, Range(), Keep(), last0, lastKey0, yielded, item.source);
          continue;
        }
        StepTake(heap.sources, heap.rank, pos, Range(), Keep(), last0, lastKey0, yielded, item.source);
        if item.entry.cell.deleted {
          lastKey := Some(key);
          continue;
        }
        currentKey, currentVal := key, item.entry.cell.value;
        lastKey, valid := Some(key), true;
        yielded := yielded + [item.entry];
        return true;
      }
      valid := false;
      return false;
    }

    /** Repeated Next: exactly the newest live entries in range, in strictly ascending order. */
    method Drain() returns (out: seq<Entry>)
      requires Valid() && yielded == []
      modifies this, heap
      ensures Sorted(out)
      ensures forall e: Entry :: e in out <==>
                Newest(heap.sources, heap.rank, e) && !e.cell.deleted
                && e.key.series == seriesID && startTs <= e.key.timestamp <= endTs
    {
      out := [];
      var more := Next();
      while more
        invariant Valid() && more == valid && (!more ==> heap.items == {})
        invariant yielded == out + if more then [Entry(currentKey, Cell(false, currentVal))] else []
        decreases more, Remaining(heap.sources, heap.pos)
      {
        out := out + [Entry(currentKey, Cell(false, currentVal))];
        more := Next();
      }
      assert yielded == out;
      heap.EmptyIsDone();
      MergeDone(heap.sources, heap.rank, heap.pos, Range(), Keep(), last, lastKey, yielded);
    }
  }

  // ----- the snapshot a scan runs over

  /** The memtable's entries first, then the tables in list order. */
  function Snapshot(imm: seq<Entry>, tables: seq<C.Table>): (sources: seq<seq<Entry>>)
    ensures |sources| == |tables| + 1
  {
    [imm] + C.Sources(tables)
  }

  /** The list keeps its tables in descending order of generation. */
  ghost predicate Descending(tables: seq<C.Table>) {
    forall s, t :: 0 <= s < t < |tables| ==> tables[s].gen > tables[t].gen
  }

  /** A memtable entry wins its key; without one the tables decide. */
  lemma MemtableWins(imm: seq<Entry>, tables: seq<C.Table>, e: Entry)
    requires Sorted(imm)
    ensures var sources := Snapshot(imm, tables);
            Newest(sources, ByIndex(|sources|), e) <==>
              if e.key in Fold(imm) then e in imm else Newest(Snapshot([], tables), ByIndex(|sources|), e)
  {
    var sources, rank := Snapshot(imm, tables), ByIndex(|tables| + 1);
    var below := Snapshot([], tables);
    if e.key in Fold(imm) {
      C.CellEntry(imm, e.key);
      var i :| 0 <= i < |imm| && imm[i].key == e.key;
      assert Has(sources, 0, i, imm[i]);
      if e in imm {
        var j :| 0 <= j < |imm| && imm[j] == e;
        assert Has(sources, 0, j, e) && Wins(sources, rank, 0, j);
      }
    } else {
      forall s, j, f: Entry | f.key == e.key ensures Has(sources, s, j, f) <==> Has(below, s, j, f) {
        FoldHas(imm, e.key);
      }
      if s, j :| Has(sources, s, j, e) && Wins(sources, rank, s, j) {
        assert Has(below, s, j, e) && Wins(below, rank, s, j);
      }
      if s, j :| Has(below, s, j, e) && Wins(below, rank, s, j) {
        assert Has(sources, s, j, e) && Wins(sources, rank, s, j);
      }
    }
  }

  lemma SnapshotHas(tables: seq<C.Table>, s: int, j: int, f: Entry)
    ensures Has(Snapshot([], tables), s, j, f) <==> Has(C.Sources(tables), s - 1, j, f)
  {}

  /** Table `s` of the list is source `s + 1` of the snapshot, and wins there if it wins in the list. */
  lemma ShiftWins(tables: seq<C.Table>, s: int, j: int, e: Entry)
    requires Descending(tables) && Has(C.Sources(tables), s, j, e)
    ensures Has(Snapshot([], tables), s + 1, j, e)
    ensures Wins(Snapshot([], tables), ByIndex(|tables| + 1), s + 1, j)
       <==> Wins(C.Sources(tables), C.Ranks(tables), s, j)
  {
    var below, sources := Snapshot([], tables), C.Sources(tables);
    var rank, gens := ByIndex(|tables| + 1), C.Ranks(tables);
    SnapshotHas(tables, s + 1, j, e);
    hide Snapshot;
    hide C.Sources;
    if Wins(below, rank, s + 1, j) {
      forall s', j', f | Has(sources, s', j', f) && f.key == e.key ensures gens[s] <= gens[s'] {
        SnapshotHas(tables, s' + 1, j', f);
      }
    }
    if Wins(sources, gens, s, j) {
      forall s', j', f | Has(below, s', j', f) && f.key == e.key ensures rank[s + 1] <= rank[s'] {
        SnapshotHas(tables, s', j', f);
      }
    }
  }

  /** In list order the earlier table is the one of higher generation. */
  lemma ListOrderIsGenerationOrder(tables: seq<C.Table>, e: Entry)
    requires Descending(tables)
    ensures Newest(Snapshot([], tables), ByIndex(|tables| + 1), e) <==> C.NewestEntry(tables, e)
  {
    var below, sources := Snapshot([], tables), C.Sources(tables);
    var rank, gens := ByIndex(|tables| + 1), C.Ranks(tables);
    C.NewestIsNewestEntry(tables, e);
    hide C.NewestEntry;
    hide Wins;
    hide Has;
    if s, j :| Has(below, s, j, e) && Wins(below, rank, s, j) {
      SnapshotHas(tables, s, j, e);
      ShiftWins(tables, s - 1, j, e);
    }
    if s, j :| Has(sources, s, j, e) && Wins(sources, gens, s, j) {
      ShiftWins(tables, s, j, e);
    }
  }

  /** The merge of the snapshot sees what a lookup through memtable and tables sees. */
  lemma SnapshotShows(imm: seq<Entry>, tables: seq<C.Table>, ts: G.Tables, e: Entry)
    requires Sorted(imm) && C.GoodTables(tables) && Descending(tables) && C.Represents(ts, tables)
    ensures Newest(Snapshot(imm, tables), ByIndex(|tables| + 1), e)
       <==> E.Through(map[], Fold(imm), ts, e.key) == Some(e.cell)
  {
    MemtableWins(imm, tables, e);
    ListOrderIsGenerationOrder(tables, e);
    if e.key in Fold(imm) {
      C.CellEntry(imm, e.key);
      if e in imm {
        C.FoldCell(imm, e);
      }
    } else {
      if C.NewestEntry(tables, e) {
        C.NewestEntryIsTop(ts, tables, e);
      }
      if G.Newest(ts, e.key) == Some(e.cell) {
        C.TopIsNewestEntry(ts, tables, e);
      }
    }
  }

  /**
   * Scan exactness: a scan over the snapshot taken in a state whose mutable memtable is empty yields
   * exactly the values that the writes so far leave in the series and the time range.
   */
  lemma ScanShowsHistory(st: E.State, imm: seq<Entry>, tables: seq<C.Table>, out: seq<Entry>,
                         seriesID: uint64, startTs: int64, endTs: int64, k: Key, v: Bytes)
    requires E.Inv(st) && E.Mut(st).contents == map[]
    requires Sorted(imm) && E.ImmContents(st) == Fold(imm)
    requires C.GoodTables(tables) && Descending(tables) && C.Represents(st.list, tables)
    requires forall e: Entry :: e in out <==>
               Newest(Snapshot(imm, tables), ByIndex(|tables| + 1), e) && !e.cell.deleted
               && e.key.series == seriesID && startTs <= e.key.timestamp <= endTs
    ensures Entry(k, Cell(false, v)) in out <==>
              k.series == seriesID && startTs <= k.timestamp <= endTs && Live(Find(Fold(st.history), k)) == Some(v)
  {
    var e := Entry(k, Cell(false, v));
    SnapshotShows(imm, tables, st.list, e);
    T.ViewShowsHistory(st, k);
    assert E.View(st, k) == E.Through(map[], Fold(imm), st.list, k);
  }
}
