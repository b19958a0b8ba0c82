/** CompactSSTables: the merge loop of a compaction, and the table it writes. */
module Compactor {
  import opened Base
  import opened History
  import opened SortedEntries
  import G = Generations
  import opened Merge
  import opened MergeHeaps

  /** A table in the list: its generation and the entries of its file. */
  datatype Table = Table(gen: nat, entries: seq<Entry>)

  /** minHeap.Less: by series, then by timestamp, and of equal keys the higher generation first. */
  predicate HeapLess(a: Entry, genA: nat, b: Entry, genB: nat) {
    if a.key.series != b.key.series then a.key.series < b.key.series
    else if a.key.timestamp != b.key.timestamp then a.key.timestamp < b.key.timestamp
    else genA > genB
  }

  function Sources(tables: seq<Table>): (sources: seq<seq<Entry>>)
    ensures |sources| == |tables| && forall s :: 0 <= s < |tables| ==> sources[s] == tables[s].entries
  {
    seq(|tables|, s requires 0 <= s < |tables| => tables[s].entries)
  }

  /** Higher generations hold newer data. */
  function Ranks(tables: seq<Table>): (rank: seq<int>)
    ensures |rank| == |tables| && forall s :: 0 <= s < |tables| ==> rank[s] == 0 - tables[s].gen
  {
    seq(|tables|, s requires 0 <= s < |tables| => 0 - tables[s].gen)
  }

  lemma HeapLessIsItemLess(tables: seq<Table>, a: Item, b: Item)
    requires a.source < |tables| && b.source < |tables|
    ensures ItemLess(Ranks(tables), a, b)
       <==> HeapLess(a.entry, tables[a.source].gen, b.entry, tables[b.source].gen)
  {}

  /** Sorted tables of different generations. */
  ghost predicate GoodTables(tables: seq<Table>) {
    && (forall s :: 0 <= s < |tables| ==> Sorted(tables[s].entries))
    && forall s, t :: 0 <= s < t < |tables| ==> tables[s].gen != tables[t].gen
  }

  /** Some table holds `e`, and every other table that holds the key is of a lower generation. */
  ghost predicate NewestEntry(tables: seq<Table>, e: Entry) {
    exists s :: 0 <= s < |tables| && e in tables[s].entries &&
      forall t, f :: 0 <= t < |tables| && f in tables[t].entries && f.key == e.key ==> tables[t].gen <= tables[s].gen
  }

  lemma NewestIsNewestEntry(tables: seq<Table>, e: Entry)
    ensures Newest(Sources(tables), Ranks(tables), e) <==> NewestEntry(tables, e)
  {
    var sources, rank := Sources(tables), Ranks(tables);
    if Newest(sources, rank, e) {
      var s, j :| Has(sources, s, j, e) && Wins(sources, rank, s, j);
      assert e in tables[s].entries;
      forall t, f | 0 <= t < |tables| && f in tables[t].entries && f.key == e.key
        ensures tables[t].gen <= tables[s].gen
      {
        var i :| 0 <= i < |sources[t]| && sources[t][i] == f;
        assert Has(sources, t, i, f);
      }
    }
    if NewestEntry(tables, e) {
      var s :| 0 <= s < |tables| && e in tables[s].entries &&
        forall t, f :: 0 <= t < |tables| && f in tables[t].entries && f.key == e.key ==> tables[t].gen <= tables[s].gen;
      var j :| 0 <= j < |sources[s]| && sources[s][j] == e;
      assert Has(sources, s, j, e);
      forall s', j', f | Has(sources, s', j', f) && f.key == e.key ensures rank[s] <= rank[s'] {
        assert f in tables[s'].entries;
      }
    }
  }

  /**
   * Exact merge: the output is strictly sorted and holds exactly the newest entry of every key,
   * less the tombstones when the compaction is major. Without output there is no file.
   */
  method CompactSSTables(tables: seq<Table>, isMajor: bool) returns (written: seq<Entry>)
    requires GoodTables(tables)
    ensures Sorted(written)
    ensures forall e :: e in written <==> NewestEntry(tables, e) && !(e.cell.deleted && isMajor)
  {
    hide MergeInv;
    hide IsNext;
    hide Heads;
    ghost var sources, rank := Sources(tables), Ranks(tables);
    ghost var range, keep: Entry -> bool := (k: Key) => true, (e: Entry) => !(e.cell.deleted && isMajor);
    var h := new MergeHeap(Sources(tables), Ranks(tables));
    var lastKey: Option<Key> := None;
    ghost var last: Option<Key> := None;
    written := [];
    StartInv(sources, rank, h.pos, range, keep);
    while h.items != {}
      invariant fresh(h) && h.Valid() && h.sources == sources && h.rank == rank
      invariant MergeInv(sources, rank, h.pos, range, keep, last, lastKey, written)
      decreases Remaining(sources, h.pos)
    {
      ghost var pos := h.pos;
      var item := h.Pop();
      RemainingShrinks(sources, pos, item.source);
      var entry := item.entry;
      if lastKey == Some(entry.key) {
        StepSkip(sources, rank, pos, range, keep, last, lastKey, written, item.source);
        last := Some(entry.key);
        continue;
      }
      StepTake(sources, rank, pos, range, keep, last, lastKey, written, item.source);
      last, lastKey := Some(entry.key), Some(entry.key);
      if entry.cell.deleted && isMajor {
        continue;
      }
      written := written + [entry];
    }
    h.EmptyIsDone();
    MergeDone(sources, rank, h.pos, range, keep, last, lastKey, written);
    forall e: Entry ensures Newest(sources, rank, e) <==> NewestEntry(tables, e) {
      NewestIsNewestEntry(tables, e);
    }
  }

  // ----- the written table as a map

  /** `ts` maps each table's generation to the map its entries fold to. */
  ghost predicate Represents(ts: G.Tables, tables: seq<Table>) {
    && (forall g :: g in ts ==> exists s :: 0 <= s < |tables| && tables[s].gen == g)
    && forall s :: 0 <= s < |tables| ==> tables[s].gen in ts && ts[tables[s].gen] == Fold(tables[s].entries)
  }

  lemma FoldCell(es: seq<Entry>, e: Entry)
    requires Sorted(es) && e in es
    ensures e.key in Fold(es) && Fold(es)[e.key] == e.cell
  {
    var i :| 0 <= i < |es| && es[i] == e;
    FoldAt(es, i);
  }

  lemma CellEntry(es: seq<Entry>, k: Key)
    requires Sorted(es) && k in Fold(es)
    ensures Entry(k, Fold(es)[k]) in es
  {
    FoldHas(es, k);
    var i :| 0 <= i < |es| && es[i].key == k;
    FoldAt(es, i);
  }

  lemma NewestEntryIsTop(ts: G.Tables, tables: seq<Table>, e: Entry)
    requires GoodTables(tables) && Represents(ts, tables) && NewestEntry(tables, e)
    ensures G.Newest(ts, e.key) == Some(e.cell)
  {
    var s :| 0 <= s < |tables| && e in tables[s].entries &&
      forall t, f :: 0 <= t < |tables| && f in tables[t].entries && f.key == e.key ==> tables[t].gen <= tables[s].gen;
    hide Fold;
    hide Sorted;
    FoldCell(tables[s].entries, e);
    forall g | g in ts && e.key in ts[g] ensures g <= tables[s].gen {
      var t :| 0 <= t < |tables| && tables[t].gen == g;
      CellEntry(tables[t].entries, e.key);
    }
    assert G.IsTop(ts, e.key, tables[s].gen);
    G.TopCell(ts, e.key, tables[s].gen);
  }

  lemma TopIsNewestEntry(ts: G.Tables, tables: seq<Table>, e: Entry)
    requires GoodTables(tables) && Represents(ts, tables) && G.Newest(ts, e.key) == Some(e.cell)
    ensures NewestEntry(tables, e)
  {
    hide Fold;
    hide Sorted;
    var g :| G.IsTop(ts, e.key, g);
    G.TopCell(ts, e.key, g);
    var s :| 0 <= s < |tables| && tables[s].gen == g;
    CellEntry(tables[s].entries, e.key);
    forall t, f | 0 <= t < |tables| && f in tables[t].entries && f.key == e.key
      ensures tables[t].gen <= tables[s].gen
    {
      FoldCell(tables[t].entries, f);
    }
  }

  /** The merge loop writes the table that the engine's compaction step publishes. */
  lemma WrittenIsMerge(ts: G.Tables, tables: seq<Table>, isMajor: bool, written: seq<Entry>)
    requires GoodTables(tables) && Represents(ts, tables) && Sorted(written)
    requires forall e :: e in written <==> NewestEntry(tables, e) && !(e.cell.deleted && isMajor)
    ensures Fold(written) == G.Merge(ts, isMajor)
  {
    hide Fold;
    hide Sorted;
    hide NewestEntry;
    hide Represents;
    hide GoodTables;
    forall k ensures Find(Fold(written), k) == Find(G.Merge(ts, isMajor), k) {
      var c := G.Newest(ts, k);
      G.NewestNone(ts, k);
      if c.Some? {
        var g :| G.IsTop(ts, k, g);
        TopIsNewestEntry(ts, tables, Entry(k, c.value));
        if Entry(k, c.value) in written {
          FoldCell(written, Entry(k, c.value));
        }
      }
      if k in Fold(written) {
        CellEntry(written, k);
        NewestEntryIsTop(ts, tables, Entry(k, Fold(written)[k]));
      }
    }
    SameFinds(Fold(written), G.Merge(ts, isMajor));
  }
}
