/** The k-way merge that compaction and scans share: sorted sources, a heap of their heads. */
module Merge {
  import opened Base

  /** The head of one source; a source of lower rank holds newer data. */
  datatype Item = Item(entry: Entry, source: nat)

  predicate ItemLess(rank: seq<int>, a: Item, b: Item)
    requires a.source < |rank| && b.source < |rank|
  {
    if a.entry.key != b.entry.key then Less(a.entry.key, b.entry.key) else rank[a.source] < rank[b.source]
  }

  /** The heap order is strict, and total on the heads of different sources. */
  lemma ItemLessIsStrictOrder(rank: seq<int>, a: Item, b: Item, c: Item)
    requires a.source < |rank| && b.source < |rank| && c.source < |rank|
    requires forall i, j :: 0 <= i < j < |rank| ==> rank[i] != rank[j]
    ensures !ItemLess(rank, a, a)
    ensures ItemLess(rank, a, b) && ItemLess(rank, b, c) ==> ItemLess(rank, a, c)
    ensures a.source != b.source ==> ItemLess(rank, a, b) != ItemLess(rank, b, a)
  {}

  ghost predicate GoodSources(sources: seq<seq<Entry>>, rank: seq<int>) {
    && |rank| == |sources|
    && (forall s :: 0 <= s < |sources| ==> Sorted(sources[s]))
    && forall i, j :: 0 <= i < j < |rank| ==> rank[i] != rank[j]
  }

  ghost predicate Positions(sources: seq<seq<Entry>>, pos: seq<nat>) {
    |pos| == |sources| && forall s :: 0 <= s < |sources| ==> pos[s] <= |sources[s]|
  }

  /** The j-th entry of source s. */
  ghost predicate Has(sources: seq<seq<Entry>>, s: int, j: int, e: Entry) {
    0 <= s < |sources| && 0 <= j < |sources[s]| && sources[s][j] == e
  }

  /** Source s holds the newest entry for its key at j. */
  ghost predicate Wins(sources: seq<seq<Entry>>, rank: seq<int>, s: int, j: int)
    requires |rank| == |sources|
  {
    && 0 <= s < |sources| && 0 <= j < |sources[s]|
    && forall s', j', e :: Has(sources, s', j', e) && e.key == sources[s][j].key ==> rank[s] <= rank[s']
  }

  /** `e` is the newest entry that any source holds for its key. */
  ghost predicate Newest(sources: seq<seq<Entry>>, rank: seq<int>, e: Entry)
    requires |rank| == |sources|
  {
    exists s, j :: Has(sources, s, j, e) && Wins(sources, rank, s, j)
  }

  /** The next item in merge order: nothing left is smaller, and on its key nothing left is newer. */
  ghost predicate IsNext(sources: seq<seq<Entry>>, rank: seq<int>, pos: seq<nat>, s: nat)
    requires |rank| == |sources| && Positions(sources, pos)
  {
    && s < |sources| && pos[s] < |sources[s]|
    && forall s', j', e :: Has(sources, s', j', e) && pos[s'] <= j' ==>
         && !Less(e.key, sources[s][pos[s]].key)
         && (e.key == sources[s][pos[s]].key ==> rank[s] <= rank[s'])
  }

  // ----- what a merge has done so far

  /** Everything up to `last` has been popped. */
  ghost predicate Popped(sources: seq<seq<Entry>>, pos: seq<nat>, last: Option<Key>)
    requires Positions(sources, pos)
  {
    forall s, j, e :: Has(sources, s, j, e) ==>
      if j < pos[s] then last.Some? && !Less(last.value, e.key)
      else last.Some? ==> !Less(e.key, last.value)
  }

  /** `lastKey` is the last key in range: its winner has been popped, and nothing behind it. */
  ghost predicate Deduped(sources: seq<seq<Entry>>, rank: seq<int>, pos: seq<nat>, range: Key -> bool,
                          last: Option<Key>, lastKey: Option<Key>)
    requires |rank| == |sources| && Positions(sources, pos)
  {
    && (lastKey.Some? ==> last.Some? && !Less(last.value, lastKey.value))
    && (forall s, j, e :: Has(sources, s, j, e) && j < pos[s] && range(e.key) ==>
          lastKey.Some? && !Less(lastKey.value, e.key))
    && (forall s, j, e :: Has(sources, s, j, e) && pos[s] <= j && lastKey == Some(e.key) ==>
          !Wins(sources, rank, s, j))
  }

  /** The output holds the newest entry of every key popped so far, filtered. */
  ghost predicate Output(sources: seq<seq<Entry>>, rank: seq<int>, pos: seq<nat>, range: Key -> bool,
                         keep: Entry -> bool, lastKey: Option<Key>, out: seq<Entry>)
    requires |rank| == |sources| && Positions(sources, pos)
  {
    && Sorted(out)
    && (forall e :: e in out ==> lastKey.Some? && !Less(lastKey.value, e.key))
    && forall e :: e in out <==>
         range(e.key) && keep(e) &&
         exists s, j :: Has(sources, s, j, e) && j < pos[s] && Wins(sources, rank, s, j)
  }

  /** Everything a merge loop keeps true between two pops. */
  ghost predicate MergeInv(sources: seq<seq<Entry>>, rank: seq<int>, pos: seq<nat>, range: Key -> bool,
                           keep: Entry -> bool, last: Option<Key>, lastKey: Option<Key>, out: seq<Entry>) {
    && GoodSources(sources, rank) && Positions(sources, pos)
    && Popped(sources, pos, last)
    && Deduped(sources, rank, pos, range, last, lastKey)
    && Output(sources, rank, pos, range, keep, lastKey, out)
  }

  lemma StepPopped(sources: seq<seq<Entry>>, rank: seq<int>, pos: seq<nat>, last: Option<Key>, s: nat)
    requires GoodSources(sources, rank) && Positions(sources, pos)
    requires Popped(sources, pos, last) && IsNext(sources, rank, pos, s)
    ensures Positions(sources, pos[s := pos[s] + 1])
    ensures Popped(sources, pos[s := pos[s] + 1], Some(sources[s][pos[s]].key))
  {
    var k := sources[s][pos[s]].key;
    assert Has(sources, s, pos[s], sources[s][pos[s]]);
    forall s', j, e | Has(sources, s', j, e)
      ensures if j < pos[s := pos[s] + 1][s'] then !Less(k, e.key) else !Less(e.key, k)
    {
      if j < pos[s'] {
        assert last.Some? && !Less(last.value, e.key) && !Less(k, last.value);
      }
    }
  }

  /** The first item of a new key in range wins that key, and what is left for the key loses. */
  lemma NextWins(sources: seq<seq<Entry>>, rank: seq<int>, pos: seq<nat>, range: Key -> bool,
                 last: Option<Key>, lastKey: Option<Key>, s: nat)
    requires GoodSources(sources, rank) && Positions(sources, pos)
    requires Popped(sources, pos, last) && Deduped(sources, rank, pos, range, last, lastKey)
    requires IsNext(sources, rank, pos, s)
    requires range(sources[s][pos[s]].key) && lastKey != Some(sources[s][pos[s]].key)
    ensures Wins(sources, rank, s, pos[s])
    ensures lastKey.Some? ==> Less(lastKey.value, sources[s][pos[s]].key)
    ensures forall s', j, e ::
              Has(sources, s', j, e) && pos[s := pos[s] + 1][s'] <= j && e.key == sources[s][pos[s]].key ==>
              !Wins(sources, rank, s', j)
  {
    var e0 := sources[s][pos[s]];
    assert Has(sources, s, pos[s], e0);
    if lastKey.Some? {
      assert !Less(last.value, lastKey.value) && !Less(e0.key, last.value);
    }
    forall s', j, e | Has(sources, s', j, e) && e.key == e0.key ensures rank[s] <= rank[s'] {
      assert j >= pos[s'];
    }
    assert forall j :: pos[s] < j < |sources[s]| ==> Less(e0.key, sources[s][j].key);
    forall s', j, e | Has(sources, s', j, e) && pos[s := pos[s] + 1][s'] <= j && e.key == e0.key
      ensures !Wins(sources, rank, s', j)
    {
      assert rank[s] <= rank[s'];
    }
  }

  /** An item out of range, or of the key just dealt with, changes nothing but the position. */
  lemma StepSkip(sources: seq<seq<Entry>>, rank: seq<int>, pos: seq<nat>, range: Key -> bool,
                 keep: Entry -> bool, last: Option<Key>, lastKey: Option<Key>, out: seq<Entry>, s: nat)
    requires MergeInv(sources, rank, pos, range, keep, last, lastKey, out) && IsNext(sources, rank, pos, s)
    requires !range(sources[s][pos[s]].key) || lastKey == Some(sources[s][pos[s]].key)
    ensures MergeInv(sources, rank, pos[s := pos[s] + 1], range, keep, Some(sources[s][pos[s]].key), lastKey, out)
  {
    var e0, pos' := sources[s][pos[s]], pos[s := pos[s] + 1];
    StepPopped(sources, rank, pos, last, s);
    assert Has(sources, s, pos[s], e0);
    assert Deduped(sources, rank, pos', range, Some(e0.key), lastKey);
    forall e: Entry | range(e.key) && keep(e)
      ensures (exists s', j :: Has(sources, s', j, e) && j < pos'[s'] && Wins(sources, rank, s', j))
         <==> (exists s', j :: Has(sources, s', j, e) && j < pos[s'] && Wins(sources, rank, s', j))
    {
      if s', j :| Has(sources, s', j, e) && j < pos'[s'] && Wins(sources, rank, s', j) {
        assert j < pos[s'];
      }
    }
  }

  /** An item of a new key is output if the filter keeps it. */
  lemma StepTake(sources: seq<seq<Entry>>, rank: seq<int>, pos: seq<nat>, range: Key -> bool,
                 keep: Entry -> bool, last: Option<Key>, lastKey: Option<Key>, out: seq<Entry>, s: nat)
    requires MergeInv(sources, rank, pos, range, keep, last, lastKey, out) && IsNext(sources, rank, pos, s)
    requires range(sources[s][pos[s]].key) && lastKey != Some(sources[s][pos[s]].key)
    ensures var e0 := sources[s][pos[s]];
            MergeInv(sources, rank, pos[s := pos[s] + 1], range, keep, Some(e0.key), Some(e0.key),
                     if keep(e0) then out + [e0] else out)
  {
    var e0, pos' := sources[s][pos[s]], pos[s := pos[s] + 1];
    var out' := if keep(e0) then out + [e0] else out;
    StepPopped(sources, rank, pos, last, s);
    NextWins(sources, rank, pos, range, last, lastKey, s);
    assert Has(sources, s, pos[s], e0);
    assert Deduped(sources, rank, pos', range, Some(e0.key), Some(e0.key));
    forall e: Entry ensures e in out' <==>
      range(e.key) && keep(e) && exists s', j :: Has(sources, s', j, e) && j < pos'[s'] && Wins(sources, rank, s', j)
    {
      if range(e.key) && keep(e) {
        if s', j :| Has(sources, s', j, e) && j < pos'[s'] && Wins(sources, rank, s', j) {
          assert j < pos[s'] || e == e0;
        }
        if e in out && e != e0 {
          var s', j :| Has(sources, s', j, e) && j < pos[s'] && Wins(sources, rank, s', j);
          assert j < pos'[s'];
        }
        if e == e0 {
          assert Has(sources, s, pos[s], e) && pos[s] < pos'[s] && Wins(sources, rank, s, pos[s]);
        }
      }
    }
  }

  lemma StartInv(sources: seq<seq<Entry>>, rank: seq<int>, pos: seq<nat>, range: Key -> bool, keep: Entry -> bool)
    requires GoodSources(sources, rank) && |pos| == |sources| && forall s :: 0 <= s < |pos| ==> pos[s] == 0
    ensures MergeInv(sources, rank, pos, range, keep, None, None, [])
  {}

  /** A finished merge has output exactly the newest entries in range that the filter keeps, sorted. */
  lemma MergeDone(sources: seq<seq<Entry>>, rank: seq<int>, pos: seq<nat>, range: Key -> bool,
                  keep: Entry -> bool, last: Option<Key>, lastKey: Option<Key>, out: seq<Entry>)
    requires MergeInv(sources, rank, pos, range, keep, last, lastKey, out)
    requires forall s :: 0 <= s < |sources| ==> pos[s] == |sources[s]|
    ensures Sorted(out)
    ensures forall e: Entry :: e in out <==> Newest(sources, rank, e) && range(e.key) && keep(e)
  {
    forall e: Entry ensures e in out <==> Newest(sources, rank, e) && range(e.key) && keep(e) {
      if Newest(sources, rank, e) {
        var s, j :| Has(sources, s, j, e) && Wins(sources, rank, s, j);
        assert j < pos[s];
      }
    }
  }
}
