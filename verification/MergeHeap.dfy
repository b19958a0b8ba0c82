/** The heap of source heads that both merge loops pop from and push to. */
module MergeHeaps {
  import opened Base
  import opened Merge

  /**
   * The contract of heap.Pop: an item that no other item is less than. Two items of one source are
   * never in the heap together, so the heap is a set of items.
   */
  method Least(items: set<Item>, rank: seq<int>) returns (least: Item)
    requires items != {} && forall x :: x in items ==> x.source < |rank|
    requires forall i, j :: 0 <= i < j < |rank| ==> rank[i] != rank[j]
    ensures least in items
    ensures forall x :: x in items ==> !ItemLess(rank, x, least)
  {
    least :| least in items;
    var left := items - {least};
    while left != {}
      invariant left <= items && least in items
      invariant forall x :: x in items && x !in left ==> !ItemLess(rank, x, least)
      decreases left
    {
      var x :| x in left;
      if ItemLess(rank, x, least) {
        forall y | y in items && y !in left ensures !ItemLess(rank, y, x) {
          if ItemLess(rank, y, x) {
            ItemLessIsStrictOrder(rank, y, x, least);
          }
        }
        least := x;
      }
      left := left - {x};
    }
  }

  /** One item for the head of every source that is not exhausted. */
  ghost predicate Heads(sources: seq<seq<Entry>>, pos: seq<nat>, items: set<Item>)
    requires |pos| == |sources|
  {
    forall x :: x in items <==>
      x.source < |sources| && pos[x.source] < |sources[x.source]| && x.entry == sources[x.source][pos[x.source]]
  }

  /** A least head is next in merge order. */
  lemma LeastIsNext(sources: seq<seq<Entry>>, rank: seq<int>, pos: seq<nat>, items: set<Item>, least: Item)
    requires GoodSources(sources, rank) && Positions(sources, pos) && Heads(sources, pos, items)
    requires least in items && forall x :: x in items ==> !ItemLess(rank, x, least)
    ensures IsNext(sources, rank, pos, least.source)
  {
    var s := least.source;
    forall s', j', e | Has(sources, s', j', e) && pos[s'] <= j'
      ensures !Less(e.key, least.entry.key) && (e.key == least.entry.key ==> rank[s] <= rank[s'])
    {
      var x := Item(sources[s'][pos[s']], s');
      assert x in items;
      assert pos[s'] == j' || Less(x.entry.key, sources[s'][j'].key);
    }
  }

  /** A source's iterator moves on: its old head leaves the heap and its new one, if any, enters. */
  function Advanced(sources: seq<seq<Entry>>, pos: seq<nat>, items: set<Item>, item: Item): set<Item>
    requires |pos| == |sources| && item.source < |sources|
  {
    var next := pos[item.source] + 1;
    if next < |sources[item.source]| then items - {item} + {Item(sources[item.source][next], item.source)}
    else items - {item}
  }

  lemma AdvancedHeads(sources: seq<seq<Entry>>, pos: seq<nat>, items: set<Item>, item: Item)
    requires |pos| == |sources| && Heads(sources, pos, items) && item in items
    ensures Heads(sources, pos[item.source := pos[item.source] + 1], Advanced(sources, pos, items, item))
  {}

  class MergeHeap {
    const sources: seq<seq<Entry>>
    const rank: seq<int>
    var pos: seq<nat>
    var items: set<Item>

    ghost predicate Valid()
      reads this
    {
      GoodSources(sources, rank) && Positions(sources, pos) && Heads(sources, pos, items)
    }

    /** Pushes the first entry of every non-empty source. */
    constructor (sources: seq<seq<Entry>>, rank: seq<int>)
      requires GoodSources(sources, rank)
      ensures Valid() && this.sources == sources && this.rank == rank
      ensures forall s :: 0 <= s < |sources| ==> pos[s] == 0
    {
      var heap: set<Item> := {};
      for s := 0 to |sources|
        invariant forall x :: x in heap <==>
                    x.source < s && sources[x.source] != [] && x.entry == sources[x.source][0]
      {
        if sources[s] != [] {
          heap := heap + {Item(sources[s][0], s)};
        }
      }
      this.sources, this.rank, this.pos, this.items := sources, rank, seq(|sources|, _ => 0), heap;
    }

    /** Pops the next item, moves its iterator on and pushes the iterator's new head, if any. */
    method Pop() returns (item: Item)
      requires Valid() && items != {}
      modifies this
      ensures Valid()
      ensures item.source < |sources| && old(pos)[item.source] < |sources[item.source]|
      ensures item.entry == sources[item.source][old(pos)[item.source]]
      ensures IsNext(sources, rank, old(pos), item.source)
      ensures pos == old(pos)[item.source := old(pos)[item.source] + 1]
    {
      item := Least(items, rank);
      LeastIsNext(sources, rank, pos, items, item);
      AdvancedHeads(sources, pos, items, item);
      items := Advanced(sources, pos, items, item);
      pos := pos[item.source := pos[item.source] + 1];
    }

    /** The heap is empty exactly when every source is exhausted. */
    lemma EmptyIsDone()
      requires Valid()
      ensures items == {} <==> forall s :: 0 <= s < |sources| ==> pos[s] == |sources[s]|
    {
      assert forall s :: 0 <= s < |sources| && pos[s] < |sources[s]| ==> Item(sources[s][pos[s]], s) in items;
      assert forall x :: x in items ==> pos[x.source] < |sources[x.source]|;
    }
  }

  /** Entries left to pop. */
  ghost function Remaining(sources: seq<seq<Entry>>, pos: seq<nat>): nat
    requires Positions(sources, pos)
  {
    if sources == [] then 0
    else |sources[0]| - pos[0] + Remaining(sources[1..], pos[1..])
  }

  lemma {:induction false} RemainingShrinks(sources: seq<seq<Entry>>, pos: seq<nat>, s: nat)
    requires Positions(sources, pos) && s < |sources| && pos[s] < |sources[s]|
    ensures Positions(sources, pos[s := pos[s] + 1])
    ensures Remaining(sources, pos[s := pos[s] + 1]) < Remaining(sources, pos)
  {
    var pos' := pos[s := pos[s] + 1];
    if s == 0 {
      assert pos'[1..] == pos[1..];
    } else {
      assert pos'[1..] == pos[1..][s - 1 := pos[s] + 1];
      RemainingShrinks(sources[1..], pos[1..], s - 1);
    }
  }
}
