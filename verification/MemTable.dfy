/** The memtable: a skiplist with a size estimate, a flush threshold and a frozen flag. */
module MemTables {
  import opened Base
  import opened History
  import opened SortedEntries
  import opened Skiplists

  const MAX_LEVEL := 16
  const DEFAULT_THRESHOLD: uint64 := 4 * 1024 * 1024

  /** A tombstone carries no value. */
  predicate Plain(op: Entry) {
    op.cell.deleted ==> op.cell.value == []
  }

  /** What Put and Delete add to the size: the key, and the value or one byte for the tombstone. */
  function Weight(op: Entry): nat {
    if op.cell.deleted then 8 + 8 + 1 else 8 + 8 + |op.cell.value|
  }

  function TotalWeight(ops: seq<Entry>): nat {
    if ops == [] then 0 else TotalWeight(ops[..|ops| - 1]) + Weight(ops[|ops| - 1])
  }

  lemma WeightAppend(ops: seq<Entry>, op: Entry)
    ensures TotalWeight(ops + [op]) == TotalWeight(ops) + Weight(op)
    ensures Fold(ops + [op]) == Fold(ops)[op.key := op.cell]
  {
    assert (ops + [op])[..|ops|] == ops;
  }

  lemma {:induction false} EmptyWeight(ops: seq<Entry>)
    ensures TotalWeight(ops) == 0 <==> ops == []
  {}

  /** uint64 addition. */
  predicate Wraps(a: uint64, n: nat, sum: uint64) {
    sum == (a + n) % TWO_64
  }

  class MemTable {
    const skiplist: Skiplist
    const flushThreshold: uint64
    var size: uint64
    var mutable: bool
    /** Every write put in so far, oldest first. */
    ghost var ops: seq<Entry>
    ghost var Repr: set<object>

    /** The size is the weight of all writes, overwritten ones included, in uint64 arithmetic. */
    ghost predicate Valid()
      reads this, Repr
    {
      && {this, skiplist} <= Repr && Repr == {this, skiplist} + skiplist.Footprint() && this !in skiplist.Footprint()
      && skiplist.Valid() && skiplist.maxLevel == MAX_LEVEL && flushThreshold > 0
      && skiplist.Contents() == Fold(ops)
      && size == TotalWeight(ops) % TWO_64
    }

    constructor (flushThreshold: uint64)
      ensures Valid() && fresh(Repr) && mutable && ops == [] && size == 0
      ensures this.flushThreshold == if flushThreshold == 0 then 4 * 1024 * 1024 else flushThreshold
    {
      this.skiplist := new Skiplist(MAX_LEVEL);
      this.flushThreshold := if flushThreshold == 0 then DEFAULT_THRESHOLD else flushThreshold;
      this.size, this.mutable, this.ops := 0, true, [];
      new;
      Repr := {this, skiplist} + skiplist.Footprint();
    }

    method Put(k: Key, value: Bytes) returns (ok: bool)
      requires Valid()
      modifies Repr
      ensures Valid() && fresh(Repr - old(Repr)) && mutable == old(mutable)
      ensures ok == old(mutable)
      ensures ops == old(ops) + if ok then [Entry(k, Cell(false, value))] else []
      ensures if ok then Wraps(old(size), 16 + |value|, size) else size == old(size)
    {
      hide MemTable.Valid;
      ok := Write(k, Cell(false, value), 8 + 8 + |value|);
    }

    method Delete(k: Key) returns (ok: bool)
      requires Valid()
      modifies Repr
      ensures Valid() && fresh(Repr - old(Repr)) && mutable == old(mutable)
      ensures ok == old(mutable)
      ensures ops == old(ops) + if ok then [Entry(k, Cell(true, []))] else []
      ensures if ok then Wraps(old(size), 17, size) else size == old(size)
    {
      hide MemTable.Valid;
      ok := Write(k, Cell(true, []), 8 + 8 + 1);
    }

    /** A frozen memtable refuses the write; the new node's level is any that can be drawn. */
    method Write(k: Key, cell: Cell, weight: nat) returns (ok: bool)
      requires Valid() && weight == Weight(Entry(k, cell))
      modifies Repr
      ensures Valid() && fresh(Repr - old(Repr)) && mutable == old(mutable)
      ensures ok == old(mutable)
      ensures ops == old(ops) + if ok then [Entry(k, cell)] else []
      ensures if ok then Wraps(old(size), weight, size) else size == old(size)
    {
      if !mutable {
        assert ops + [] == ops;
        return false;
      }
      hide Fold;
      hide Shape;
      hide LinksOk;
      hide TotalWeight;
      hide Wraps;
      var level: nat :| 1 <= level <= MAX_LEVEL;
      skiplist.Insert(k, cell, level);
      Count(Entry(k, cell), weight);
      return true;
    }

    method Count(op: Entry, weight: nat)
      requires this !in skiplist.Footprint() && skiplist.Valid() && skiplist.maxLevel == MAX_LEVEL && flushThreshold > 0
      requires skiplist.Contents() == Fold(ops)[op.key := op.cell]
      requires size == TotalWeight(ops) % TWO_64 && weight == Weight(op)
      modifies this`size, this`ops, this`Repr
      ensures Valid() && ops == old(ops) + [op] && Repr == {this, skiplist} + skiplist.Footprint()
      ensures Wraps(old(size), weight, size)
    {
      hide Shape;
      hide LinksOk;
      hide Items;
      WeightAppend(ops, op);
      hide Fold;
      hide TotalWeight;
      hide Weight;
      size := (size + weight) % TWO_64;
      ops := ops + [op];
      Repr := {this, skiplist} + skiplist.Footprint();
    }

    method Lookup(k: Key) returns (cell: Option<Cell>)
      requires Valid()
      ensures cell == Find(Fold(ops), k)
    {
      cell := skiplist.Lookup(k);
    }

    predicate IsFull()
      reads this
    {
      size >= flushThreshold
    }

    method Freeze()
      requires Valid()
      modifies this`mutable
      ensures Valid() && !mutable
    {
      mutable := false;
    }

    /** The flush loop's walk with the iterator: every key once, ascending, with its newest cell. */
    method Entries() returns (es: seq<Entry>)
      requires Valid()
      ensures Sorted(es) && Fold(es) == Fold(ops)
    {
      skiplist.EntriesSorted();
      es := Collect(skiplist);
    }
  }

  method Collect(list: Skiplist) returns (es: seq<Entry>)
    requires list.Valid()
    ensures es == list.Entries()
  {
    hide Distinct;
    hide Heights;
    ghost var all := list.Entries();
    var it := new Iterator(list);
    es := [];
    while it.current != null
      invariant it.Valid() && fresh(it) && it.list == list
      invariant list.Entries() == all && it.pos <= |all| && es == all[..it.pos]
      decreases |all| - it.pos
    {
      var e := it.Entry();
      es := es + [e.value];
      it.Next();
    }
  }

  /** Unless the sum of all weights has wrapped around, a size of zero means that nothing was written. */
  lemma SizeZeroIsEmpty(m: MemTable)
    requires m.Valid() && TotalWeight(m.ops) < TWO_64
    ensures m.size == 0 <==> Fold(m.ops) == map[]
  {
    EmptyWeight(m.ops);
    if m.ops != [] {
      var last := m.ops[|m.ops| - 1];
      assert last.key in Fold(m.ops);
    }
  }
}
