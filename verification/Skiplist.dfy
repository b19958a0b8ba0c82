/** The skiplist behind the memtable: linked nodes with towers of any height in range. */
module Skiplists {
  import opened Base
  import opened History
  import opened SortedEntries
  import opened Towers

  class Node {
    const key: Key
    var cell: Cell
    const forward: array<Node?>

    constructor (key: Key, cell: Cell, level: nat)
      ensures this.key == key && this.cell == cell
      ensures fresh(forward) && forward.Length == level
      ensures forall l :: 0 <= l < level ==> forward[l] == null
    {
      this.key, this.cell := key, cell;
      forward := new Node?[level](_ => null);
    }
  }

  ghost function Heights(spine: seq<Node>): (h: seq<nat>)
    ensures |h| == |spine|
    ensures forall i :: 0 <= i < |spine| ==> h[i] == spine[i].forward.Length
  {
    seq(|spine|, i requires 0 <= i < |spine| => spine[i].forward.Length)
  }

  ghost function At(spine: seq<Node>, j: nat): Node? {
    if j < |spine| then spine[j] else null
  }

  ghost function Nodes(spine: seq<Node>): set<object> {
    set n | n in spine :: n as object
  }

  ghost function Arrays(spine: seq<Node>): set<object> {
    set n | n in spine :: n.forward
  }

  /** What forward[l] of the i-th node must be. */
  ghost function Link(spine: seq<Node>, i: nat, l: nat): Node?
    requires i < |spine|
  {
    At(spine, NextTall(Heights(spine), i, l))
  }

  ghost predicate LinkOk(spine: seq<Node>, i: nat, l: nat)
    requires i < |spine| && l < spine[i].forward.Length
    reads spine[i].forward
  {
    spine[i].forward[l] == Link(spine, i, l)
  }

  ghost predicate Distinct(spine: seq<Node>) {
    forall i, j :: 0 <= i < j < |spine| ==> spine[i] != spine[j] && spine[i].forward != spine[j].forward
  }

  ghost predicate LinksOk(spine: seq<Node>)
    reads Arrays(spine)
  {
    forall i, l :: 0 <= i < |spine| && 0 <= l < spine[i].forward.Length ==> LinkOk(spine, i, l)
  }

  /** Nodes and their arrays are all different, and the keys behind the head ascend. */
  ghost predicate Shape(spine: seq<Node>, maxLevel: nat, top: nat) {
    && spine != [] && spine[0].forward.Length == maxLevel && 1 <= top <= maxLevel
    && Distinct(spine)
    && (forall i :: 0 < i < |spine| ==> 1 <= spine[i].forward.Length <= top)
    && (forall i, j :: 0 < i < j < |spine| ==> Less(spine[i].key, spine[j].key))
  }

  /** The predecessor that the search for `k` settles on at level l. */
  ghost predicate IsPred(spine: seq<Node>, k: Key, u: nat, l: nat) {
    && u < |spine| && spine[u].forward.Length > l && (u > 0 ==> Less(spine[u].key, k))
    && var j := NextTall(Heights(spine), u, l);
       j < |spine| ==> !Less(spine[j].key, k)
  }

  ghost function Items(spine: seq<Node>): (es: seq<Entry>)
    requires spine != []
    reads Nodes(spine)
    ensures |es| == |spine| - 1
    ensures forall i :: 0 <= i < |es| ==> es[i] == Entry(spine[i + 1].key, spine[i + 1].cell)
  {
    var n := |spine| - 1;
    if n == 0 then [] else
    assert forall x :: x in spine[..n] ==> x in spine;
    assert spine[n] in spine;
    Items(spine[..n]) + [Entry(spine[n].key, spine[n].cell)]
  }

  class Skiplist {
    const head: Node
    const maxLevel: nat
    var currTopLevel: nat
    var length: nat
    ghost var spine: seq<Node>

    ghost function Footprint(): set<object>
      reads this
    {
      {this} + Nodes(spine) + Arrays(spine)
    }

    ghost predicate Valid()
      reads this, Footprint()
    {
      && Shape(spine, maxLevel, currTopLevel) && spine[0] == head
      && length == |spine| - 1
      && LinksOk(spine)
    }

    ghost function Entries(): seq<Entry>
      requires Valid()
      reads this, Footprint()
    {
      Items(spine)
    }

    ghost function Contents(): Contents
      requires Valid()
      reads this, Footprint()
    {
      Fold(Entries())
    }

    constructor (maxLevel: nat)
      requires maxLevel >= 1
      ensures Valid() && fresh(Footprint()) && Entries() == [] && this.maxLevel == maxLevel
    {
      var h := new Node(Key(0, 0), Cell(false, []), maxLevel);
      this.head, this.maxLevel, this.currTopLevel, this.length := h, maxLevel, 1, 0;
      this.spine := [h];
    }

    lemma EntriesSorted()
      requires Valid()
      ensures Sorted(Entries())
    {}

    /**
     * From the head, level `l` runs through exactly the nodes tall enough, in key order: all of them at
     * level 0, a sublist of the level below above that, and none from the level not yet in use.
     */
    lemma Levels(l: nat)
      requires Valid() && l < maxLevel
      ensures Chain(head.forward[l], l, Tall(spine[1..], l))
      ensures Tall(spine[1..], 0) == spine[1..] && Tall(Tall(spine[1..], l), l + 1) == Tall(spine[1..], l + 1)
      ensures l >= currTopLevel ==> head.forward[l] == null
    {
      LevelChain(spine, 0, l);
      LevelIsSublist(spine[1..], l);
      forall n | n in spine[1..] ensures 1 <= n.forward.Length <= currTopLevel {
        var i :| 0 <= i < |spine| - 1 && spine[1..][i] == n;
        assert n == spine[i + 1];
      }
      LevelExtremes(spine[1..], currTopLevel);
      assert l >= currTopLevel ==> Tall(spine[1..], l) == [];
    }

    /** Walks right at one level as far as the keys stay below `k`. */
    method Advance(from: Node, level: nat, k: Key, ghost c0: nat) returns (current: Node, ghost c: nat)
      requires Valid() && c0 < |spine| && from == spine[c0] && level < from.forward.Length
      requires c0 > 0 ==> Less(from.key, k)
      ensures c < |spine| && current == spine[c] && IsPred(spine, k, c, level)
    {
      current, c := from, c0;
      while current.forward[level] != null && Less(current.forward[level].key, k)
        invariant c < |spine| && current == spine[c] && level < current.forward.Length
        invariant c > 0 ==> Less(current.key, k)
        decreases |spine| - c
      {
        assert LinkOk(spine, c, level);
        c := NextTall(Heights(spine), c, level);
        current := current.forward[level];
      }
      assert LinkOk(spine, c, level);
    }

    method Search(k: Key) returns (node: Node?)
      requires Valid()
      ensures node != null ==> node in spine && node != head && node.key == k && Find(Contents(), k) == Some(node.cell)
      ensures node == null ==> Find(Contents(), k) == None
    {
      var current: Node := head;
      ghost var c: nat := 0;
      var level := currTopLevel;
      while level > 0
        invariant 0 <= level <= currTopLevel
        invariant c < |spine| && current == spine[c] && current.forward.Length >= level && current.forward.Length > 0
        invariant c > 0 ==> Less(current.key, k)
        invariant level == 0 ==> IsPred(spine, k, c, 0)
      {
        level := level - 1;
        current, c := Advance(current, level, k, c);
      }
      assert LinkOk(spine, c, 0);
      FoundAt(spine, maxLevel, currTopLevel, k, c);
      node := current.forward[0];
      if node == null || node.key != k {
        node := null;
      }
    }

    method Lookup(k: Key) returns (cell: Option<Cell>)
      requires Valid()
      ensures cell == Find(Contents(), k)
    {
      var node := Search(k);
      cell := if node == null then None else Some(node.cell);
    }
  
    /** The predecessors at every level below `level` that is in use, and the head above. */
    ghost predicate Preds(update: seq<Node?>, ups: seq<nat>, k: Key, from: nat)
      requires Shape(spine, maxLevel, currTopLevel)
      reads this
    {
      && |update| == |ups| == maxLevel
      && forall l :: from <= l < currTopLevel ==> IsPred(spine, k, ups[l], l) && update[l] == spine[ups[l]]
    }

    /** The descent of an insert: at each level, the last node below the key. */
    method FindUpdate(k: Key) returns (update: seq<Node?>, ghost ups: seq<nat>)
      requires Valid()
      ensures Preds(update, ups, k, 0)
    {
      update, ups := seq(maxLevel, _ => null), seq(maxLevel, _ => 0);
      var current: Node := head;
      ghost var c: nat := 0;
      var i := currTopLevel;
      while i > 0
        invariant 0 <= i <= currTopLevel
        invariant c < |spine| && current == spine[c] && current.forward.Length >= i && current.forward.Length > 0
        invariant c > 0 ==> Less(current.key, k)
        invariant Preds(update, ups, k, i)
      {
        i := i - 1;
        current, c := Advance(current, i, k, c);
        update, ups := update[i := current], ups[i := c];
      }
    }
  
    /** Same key: the node takes the new cell in place. */
    method Overwrite(node: Node, cell: Cell, ghost at: nat)
      requires Valid() && 0 < at < |spine| && spine[at] == node
      modifies node
      ensures Valid() && spine == old(spine)
      ensures Entries() == old(Entries())[at - 1 := Entry(node.key, cell)]
    {
      node.cell := cell;
      assert forall i :: 0 <= i < |spine| && i != at ==> spine[i].cell == old(spine[i].cell);
      assert LinksOk(spine);
    }

    /** Above the levels in use the head is every new node's predecessor. */
    method RaiseTop(level: nat, update0: seq<Node?>, ghost ups0: seq<nat>, ghost k: Key)
      returns (update: seq<Node?>, ghost ups: seq<nat>)
      requires Valid() && 1 <= level <= maxLevel && Preds(update0, ups0, k, 0)
      ensures |update| == |ups| == maxLevel && ups[0] == ups0[0]
      ensures forall l :: 0 <= l < level ==> IsPred(spine, k, ups[l], l) && update[l] == spine[ups[l]]
    {
      update, ups := update0, ups0;
      if level > currTopLevel {
        for i := currTopLevel to level
          invariant |update| == |ups| == maxLevel && ups[0] == ups0[0]
          invariant forall l :: 0 <= l < i ==> IsPred(spine, k, ups[l], l) && update[l] == spine[ups[l]]
        {
          update, ups := update[i := head], ups[i := 0];
        }
      }
    }

    /**
     * Insert and Delete: at any node level in range, exactly the given key changes. A present key is
     * overwritten in place; an absent one is linked in behind its predecessors.
     */
    method Insert(k: Key, cell: Cell, level: nat)
      requires Valid() && 1 <= level <= maxLevel
      modifies Footprint()
      ensures Valid() && fresh(Footprint() - old(Footprint()))
      ensures Contents() == old(Contents())[k := cell]
      ensures old(k in Contents()) ==> spine == old(spine)
    {
      hide Shape;
      hide LinksOk;
      hide IsPred;
      hide Preds;
      hide PlacedAt;
      hide Items;
      hide Fold;
      hide Sorted;
      var update, ups := FindUpdate(k);
      var next := Successor(k, update, ups);
      if next != null && next.key == k {
        OverwriteFound(k, cell, next, ups[0]);
      } else {
        SpliceNew(k, cell, level, update, ups);
      }
    }

    /** The node behind the level-0 predecessor is the only one that can hold the key. */
    method Successor(k: Key, update: seq<Node?>, ghost ups: seq<nat>) returns (next: Node?)
      requires Valid() && Preds(update, ups, k, 0)
      ensures next != null ==> next in Footprint() && ups[0] + 1 < |spine| && next == spine[ups[0] + 1]
      ensures PlacedAt(Entries(), k, ups[0]) && Sorted(Entries())
      ensures next != null && next.key == k ==> ups[0] < |Entries()| && Entries()[ups[0]].key == k
      ensures !(next != null && next.key == k) ==> !HasKey(Entries(), k) && k !in Contents()
    {
      FoldHas(Entries(), k);
      ghost var c := ups[0];
      assert IsPred(spine, k, c, 0) && c < |spine| && update[0] == spine[c];
      hide Items;
      hide IsPred;
      PlaceOf(spine, maxLevel, currTopLevel, k, c);
      assert LinkOk(spine, c, 0);
      hide Shape;
      hide LinksOk;
      hide Link;
      hide Fold;
      next := update[0].forward[0];
      if next != null {
        assert next == spine[c + 1];
        assert next in spine;
      }
    }

    /** The key is there: its node is overwritten. */
    method OverwriteFound(k: Key, cell: Cell, next: Node, ghost c: nat)
      requires Valid() && c + 1 < |spine| && next == spine[c + 1] && next.key == k && Sorted(Entries())
      modifies next
      ensures Valid() && spine == old(spine) && Contents() == old(Contents())[k := cell]
    {
      ghost var es := Entries();
      UpdateSorted(es, c, Entry(k, cell));
      hide Shape;
      hide LinksOk;
      hide Items;
      hide Fold;
      hide Sorted;
      Overwrite(next, cell, c + 1);
    }

    /** The key is not there: a new node goes behind the predecessors. */
    method SpliceNew(k: Key, cell: Cell, level: nat, update: seq<Node?>, ghost ups: seq<nat>)
      requires Valid() && 1 <= level <= maxLevel && Preds(update, ups, k, 0)
      requires PlacedAt(Entries(), k, ups[0]) && !HasKey(Entries(), k)
      modifies Footprint()
      ensures Valid() && fresh(Footprint() - old(Footprint())) && Contents() == old(Contents())[k := cell]
    {
      NotNext(ups[0], k);
      ghost var es := Entries();
      InsertSorted(es, ups[0], Entry(k, cell));
      hide Shape;
      hide LinksOk;
      hide IsPred;
      hide Items;
      hide Fold;
      hide Sorted;
      Splice(k, cell, level, update, ups);
    }

    lemma NotNext(c: nat, k: Key)
      requires Valid() && c <= |Entries()| && !HasKey(Entries(), k)
      ensures c < |Entries()| ==> Entries()[c].key != k && spine[c + 1].key != k
    {}

    /** A node of the given height is linked in behind the predecessors. */
    method LinkNode(k: Key, cell: Cell, level: nat, update0: seq<Node?>, ghost ups0: seq<nat>) returns (n: Node)
      requires Valid() && 1 <= level <= maxLevel
      requires Preds(update0, ups0, k, 0)
      modifies Arrays(spine)
      ensures fresh(n) && fresh(n.forward) && n.key == k && n.cell == cell && n.forward.Length == level
      ensures n !in spine && n.forward !in Arrays(spine)
      ensures LinksOk(Spliced(spine, ups0[0] + 1, n))
    {
      hide Link;
      hide IsPred;
      hide Spliced;
      var update, ups := RaiseTop(level, update0, ups0, k);
      PredsInRange(spine, k, ups, level);
      forall i, l | 0 <= i < |spine| && 0 <= l < spine[i].forward.Length
        ensures spine[i].forward[l] == Link(spine, i, l)
      {
        assert LinkOk(spine, i, l);
      }
      n := new Node(k, cell, level);
      LinkIn(n, update, spine, ups);
      SplicedLinks(spine, maxLevel, currTopLevel, k, ups0[0], ups, n);
    }

    lemma FirstPred(update: seq<Node?>, ups: seq<nat>, k: Key)
      requires Valid() && Preds(update, ups, k, 0)
      ensures |ups| > 0 && IsPred(spine, k, ups[0], 0) && ups[0] < |spine| && 1 <= currTopLevel <= maxLevel
    {}

    /** New key: a node is spliced in, and the head's new levels come into use. */
    method Splice(k: Key, cell: Cell, level: nat, update: seq<Node?>, ghost ups: seq<nat>)
      requires Valid() && 1 <= level <= maxLevel
      requires Preds(update, ups, k, 0)
      requires ups[0] + 1 < |spine| ==> spine[ups[0] + 1].key != k
      modifies Footprint()
      ensures Valid() && fresh(Footprint() - old(Footprint()))
      ensures Entries() == old(Entries())[..ups[0]] + [Entry(k, cell)] + old(Entries())[ups[0]..]
    {
      hide Items;
      hide Spliced;
      hide LinksOk;
      hide Shape;
      hide IsPred;
      hide Preds;
      hide Link;
      hide Heights;
      hide At;
      hide Distinct;
      hide Less;
      hide Compare;
      FirstPred(update, ups, k);
      ghost var es := Items(spine);
      var n := LinkNode(k, cell, level, update, ups);
      assert Items(spine) == es;
      Finish(k, cell, level, n, ups[0]);
    }

    /** The new node counts, and the head's new levels come into use. */
    method Finish(k: Key, cell: Cell, level: nat, ghost n: Node, ghost u0: nat)
      requires Shape(spine, maxLevel, currTopLevel) && spine[0] == head && length == |spine| - 1
      requires IsPred(spine, k, u0, 0) && u0 < |spine| && 1 <= currTopLevel <= maxLevel && 1 <= level <= maxLevel
      requires n.key == k && n.cell == cell && n.forward.Length == level && n !in spine && n.forward !in Arrays(spine)
      requires u0 + 1 < |spine| ==> spine[u0 + 1].key != k
      requires LinksOk(Spliced(spine, u0 + 1, n))
      modifies this
      ensures Valid() && Footprint() == old(Footprint()) + {n, n.forward}
      ensures Entries() == old(Items(spine))[..u0] + [Entry(k, cell)] + old(Items(spine))[u0..]
    {
      hide Items;
      hide Spliced;
      hide LinksOk;
      hide IsPred;
      Grown(spine, maxLevel, currTopLevel, if level > currTopLevel then level else currTopLevel, k, u0, n);
      hide Shape;
      Adopt(level, Spliced(spine, u0 + 1, n));
    }

    /** The bookkeeping once the links are in place. */
    method Adopt(level: nat, ghost s: seq<Node>)
      requires Shape(s, maxLevel, if level > currTopLevel then level else currTopLevel)
      requires s[0] == head && |s| == length + 2
      requires LinksOk(s)
      modifies this
      ensures Valid() && spine == s && Items(s) == old(Items(s))
    {
      if level > currTopLevel {
        currTopLevel := level;
      }
      length := length + 1;
      spine := s;
    }
  }

  /** All there is to say about the spine with the new node in it. */
  lemma Grown(spine: seq<Node>, max: nat, top: nat, top': nat, k: Key, u0: nat, n: Node)
    requires Shape(spine, max, top) && IsPred(spine, k, u0, 0) && top <= top' <= max && u0 < |spine|
    requires n.key == k && 1 <= n.forward.Length <= top'
    requires n !in spine && n.forward !in Arrays(spine)
    requires u0 + 1 < |spine| ==> spine[u0 + 1].key != k
    ensures var s := Spliced(spine, u0 + 1, n);
            && Shape(s, max, top') && |s| == |spine| + 1 && s[0] == spine[0]
            && Nodes(s) == Nodes(spine) + {n} && Arrays(s) == Arrays(spine) + {n.forward}
            && Items(s) == Items(spine)[..u0] + [Entry(n.key, n.cell)] + Items(spine)[u0..]
  {
    hide *;
    SplicedItems(spine, u0 + 1, n);
    SplicedShape(spine, max, top, top', k, u0, n);
    SplicedFootprint(spine, u0 + 1, n);
    SplicedEnds(spine, u0 + 1, n);
  }

  lemma SplicedFootprint(spine: seq<Node>, q: nat, n: Node)
    requires q <= |spine|
    ensures Nodes(Spliced(spine, q, n)) == Nodes(spine) + {n}
    ensures Arrays(Spliced(spine, q, n)) == Arrays(spine) + {n.forward}
  {
    var s := Spliced(spine, q, n);
    assert forall x :: x in s <==> x in spine || x == n;
    forall o | o in Nodes(s) ensures o in Nodes(spine) + {n} {
      var x :| x in s && x as object == o;
    }
    forall o | o in Nodes(spine) + {n} ensures o in Nodes(s) {
      if o != n {
        var x :| x in spine && x as object == o;
        assert x in s;
      }
    }
  }

  lemma PredsInRange(spine: seq<Node>, k: Key, ups: seq<nat>, level: nat)
    requires level <= |ups| && forall l :: 0 <= l < level ==> IsPred(spine, k, ups[l], l)
    ensures forall l :: 0 <= l < level ==> ups[l] < |spine| && l < spine[ups[l]].forward.Length
  {}

  /** Level-0 neighbours in the spine are linked. */
  lemma NextOf(spine: seq<Node>, max: nat, top: nat, i: nat)
    requires Shape(spine, max, top) && i < |spine|
    ensures spine[i].forward.Length > 0 && Link(spine, i, 0) == At(spine, i + 1)
  {
    if i + 1 < |spine| { assert Heights(spine)[i + 1] > 0; }
  }

  /** Walks the nodes at level 0; `pos` counts the entries already passed. */
  class Iterator {
    const list: Skiplist
    var current: Node?
    ghost var pos: nat

    ghost predicate Valid()
      reads this, list, list.Footprint()
    {
      list.Valid() && pos < |list.spine| && current == At(list.spine, pos + 1)
    }

    constructor (list: Skiplist)
      requires list.Valid()
      ensures Valid() && this.list == list && pos == 0
    {
      NextOf(list.spine, list.maxLevel, list.currTopLevel, 0);
      assert LinkOk(list.spine, 0, 0);
      this.list, this.current, this.pos := list, list.head.forward[0], 0;
    }

    method Next()
      requires Valid() && current != null
      modifies this
      ensures Valid() && pos == old(pos) + 1
    {
      NextOf(list.spine, list.maxLevel, list.currTopLevel, pos + 1);
      assert LinkOk(list.spine, pos + 1, 0);
      current := current.forward[0];
      pos := pos + 1;
    }

    method Entry() returns (e: Option<Entry>)
      requires Valid()
      ensures e == if pos < |list.Entries()| then Some(list.Entries()[pos]) else None
    {
      if current == null {
        e := None;
      } else {
        e := Some(Base.Entry(current.key, current.cell));
      }
    }
  }

  /** Up to level `upTo` the new node has taken over the links of its predecessors. */
  ghost predicate Relinked(spine: seq<Node>, n: Node, ups: seq<nat>, upTo: nat)
    requires upTo <= n.forward.Length && upTo <= |ups|
    reads n.forward, Arrays(spine)
  {
    && (forall i, l :: 0 <= i < |spine| && 0 <= l < spine[i].forward.Length ==>
          spine[i].forward[l] == if l < upTo && i == ups[l] then n else Link(spine, i, l))
    && (forall l :: 0 <= l < upTo ==> ups[l] < |spine| && n.forward[l] == Link(spine, ups[l], l))
  }

  /** The new node is linked in behind its predecessors, level by level. */
  method LinkIn(n: Node, update: seq<Node?>, ghost spine: seq<Node>, ghost ups: seq<nat>)
    requires Distinct(spine) && n.forward !in Arrays(spine)
    requires n.forward.Length <= |ups| == |update| && Relinked(spine, n, ups, 0)
    requires forall l :: 0 <= l < n.forward.Length ==>
               ups[l] < |spine| && l < spine[ups[l]].forward.Length && update[l] == spine[ups[l]]
    modifies n.forward, Arrays(spine)
    ensures Relinked(spine, n, ups, n.forward.Length)
  {
    hide Link;
    assert forall i :: 0 <= i < |spine| ==> (spine[i].forward as object) in Arrays(spine);
    for i := 0 to n.forward.Length
      invariant Relinked(spine, n, ups, i)
    {
      LinkLevel(n, update[i], i);
    }
  }

  /** newNode.forward[l] = prev.forward[l], and prev.forward[l] = newNode. */
  method LinkLevel(n: Node, prev: Node?, l: nat)
    requires prev != null && l < n.forward.Length && l < prev.forward.Length && n.forward != prev.forward
    modifies n.forward, prev.forward
    ensures n.forward[l] == old(prev.forward[l]) && prev.forward[l] == n
    ensures forall j :: 0 <= j < n.forward.Length && j != l ==> n.forward[j] == old(n.forward[j])
    ensures forall j :: 0 <= j < prev.forward.Length && j != l ==> prev.forward[j] == old(prev.forward[j])
  {
    n.forward[l] := prev.forward[l];
    prev.forward[l] := n;
  }

  /** The predecessor's successor is the only node that can hold the key. */
  lemma FoundAt(spine: seq<Node>, max: nat, top: nat, k: Key, c: nat)
    requires Shape(spine, max, top) && IsPred(spine, k, c, 0)
    ensures c < |spine| && spine[c].forward.Length > 0 && Link(spine, c, 0) == At(spine, c + 1)
    ensures Find(Fold(Items(spine)), k) ==
            if c + 1 < |spine| && spine[c + 1].key == k then Some(spine[c + 1].cell) else None
  {
    hide Items;
    var es := Items(spine);
    PlaceOf(spine, max, top, k, c);
    if c < |es| && es[c].key == k {
      FoldAt(es, c);
    } else {
      FoldHas(es, k);
    }
  }

  ghost function Spliced(spine: seq<Node>, q: nat, n: Node): seq<Node>
    requires q <= |spine|
  {
    spine[..q] + [n] + spine[q..]
  }

  /** Every predecessor stands in front of the insertion point and its successor does not. */
  lemma PredAround(spine: seq<Node>, max: nat, top: nat, k: Key, u0: nat, u: nat, l: nat)
    requires Shape(spine, max, top) && IsPred(spine, k, u0, 0) && IsPred(spine, k, u, l)
    ensures NextTall(Heights(spine), u0, 0) == u0 + 1
    ensures u <= u0 < NextTall(Heights(spine), u, l)
  {
    if u0 + 1 < |spine| { assert Heights(spine)[u0 + 1] > 0; }
    var j := NextTall(Heights(spine), u, l);
    assert forall i :: 0 < i < u0 ==> Less(spine[i].key, spine[u0].key);
    assert forall i :: u0 + 1 < i < |spine| ==> Less(spine[u0 + 1].key, spine[i].key);
  }

  lemma SplicedEnds(spine: seq<Node>, q: nat, n: Node)
    requires 0 < q <= |spine|
    ensures |Spliced(spine, q, n)| == |spine| + 1 && Spliced(spine, q, n)[0] == spine[0]
  {}

  lemma SplicedHeights(spine: seq<Node>, q: nat, n: Node)
    requires q <= |spine|
    ensures Heights(Spliced(spine, q, n)) == PutIn(Heights(spine), q, n.forward.Length)
  {}

  lemma SplicedAt(spine: seq<Node>, q: nat, n: Node, j: nat)
    requires q <= |spine|
    ensures At(Spliced(spine, q, n), q) == n
    ensures At(Spliced(spine, q, n), if j < q then j else j + 1) == At(spine, j)
  {}

  lemma SplicedDistinct(spine: seq<Node>, q: nat, n: Node)
    requires Distinct(spine) && q <= |spine| && n !in spine && n.forward !in Arrays(spine)
    ensures Distinct(Spliced(spine, q, n))
  {
    var s := Spliced(spine, q, n);
    forall i, j | 0 <= i < j < |s| ensures s[i] != s[j] && s[i].forward != s[j].forward {
      assert i != q ==> s[i] in spine && s[i].forward in Arrays(spine);
      assert j != q ==> s[j] in spine && s[j].forward in Arrays(spine);
    }
  }

  /** The keys before the place of the new one are less, and those from there on greater. */
  lemma PlaceSplits(spine: seq<Node>, max: nat, top: nat, k: Key, u0: nat)
    requires Shape(spine, max, top) && IsPred(spine, k, u0, 0)
    requires u0 + 1 < |spine| ==> spine[u0 + 1].key != k
    ensures forall i :: 0 < i < |spine| ==> if i <= u0 then Less(spine[i].key, k) else Less(k, spine[i].key)
    ensures forall i, j :: 0 < i < j < |spine| ==> Less(spine[i].key, spine[j].key)
  {
    PredAround(spine, max, top, k, u0, u0, 0);
    hide Heights;
    hide NextTall;
    hide Distinct;
    forall i | 0 < i < |spine| ensures if i <= u0 then Less(spine[i].key, k) else Less(k, spine[i].key) {
      if i < u0 { assert Less(spine[i].key, spine[u0].key); }
      if i > u0 + 1 { assert Less(spine[u0 + 1].key, spine[i].key); }
    }
  }

  lemma SplicedSorted(spine: seq<Node>, max: nat, top: nat, k: Key, u0: nat, n: Node)
    requires Shape(spine, max, top) && IsPred(spine, k, u0, 0) && n.key == k
    requires u0 + 1 < |spine| ==> spine[u0 + 1].key != k
    ensures var s := Spliced(spine, u0 + 1, n); forall i, j :: 0 < i < j < |s| ==> Less(s[i].key, s[j].key)
  {
    hide Shape;
    hide Less;
    PlaceSplits(spine, max, top, k, u0);
    var q, s := u0 + 1, Spliced(spine, u0 + 1, n);
    forall i, j | 0 < i < j < |s| ensures Less(s[i].key, s[j].key) {
      assert i != q ==> s[i] == spine[if i < q then i else i - 1];
      assert j != q ==> s[j] == spine[if j < q then j else j - 1];
    }
  }

  lemma SplicedShape(spine: seq<Node>, max: nat, top: nat, top': nat, k: Key, u0: nat, n: Node)
    requires Shape(spine, max, top) && IsPred(spine, k, u0, 0) && top <= top' <= max
    requires n.key == k && 1 <= n.forward.Length <= top'
    requires n !in spine && n.forward !in Arrays(spine)
    requires u0 + 1 < |spine| ==> spine[u0 + 1].key != k
    ensures Shape(Spliced(spine, u0 + 1, n), max, top')
  {
    var q, s := u0 + 1, Spliced(spine, u0 + 1, n);
    SplicedDistinct(spine, q, n);
    SplicedSorted(spine, max, top, k, u0, n);
    forall i | 0 < i < |s| ensures 1 <= s[i].forward.Length <= top' {
      assert i != q ==> s[i] == spine[if i < q then i else i - 1];
    }
  }

  // Where the links of the grown list must point, told from the links before.

  lemma LinkBefore(spine: seq<Node>, max: nat, top: nat, k: Key, u0: nat, u: nat, n: Node, i: nat, l: nat)
    requires Shape(spine, max, top) && IsPred(spine, k, u0, 0) && i <= u0 && l < spine[i].forward.Length
    requires l < n.forward.Length ==> IsPred(spine, k, u, l)
    ensures Link(Spliced(spine, u0 + 1, n), i, l) == if l < n.forward.Length && i == u then n else Link(spine, i, l)
  {
    var q, h := u0 + 1, Heights(spine);
    var j := NextTall(h, i, l);
    SplicedHeights(spine, q, n);
    SplicedAt(spine, q, n, j);
    if l < n.forward.Length {
      PredAround(spine, max, top, k, u0, u, l);
    }
    hide Shape;
    hide PutIn;
    hide Spliced;
    NextFromBefore(h, q, n.forward.Length, i, l);
    if l < n.forward.Length && j >= q {
      OnePredecessor(h, q, u, i, l);
    }
  }

  lemma LinkOfNew(spine: seq<Node>, max: nat, top: nat, k: Key, u0: nat, u: nat, n: Node, l: nat)
    requires Shape(spine, max, top) && IsPred(spine, k, u0, 0) && IsPred(spine, k, u, l)
    ensures Link(Spliced(spine, u0 + 1, n), u0 + 1, l) == Link(spine, u, l)
  {
    hide Shape;
    hide PutIn;
    hide Spliced;
    SplicedHeights(spine, u0 + 1, n);
    SplicedAt(spine, u0 + 1, n, NextTall(Heights(spine), u, l));
    PredAround(spine, max, top, k, u0, u, l);
    NextFromNew(Heights(spine), u0 + 1, n.forward.Length, u, l);
  }

  lemma LinkBehind(spine: seq<Node>, q: nat, n: Node, i: nat, l: nat)
    requires q <= i < |spine|
    ensures Link(Spliced(spine, q, n), i + 1, l) == Link(spine, i, l)
  {
    SplicedHeights(spine, q, n);
    SplicedAt(spine, q, n, NextTall(Heights(spine), i, l));
    NextFromBehind(Heights(spine), q, n.forward.Length, i, l);
  }

  lemma SplicedLinkBefore(spine: seq<Node>, max: nat, top: nat, k: Key, u0: nat, ups: seq<nat>, n: Node, i: nat, l: nat)
    requires Shape(spine, max, top) && IsPred(spine, k, u0, 0)
    requires n.forward.Length <= |ups| && Relinked(spine, n, ups, n.forward.Length)
    requires l < n.forward.Length ==> IsPred(spine, k, ups[l], l)
    requires i <= u0 && l < spine[i].forward.Length
    ensures spine[i].forward[l] == Link(Spliced(spine, u0 + 1, n), i, l)
  {
    hide Shape;
    hide Link;
    hide Heights;
    LinkBefore(spine, max, top, k, u0, if l < n.forward.Length then ups[l] else 0, n, i, l);
  }

  lemma SplicedLinkOfNew(spine: seq<Node>, max: nat, top: nat, k: Key, u0: nat, ups: seq<nat>, n: Node, l: nat)
    requires Shape(spine, max, top) && IsPred(spine, k, u0, 0)
    requires n.forward.Length <= |ups| && Relinked(spine, n, ups, n.forward.Length)
    requires l < n.forward.Length && IsPred(spine, k, ups[l], l)
    ensures n.forward[l] == Link(Spliced(spine, u0 + 1, n), u0 + 1, l)
  {
    hide Shape;
    hide Link;
    LinkOfNew(spine, max, top, k, u0, ups[l], n, l);
  }

  lemma SplicedLinkBehind(spine: seq<Node>, max: nat, top: nat, k: Key, u0: nat, ups: seq<nat>, n: Node, i: nat, l: nat)
    requires Shape(spine, max, top) && IsPred(spine, k, u0, 0)
    requires n.forward.Length <= |ups| && Relinked(spine, n, ups, n.forward.Length)
    requires l < n.forward.Length ==> IsPred(spine, k, ups[l], l)
    requires u0 < i < |spine| && l < spine[i].forward.Length
    ensures spine[i].forward[l] == Link(Spliced(spine, u0 + 1, n), i + 1, l)
  {
    if l < n.forward.Length {
      PredAround(spine, max, top, k, u0, ups[l], l);
    }
    hide Shape;
    hide Link;
    LinkBehind(spine, u0 + 1, n, i, l);
  }

  lemma SplicedLinks(spine: seq<Node>, max: nat, top: nat, k: Key, u0: nat, ups: seq<nat>, n: Node)
    requires Shape(spine, max, top) && IsPred(spine, k, u0, 0)
    requires n.forward.Length <= |ups| && Relinked(spine, n, ups, n.forward.Length)
    requires forall l :: 0 <= l < n.forward.Length ==> IsPred(spine, k, ups[l], l)
    ensures LinksOk(Spliced(spine, u0 + 1, n))
  {
    hide Shape;
    hide Link;
    hide Relinked;
    var s := Spliced(spine, u0 + 1, n);
    forall i, l | 0 <= i < |s| && 0 <= l < s[i].forward.Length ensures LinkOk(s, i, l) {
      if i <= u0 {
        assert s[i] == spine[i];
        SplicedLinkBefore(spine, max, top, k, u0, ups, n, i, l);
      } else if i == u0 + 1 {
        assert s[i] == n;
        SplicedLinkOfNew(spine, max, top, k, u0, ups, n, l);
      } else {
        assert s[i] == spine[i - 1];
        SplicedLinkBehind(spine, max, top, k, u0, ups, n, i - 1, l);
      }
    }
  }

  lemma SplicedItems(spine: seq<Node>, q: nat, n: Node)
    requires 0 < q <= |spine|
    ensures Items(Spliced(spine, q, n)) == Items(spine)[..q - 1] + [Entry(n.key, n.cell)] + Items(spine)[q - 1..]
  {
    hide Items;
    var s, es := Spliced(spine, q, n), Items(spine);
    var es' := es[..q - 1] + [Entry(n.key, n.cell)] + es[q - 1..];
    forall i | 0 <= i < |s| - 1 ensures Items(s)[i] == es'[i] {
      assert s[i + 1] == if i + 1 < q then spine[i + 1] else if i + 1 == q then n else spine[i];
    }
  }

  /** Sorted entries, of which the first `c` are below the key and no other is. */
  ghost predicate PlacedAt(es: seq<Entry>, k: Key, c: nat) {
    && Sorted(es) && c <= |es| && (c > 0 ==> Less(es[c - 1].key, k))
    && (c < |es| ==> es[c].key == k || Less(k, es[c].key))
  }

  /** The level-0 predecessor marks the place of the key among the items. */
  lemma PlaceOf(spine: seq<Node>, max: nat, top: nat, k: Key, c: nat)
    requires Shape(spine, max, top) && IsPred(spine, k, c, 0)
    ensures c < |spine| && spine[c].forward.Length > 0 && Link(spine, c, 0) == At(spine, c + 1)
    ensures var es := Items(spine);
            && PlacedAt(es, k, c)
            && (c < |es| ==> es[c].key == spine[c + 1].key)
            && (c >= |es| || es[c].key != k ==> !HasKey(es, k))
  {
    hide Items;
    PredAround(spine, max, top, k, c, c, 0);
    var es := Items(spine);
    assert Sorted(es);
    forall i | 0 <= i < |es| && (i != c || es[c].key != k) ensures es[i].key != k {
      if i < c {
        assert i == c - 1 || Less(es[i].key, es[c - 1].key);
      } else if i > c {
        assert Less(es[c].key, es[i].key);
      }
    }
  }

  // ----- the levels as lists

  /** The nodes whose tower reaches level `l`, in order. */
  ghost function Tall(s: seq<Node>, l: nat): seq<Node> {
    if s == [] then []
    else if s[0].forward.Length > l then [s[0]] + Tall(s[1..], l)
    else Tall(s[1..], l)
  }

  /** Following forward[l] from `n` visits exactly these nodes. */
  ghost predicate Chain(n: Node?, l: nat, nodes: seq<Node>)
    reads Arrays(nodes)
    decreases |nodes|
  {
    if nodes == [] then n == null
    else
      assert nodes[0] in nodes;
      n == nodes[0] && l < n.forward.Length && Chain(n.forward[l], l, nodes[1..])
  }

  lemma {:induction false} TallSkips(spine: seq<Node>, i: nat, l: nat)
    requires i < |spine|
    ensures var j := NextTall(Heights(spine), i, l);
            Tall(spine[i + 1..], l) == if j < |spine| then [spine[j]] + Tall(spine[j + 1..], l) else []
    decreases |spine| - i
  {
    if i + 1 < |spine| {
      assert spine[i + 1..][1..] == spine[i + 2..];
      if spine[i + 1].forward.Length <= l {
        TallSkips(spine, i + 1, l);
        NextTallIs(Heights(spine), i, l, NextTall(Heights(spine), i + 1, l));
      } else {
        NextTallIs(Heights(spine), i, l, i + 1);
      }
    }
  }

  /** Level l links exactly the nodes tall enough for it, in key order. */
  lemma {:induction false} LevelChain(spine: seq<Node>, i: nat, l: nat)
    requires LinksOk(spine) && i < |spine| && l < spine[i].forward.Length
    ensures Chain(spine[i].forward[l], l, Tall(spine[i + 1..], l))
    decreases |spine| - i
  {
    var j := NextTall(Heights(spine), i, l);
    assert LinkOk(spine, i, l);
    TallSkips(spine, i, l);
    if j < |spine| {
      LevelChain(spine, j, l);
      assert Tall(spine[i + 1..], l)[1..] == Tall(spine[j + 1..], l);
    }
  }

  /** Each level is a sublist of the one below. */
  lemma {:induction false} LevelIsSublist(s: seq<Node>, l: nat)
    ensures Tall(Tall(s, l), l + 1) == Tall(s, l + 1)
  {
    if s != [] {
      LevelIsSublist(s[1..], l);
      if s[0].forward.Length > l {
        assert Tall(s, l)[1..] == Tall(s[1..], l);
      } else {
        assert Tall(s, l) == Tall(s[1..], l) && Tall(s, l + 1) == Tall(s[1..], l + 1);
      }
    }
  }

  /** Levels at or above the current top are empty, and level 0 holds every node. */
  lemma {:induction false} LevelExtremes(s: seq<Node>, top: nat)
    requires forall n :: n in s ==> 1 <= n.forward.Length <= top
    ensures Tall(s, 0) == s
    ensures forall l :: l >= top ==> Tall(s, l) == []
  {
    if s != [] {
      LevelExtremes(s[1..], top);
    }
  }
}
