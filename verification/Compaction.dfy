/** What replacing a set of tables by their merge does to the view, in memory and on disk. */
module Compaction {
  import opened Base
  import opened History
  import opened Generations

  /** CompactSSTables returns no file when nothing survives the merge. */
  ghost function WithTable(ts: Tables, target: nat, out: Contents): Tables {
    if out == map[] then ts else ts[target := out]
  }

  /** The table list once ReplaceTables has dropped `snap` and added the merged table. */
  ghost function Replaced(list: Tables, snap: set<nat>, target: nat, major: bool): Tables {
    WithTable(list - snap, target, Merge(Restrict(list, snap), major))
  }

  /**
   * The order on generations that a compaction needs: whatever is not merged is newer than the
   * merged table or, when tombstones are kept, older than everything merged.
   */
  ghost predicate InOrder(gens: set<nat>, snap: set<nat>, target: nat, major: bool) {
    && snap <= gens
    && (forall c :: c in snap ==> c < target)
    && (forall g :: g in gens && g !in snap ==> g > target || (!major && forall c :: c in snap ==> g < c))
  }

  lemma NewestSame(a: Tables, b: Tables, k: Key)
    requires forall g :: g in a && k in a[g] <==> g in b && k in b[g]
    requires forall g :: g in a && k in a[g] && g in b && k in b[g] ==> a[g][k] == b[g][k]
    ensures Newest(a, k) == Newest(b, k)
  {
    NewestNone(a, k);
    NewestNone(b, k);
    if g :| g in a && k in a[g] {
      var top := TopExists(a, k, g);
      assert IsTop(b, k, top);
      TopCell(a, k, top);
      TopCell(b, k, top);
    }
  }

  /** A table above the rest decides the keys it holds and no others. */
  lemma AddOnTop(ts: Tables, g: nat, c: Contents, k: Key)
    requires forall x :: x in ts ==> x < g
    ensures Newest(ts[g := c], k) == if k in c then Some(c[k]) else Newest(ts, k)
  {
    if k in c {
      assert IsTop(ts[g := c], k, g);
      TopCell(ts[g := c], k, g);
    } else {
      NewestSame(ts[g := c], ts, k);
    }
  }

  /** Tables above `bound` settle a key before anything at or below `bound` is consulted. */
  ghost predicate SettledAbove(ts: Tables, bound: nat, k: Key) {
    exists g :: g in ts && g > bound && k in ts[g]
  }

  lemma {:induction false} SettledSame(a: Tables, b: Tables, bound: nat, k: Key)
    requires SettledAbove(a, bound, k)
    requires forall g :: g > bound ==> (g in a && k in a[g] <==> g in b && k in b[g])
    requires forall g :: g > bound && g in a && k in a[g] && g in b ==> b[g] == a[g]
    ensures Newest(a, k) == Newest(b, k)
  {
    var g :| g in a && g > bound && k in a[g];
    var top := TopExists(a, k, g);
    assert IsTop(b, k, top);
    TopCell(a, k, top);
    TopCell(b, k, top);
  }

  lemma MergeFind(ts: Tables, major: bool, k: Key)
    ensures Find(Merge(ts, major), k) ==
            if Newest(ts, k).Some? && !(major && Newest(ts, k).value.deleted) then Newest(ts, k) else None
  {
    if Newest(ts, k).Some? {
      var g :| IsTop(ts, k, g);
      assert g in ts && k in ts[g];
    }
  }

  /** Keys not settled above the target are decided among the merged tables before the older ones. */
  lemma SnapshotDecides(list: Tables, snap: set<nat>, target: nat, major: bool, k: Key)
    requires InOrder(list.Keys, snap, target, major)
    requires !SettledAbove(list, target, k)
    requires Newest(Restrict(list, snap), k).Some?
    ensures Newest(list, k) == Newest(Restrict(list, snap), k)
  {
    var r := Restrict(list, snap);
    var top :| IsTop(r, k, top);
    TopCell(r, k, top);
    forall g | g in list && k in list[g] ensures g <= top {
      if g in snap {
        assert g in r && k in r[g];
      }
    }
    assert IsTop(list, k, top);
    TopCell(list, k, top);
  }

  /** Writing the merged file next to its sources changes no visible value. */
  lemma MergedBesideSources(list: Tables, snap: set<nat>, target: nat, major: bool)
    requires InOrder(list.Keys, snap, target, major) && target !in list
    ensures SameLive(WithTable(list, target, Merge(Restrict(list, snap), major)), list)
  {
    var r := Restrict(list, snap);
    var out := Merge(r, major);
    var a := WithTable(list, target, out);
    forall k ensures Live(Newest(a, k)) == Live(Newest(list, k)) {
      MergeFind(r, major, k);
      if SettledAbove(list, target, k) {
        SettledSame(list, a, target, k);
      } else if k in out {
        assert IsTop(a, k, target);
        TopCell(a, k, target);
        SnapshotDecides(list, snap, target, major, k);
      } else {
        NewestSame(a, list, k);
      }
    }
  }

  /** ReplaceTables keeps every visible value when the generations are in order. */
  lemma ReplaceKeepsView(list: Tables, snap: set<nat>, target: nat, major: bool)
    requires InOrder(list.Keys, snap, target, major) && target !in list
    ensures SameLive(Replaced(list, snap, target, major), list)
  {
    var r := Restrict(list, snap);
    var out := Merge(r, major);
    var after := Replaced(list, snap, target, major);
    forall k ensures Live(Newest(after, k)) == Live(Newest(list, k)) {
      MergeFind(r, major, k);
      NewestNone(r, k);
      if SettledAbove(list, target, k) {
        SettledSame(list, after, target, k);
      } else if k in out {
        assert IsTop(after, k, target);
        TopCell(after, k, target);
        SnapshotDecides(list, snap, target, major, k);
      } else if Newest(r, k).Some? {
        SnapshotDecides(list, snap, target, major, k);
        NewestNone(after, k);
      } else {
        assert forall g :: g in list && g in snap ==> g in r && r[g] == list[g];
        NewestSame(after, list, k);
      }
    }
  }

  function CellOf(deleted: bool, b: byte): Cell {
    Cell(deleted, [b])
  }

  /** One key in `g` and another cell for it in `c`; every other table is empty. */
  ghost function Clash(gens: set<nat>, c: nat, older: Cell, g: nat, newer: Cell): Tables {
    var k := Key(0, 0);
    map x | x in gens :: if x == c then map[k := older] else if x == g then map[k := newer] else map[]
  }

  lemma ClashView(gens: set<nat>, c: nat, older: Cell, g: nat, newer: Cell)
    requires c in gens && g in gens && c < g
    ensures Newest(Clash(gens, c, older, g, newer), Key(0, 0)) == Some(newer)
  {
    assert IsTop(Clash(gens, c, older, g, newer), Key(0, 0), g);
    TopCell(Clash(gens, c, older, g, newer), Key(0, 0), g);
  }

  /** Merging an older table while a newer one below the target stays listed hides the newer value. */
  lemma StaleMergeHidesNewer(gens: set<nat>, snap: set<nat>, target: nat, major: bool, c: nat, g: nat)
    requires snap <= gens && target !in gens && (forall x :: x in snap ==> x < target)
    requires c in snap && g in gens && g !in snap && c < g < target
    ensures var list := Clash(gens, c, CellOf(false, 0), g, CellOf(false, 1));
            !SameLive(Replaced(list, snap, target, major), list)
  {
    var k := Key(0, 0);
    var list := Clash(gens, c, CellOf(false, 0), g, CellOf(false, 1));
    var r := Restrict(list, snap);
    ClashView(gens, c, CellOf(false, 0), g, CellOf(false, 1));
    assert IsTop(r, k, c);
    TopCell(r, k, c);
    MergeFind(r, major, k);
    var after := Replaced(list, snap, target, major);
    assert IsTop(after, k, target);
    TopCell(after, k, target);
    assert Live(Newest(list, k)) == Some([1]) && Live(Newest(after, k)) == Some([0]);
  }

  /** A major merge that leaves an older table listed brings deleted keys back. */
  lemma DroppedTombstoneRevives(gens: set<nat>, snap: set<nat>, target: nat, c: nat, g: nat)
    requires snap <= gens && target !in gens
    requires c in snap && g in gens && g !in snap && g < c
    ensures var list := Clash(gens, g, CellOf(false, 0), c, CellOf(true, 0));
            !SameLive(Replaced(list, snap, target, true), list)
  {
    var k := Key(0, 0);
    var list := Clash(gens, g, CellOf(false, 0), c, CellOf(true, 0));
    var r := Restrict(list, snap);
    ClashView(gens, g, CellOf(false, 0), c, CellOf(true, 0));
    assert IsTop(r, k, c);
    TopCell(r, k, c);
    MergeFind(r, true, k);
    var after := Replaced(list, snap, target, true);
    assert IsTop(after, k, g);
    TopCell(after, k, g);
    assert Live(Newest(list, k)) == None && Live(Newest(after, k)) == Some([0]);
  }

  ghost predicate KeepsEveryView(gens: set<nat>, snap: set<nat>, target: nat, major: bool) {
    forall list: Tables :: list.Keys == gens ==> SameLive(Replaced(list, snap, target, major), list)
  }

  /** The order on generations is exactly what makes a compaction safe whatever the tables hold. */
  lemma CompactionSafeIff(gens: set<nat>, snap: set<nat>, target: nat, major: bool)
    requires snap <= gens && snap != {} && target !in gens
    requires forall c :: c in snap ==> c < target
    ensures KeepsEveryView(gens, snap, target, major) <==> InOrder(gens, snap, target, major)
  {
    if InOrder(gens, snap, target, major) {
      forall list: Tables | list.Keys == gens ensures SameLive(Replaced(list, snap, target, major), list) {
        ReplaceKeepsView(list, snap, target, major);
      }
    } else {
      var g :| g in gens && g !in snap && g <= target && (major || exists c :: c in snap && g >= c);
      if c :| c in snap && c <= g {
        StaleMergeHidesNewer(gens, snap, target, major, c, g);
        assert Clash(gens, c, CellOf(false, 0), g, CellOf(false, 1)).Keys == gens;
      } else {
        var c :| c in snap;
        DroppedTombstoneRevives(gens, snap, target, c, g);
        assert Clash(gens, g, CellOf(false, 0), c, CellOf(true, 0)).Keys == gens;
      }
    }
  }

  // ----- publishing a flushed table

  /** Whatever the tables hold, the new table is consulted first. */
  ghost predicate ShownFirst(gens: set<nat>, g: nat) {
    forall list: Tables, c: Contents, k: Key :: list.Keys == gens ==>
      Newest(list[g := c], k) == if k in c then Some(c[k]) else Newest(list, k)
  }

  /** A flushed table shows over the listed ones exactly when its generation is the highest. */
  lemma PublishSafeIff(gens: set<nat>, g: nat)
    requires g !in gens
    ensures ShownFirst(gens, g) <==> forall x :: x in gens ==> x < g
  {
    if forall x :: x in gens ==> x < g {
      forall list: Tables, c: Contents, k: Key | list.Keys == gens
        ensures Newest(list[g := c], k) == if k in c then Some(c[k]) else Newest(list, k)
      {
        AddOnTop(list, g, c, k);
      }
    } else {
      var x :| x in gens && x >= g;
      var k := Key(0, 0);
      var list := Clash(gens, x, CellOf(false, 0), x, CellOf(false, 0));
      var c := map[k := CellOf(false, 1)];
      assert IsTop(list[g := c], k, x);
      TopCell(list[g := c], k, x);
      assert list.Keys == gens && Newest(list[g := c], k) != Some(c[k]);
    }
  }
}
