/** Retired files that a crash leaves on disk are loaded again: which survivors are harmless. */
module Unlinking {
  import opened Base
  import opened History
  import opened Generations
  import opened Compaction

  ghost predicate UpwardClosed(retired: set<nat>, survivors: set<nat>) {
    forall s, r :: s in survivors && r in retired && s < r ==> r in survivors
  }

  /** Loading the retired tables too would show nothing new. */
  ghost predicate Dormant(list: Tables, retired: Tables) {
    list.Keys !! retired.Keys && SameLive(list + retired, list)
  }

  /** Every key of a retired table has a listed cell of a higher generation. */
  ghost predicate Shadowed(list: Tables, retired: Tables) {
    && list.Keys !! retired.Keys
    && forall r, k :: r in retired && k in retired[r] ==> exists g :: g in list && r < g && k in list[g]
  }

  lemma SurvivorsShow(list: Tables, retired: Tables, survivors: set<nat>)
    requires Dormant(list, retired) && UpwardClosed(retired.Keys, survivors)
    ensures SameLive(list + Restrict(retired, survivors), list)
  {
    var files := list + Restrict(retired, survivors);
    var all := list + retired;
    forall k ensures Live(Newest(files, k)) == Live(Newest(list, k)) {
      NewestNone(all, k);
      if Newest(all, k).Some? {
        var top :| IsTop(all, k, top);
        if top in list || top in survivors {
          assert IsTop(files, k, top);
          TopCell(files, k, top);
          TopCell(all, k, top);
        } else {
          assert forall g :: g in files && k in files[g] ==> g in list;
          NewestSame(files, list, k);
        }
      } else {
        assert forall g :: g in files && k in files[g] ==> g in all && k in all[g];
        assert forall g :: g in list ==> g in all && all[g] == list[g];
        NewestSame(files, list, k);
      }
    }
  }

  lemma ShadowedShow(list: Tables, retired: Tables, survivors: set<nat>)
    requires Shadowed(list, retired)
    ensures SameLive(list + Restrict(retired, survivors), list)
  {
    var files := list + Restrict(retired, survivors);
    forall k ensures Live(Newest(files, k)) == Live(Newest(list, k)) {
      NewestNone(files, k);
      NewestNone(list, k);
      if g0 :| g0 in list && k in list[g0] {
        var top := TopExists(list, k, g0);
        forall g | g in files && k in files[g] ensures g <= top {
          if g in retired {
            var h :| h in list && g < h && k in list[h];
          }
        }
        assert IsTop(files, k, top);
        TopCell(files, k, top);
        TopCell(list, k, top);
      } else {
        assert forall g :: g in files && k in files[g] ==> g in list;
      }
    }
  }

  lemma DormantBesideMerge(list: Tables, retired: Tables, snap: set<nat>, target: nat, major: bool)
    requires InOrder(list.Keys, snap, target, major) && target !in list
    requires Dormant(list, retired) && forall r :: r in retired ==> r < target
    ensures Dormant(WithTable(list, target, Merge(Restrict(list, snap), major)), retired)
  {
    hide Merge;
    hide Newest;
    var out := Merge(Restrict(list, snap), major);
    var a := WithTable(list, target, out);
    forall k ensures Live(Newest(a + retired, k)) == Live(Newest(a, k)) {
      assert Live(Newest(list + retired, k)) == Live(Newest(list, k));
      if SettledAbove(a, target, k) {
        SettledSame(a, a + retired, target, k);
      } else if k in out {
        assert IsTop(a, k, target) && IsTop(a + retired, k, target);
        TopCell(a, k, target);
        TopCell(a + retired, k, target);
      } else {
        NewestSame(a, list, k);
        NewestSame(a + retired, list + retired, k);
      }
    }
  }

  lemma SameTables(list: Tables, retired: Tables, snap: set<nat>, target: nat, out: Contents)
    requires snap <= list.Keys && list.Keys !! retired.Keys && target !in list && target !in retired
    ensures WithTable(list - snap, target, out) + (retired + Restrict(list, snap))
         == WithTable(list, target, out) + retired
  {}

  lemma DormantAfterReplace(list: Tables, retired: Tables, snap: set<nat>, target: nat, major: bool)
    requires InOrder(list.Keys, snap, target, major) && target !in list
    requires Dormant(list, retired) && forall r :: r in retired ==> r < target
    ensures Dormant(Replaced(list, snap, target, major), retired + Restrict(list, snap))
  {
    var a := WithTable(list, target, Merge(Restrict(list, snap), major));
    var after := Replaced(list, snap, target, major);
    var retired' := retired + Restrict(list, snap);
    SameTables(list, retired, snap, target, Merge(Restrict(list, snap), major));
    assert after.Keys !! retired'.Keys;
    forall k ensures Live(Newest(after + retired', k)) == Live(Newest(after, k)) {
      DormantBesideMerge(list, retired, snap, target, major);
      MergedBesideSources(list, snap, target, major);
      ReplaceKeepsView(list, snap, target, major);
      assert Live(Newest(a + retired, k)) == Live(Newest(a, k)) == Live(Newest(list, k)) == Live(Newest(after, k));
    }
  }

  lemma ShadowedAfterReplace(list: Tables, retired: Tables, snap: set<nat>, target: nat)
    requires InOrder(list.Keys, snap, target, false) && target !in list
    requires Shadowed(list, retired) && forall r :: r in retired ==> r < target
    ensures Shadowed(Replaced(list, snap, target, false), retired + Restrict(list, snap))
  {
    var r := Restrict(list, snap);
    var after := Replaced(list, snap, target, false);
    var out := Merge(r, false);
    forall x, k | x in retired + r && k in (retired + r)[x]
      ensures exists g :: g in after && x < g && k in after[g]
    {
      var g := x;
      if x !in r {
        g :| g in list && x < g && k in list[g];
      }
      if g in snap {
        MergeFind(r, false, k);
        NewestNone(r, k);
        assert g in r && k in r[g];
        assert target in after && k in after[target];
      } else {
        assert g in after;
      }
    }
  }

  /** A table above everything listed and retired leaves both conditions in place. */
  lemma PublishKeepsDormant(list: Tables, retired: Tables, g: nat, c: Contents)
    requires Dormant(list, retired)
    requires forall x :: x in list || x in retired ==> x < g
    ensures Dormant(list[g := c], retired)
  {
    var added := list[g := c];
    assert added + retired == (list + retired)[g := c];
    forall k ensures Live(Newest(added + retired, k)) == Live(Newest(added, k)) {
      AddOnTop(list, g, c, k);
      AddOnTop(list + retired, g, c, k);
    }
  }

  // ----- one compaction, exactly

  ghost predicate ReopensSame(snap: set<nat>, survivors: set<nat>, target: nat, major: bool) {
    forall ts: Tables :: ts.Keys == snap ==>
      SameLive(WithTable(Restrict(ts, survivors), target, Merge(ts, major)), ts)
  }

  lemma SurvivorFiles(ts: Tables, survivors: set<nat>, target: nat, major: bool)
    requires target !in ts
    ensures Replaced(ts, ts.Keys, target, major) + Restrict(ts, survivors)
         == WithTable(Restrict(ts, survivors), target, Merge(ts, major))
  {
    assert Restrict(ts, ts.Keys) == ts;
    hide Merge;
  }

  lemma SurvivorsReopen(ts: Tables, survivors: set<nat>, target: nat, major: bool)
    requires forall c :: c in ts ==> c < target
    requires major ==> UpwardClosed(ts.Keys, survivors)
    ensures SameLive(WithTable(Restrict(ts, survivors), target, Merge(ts, major)), ts)
  {
    var none: Tables := map[];
    var after := Replaced(ts, ts.Keys, target, major);
    assert Restrict(ts, ts.Keys) == ts && none + ts == ts && ts + none == ts;
    DormantAfterReplace(ts, none, ts.Keys, target, major);
    if major {
      SurvivorsShow(after, ts, survivors);
    } else {
      ShadowedAfterReplace(ts, none, ts.Keys, target);
      ShadowedShow(after, ts, survivors);
    }
    ReplaceKeepsView(ts, ts.Keys, target, major);
    SurvivorFiles(ts, survivors, target, major);
    SameLiveTrans(after + Restrict(ts, survivors), after, ts);
  }

  lemma SameLiveTrans(a: Tables, b: Tables, c: Tables)
    requires SameLive(a, b) && SameLive(b, c)
    ensures SameLive(a, c)
  {
    forall k ensures Live(Newest(a, k)) == Live(Newest(c, k)) {
      assert Live(Newest(a, k)) == Live(Newest(b, k));
    }
  }

  lemma ReopensSameWhen(snap: set<nat>, survivors: set<nat>, target: nat, major: bool)
    requires survivors <= snap && forall c :: c in snap ==> c < target
    requires major ==> UpwardClosed(snap, survivors)
    ensures ReopensSame(snap, survivors, target, major)
  {
    forall ts: Tables | ts.Keys == snap
      ensures SameLive(WithTable(Restrict(ts, survivors), target, Merge(ts, major)), ts)
    {
      SurvivorsReopen(ts, survivors, target, major);
    }
  }

  lemma LostTombstoneRevives(snap: set<nat>, survivors: set<nat>, target: nat, s: nat, r: nat)
    requires survivors <= snap && forall c :: c in snap ==> c < target
    requires s in survivors && r in snap && r !in survivors && s < r
    ensures !ReopensSame(snap, survivors, target, true)
  {
    var k := Key(0, 0);
    var ts := Clash(snap, s, CellOf(false, 0), r, CellOf(true, 0));
    ClashView(snap, s, CellOf(false, 0), r, CellOf(true, 0));
    MergeFind(ts, true, k);
    var files := WithTable(Restrict(ts, survivors), target, Merge(ts, true));
    assert IsTop(files, k, s);
    TopCell(files, k, s);
    assert Live(Newest(files, k)) == Some([0]) && Live(Newest(ts, k)) == None;
    assert ts.Keys == snap;
  }

  /**
   * After a minor compaction any subset of the old files may survive a crash. After a major one the
   * reopened view is right, whatever the tables held, exactly for upward-closed survivors.
   */
  lemma CrashDuringUnlinkIff(snap: set<nat>, survivors: set<nat>, target: nat, major: bool)
    requires survivors <= snap && forall c :: c in snap ==> c < target
    ensures ReopensSame(snap, survivors, target, major) <==> (major ==> UpwardClosed(snap, survivors))
  {
    if major ==> UpwardClosed(snap, survivors) {
      ReopensSameWhen(snap, survivors, target, major);
    } else {
      var s, r :| s in survivors && r in snap && s < r && r !in survivors;
      LostTombstoneRevives(snap, survivors, target, s, r);
    }
  }

  /**
   * ReplaceTables releases the old tables in list order, newest first, so a crash part-way through
   * leaves the older ones: unsafe after a major compaction until the last file is gone.
   */
  lemma NewestFirstOrderIsUnsafe(snap: set<nat>, cut: nat, target: nat)
    requires forall c :: c in snap ==> c < target
    requires exists kept, gone :: kept in snap && gone in snap && kept < cut <= gone
    ensures var survivors := set g | g in snap && g < cut; !ReopensSame(snap, survivors, target, true)
  {
    var survivors := set g | g in snap && g < cut;
    var kept, gone :| kept in snap && gone in snap && kept < cut <= gone;
    assert kept in survivors && gone !in survivors;
    CrashDuringUnlinkIff(snap, survivors, target, true);
  }
}
