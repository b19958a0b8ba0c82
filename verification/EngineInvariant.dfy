/** Every step keeps the engine's invariant. */
module EngineInvariant {
  import opened Base
  import opened History
  import opened Generations
  import opened Compaction
  import opened Unlinking
  import opened SegmentLog
  import opened Engine

  // ----- the memtables and the log

  ghost predicate LogInv(st: State) {
    MemInv(st) && WalInv(st) && FlushInv(st)
  }

  /** Nothing that concerns tables and generations has changed. */
  ghost predicate SameTables(st: State, st': State) {
    && st'.list == st.list && st'.files == st.files && st'.nextGen == st.nextGen
    && st'.flush == st.flush && st'.compact == st.compact
    && st'.retired == st.retired && st'.majors == st.majors && st'.stored == st.stored
    && st.stored <= |st.history| <= |st'.history| && st'.history[..st.stored] == st.history[..st.stored]
    && (st.flush.FlushWritten? && st.flush.mem < |st.mems| ==>
          st.flush.mem < |st'.mems| && st'.mems[st.flush.mem].contents == st.mems[st.flush.mem].contents)
    && (st.flush.FlushWritten? ==> st.flush.mem < |st.mems|)
  }

  lemma SameTablesKeep(st: State, st': State)
    requires SameTables(st, st') && GenInv(st) && TableInv(st)
    ensures GenInv(st') && TableInv(st')
  {
    assert ExpectedFiles(st') == ExpectedFiles(st);
  }

  lemma LoggedLast(log: seq<seq<Entry>>, rotate: bool, op: Entry)
    requires log != []
    ensures var log' := Appended(log, rotate, op);
            && Flat(log') == Flat(log) + [op] && |log'| >= |log| && log'[|log'| - 1] != []
            && forall j :: 0 <= j < |log| ==> log'[..j] == log[..j]
  {
    FlatRotate(log);
    FlatAppend(if rotate then log + [[]] else log, op);
    hide Flat;
  }

  /** The log has grown by the pending record: it starts where it did, and sealed segments end there too. */
  lemma LogGrows(st: State, op: Entry, rotate: bool)
    requires st.log != [] && st.pending.None?
    ensures var st' := LogRecord(st, op, rotate);
            && Written(st) == st.history && Written(st') == st.history + [op]
            && Flat(st'.log) == Flat(st.log) + [op] && LogStart(st') == LogStart(st)
            && st'.log[|st'.log| - 1] != [] && Active(st') >= Active(st)
            && forall q :: st.base <= q < Active(st) ==> SealedEnd(st', q) == SealedEnd(st, q)
  {
    LoggedLast(st.log, rotate, op);
    hide Flat;
    hide Appended;
    assert st.history + [] == st.history;
  }

  lemma LogKeeps(st: State, op: Entry, rotate: bool)
    requires LogInv(st) && Enabled(st, Log(op, rotate))
    ensures LogInv(LogRecord(st, op, rotate))
  {
    LogGrows(st, op, rotate);
    hide Flat;
    hide Appended;
    hide Fold;
    hide SealedEnd;
    hide LogStart;
    var st' := LogRecord(st, op, rotate);
    assert Written(st)[LogStart(st)..] + [op] == Written(st')[LogStart(st)..];
  }

  lemma FoldAppend(h: seq<Entry>, op: Entry)
    ensures Fold(h + [op]) == Fold(h)[op.key := op.cell]
  {
    assert (h + [op])[..|h|] == h;
  }

  lemma SliceGrows(h: seq<Entry>, op: Entry, lo: nat)
    requires lo <= |h|
    ensures (h + [op])[lo..] == h[lo..] + [op]
    ensures forall i, j :: 0 <= i <= j <= |h| ==> (h + [op])[i..j] == h[i..j]
  {}

  lemma PutKeepsMem(st: State)
    requires MemInv(st) && Enabled(st, PutMem)
    ensures MemInv(PutPending(st))
  {
    var h, op, lo := st.history, st.pending.value, Mut(st).lo;
    SliceGrows(h, op, lo);
    FoldAppend(h[lo..], op);
    hide Fold;
    var st' := PutPending(st);
    assert st'.history == h + [op];
    assert Mut(st').contents == Fold(st'.history[lo..]);
    assert forall i :: 0 <= i < |st.mems| - 1 ==> st'.mems[i] == st.mems[i];
  }

  lemma PutKeeps(st: State)
    requires LogInv(st) && Enabled(st, PutMem)
    ensures LogInv(PutPending(st))
  {
    PutKeepsMem(st);
    assert Written(PutPending(st)) == Written(st);
  }

  lemma FreezeKeeps(st: State)
    requires LogInv(st) && Enabled(st, Freeze)
    ensures LogInv(FreezeMutable(st))
  {
    var st' := FreezeMutable(st);
    FlatRotate(st.log);
    assert st.log[..|st.log|] == st.log;
    assert st.history[Mut(st).lo..Mut(st).hi] == st.history[Mut(st).lo..];
    assert st.history[Mut(st').lo..] == [];
  }

  lemma ClearKeeps(st: State)
    requires LogInv(st) && Enabled(st, FlushClear)
    ensures LogInv(Do(st, FlushClear))
  {}

  /** Dropping the oldest segment moves the start of the log and nothing else. */
  lemma ReclaimMovesStart(st: State)
    requires st.mems != [] && Enabled(st, ReclaimSegment) && st.flush.sealed <= Active(st)
    ensures var st' := Do(st, ReclaimSegment);
            && LogStart(st') == LogStart(st) + |st.log[0]| == SealedEnd(st, st.base)
            && Flat(st.log) == st.log[0] + Flat(st'.log)
            && LogStart(st') <= SealedEnd(st, st.flush.sealed)
            && forall q :: st.base < q <= Active(st) ==> SealedEnd(st', q) == SealedEnd(st, q)
  {
    var st' := Do(st, ReclaimSegment);
    assert st'.log == st.log[1..] && st'.base == st.base + 1 && Written(st') == Written(st);
    forall j | 0 < j <= |st.log| ensures Flat(st.log[..j]) == st.log[0] + Flat(st'.log[..j - 1]) {
      FlatFirst(st.log, j);
    }
    assert st.log[..|st.log|] == st.log && st'.log[..|st'.log|] == st'.log && st'.log[..0] == [];
    assert Flat([]) == [];
    hide Flat;
    hide Do;
    hide Written;
  }

  lemma ReclaimKeepsWal(st: State)
    requires LogInv(st) && Enabled(st, ReclaimSegment)
    ensures MemInv(Do(st, ReclaimSegment)) && WalInv(Do(st, ReclaimSegment))
  {
    ReclaimMovesStart(st);
    var st' := Do(st, ReclaimSegment);
    var w := Written(st);
    assert w[LogStart(st')..] == w[LogStart(st)..][|st.log[0]|..];
    assert st'.log[|st'.log| - 1] == st.log[|st.log| - 1];
  }

  lemma ReclaimKeeps(st: State)
    requires LogInv(st) && Enabled(st, ReclaimSegment)
    ensures LogInv(Do(st, ReclaimSegment))
  {
    ReclaimKeepsWal(st);
    ReclaimMovesStart(st);
  }

  lemma ReplayedIsSuffix(st: State, keep: bool, torn: bool)
    requires LogInv(st)
    ensures var h := Reopened(st, keep, torn).history;
            0 <= LogStart(st) <= |h| && Flat(Surviving(st, keep)) == h[LogStart(st)..]
  {
    if st.pending.Some? && !keep {
      FlatDropLast(st.log);
      assert Written(st)[LogStart(st)..] == st.history[LogStart(st)..] + [st.pending.value];
    }
  }

  lemma CrashKeepsLog(st: State, keep: bool, torn: bool)
    requires LogInv(st)
    requires st.flush.FlushWritten? ==> st.flush.mem < |st.mems|
    ensures LogInv(Reopened(st, keep, torn))
  {
    var st' := Reopened(st, keep, torn);
    ReplayedIsSuffix(st, keep, torn);
    assert Written(st') == st'.history;
    assert LogStart(st') == LogStart(st);
  }

  // ----- the tables and the files

  lemma StackShows(ts: Tables, h: seq<Entry>, g: nat, lo: nat, p: nat, hi: nat)
    requires lo <= p <= hi <= |h| && forall x :: x in ts ==> x < g
    requires ShowsLive(ts, Fold(h[..p]))
    ensures ShowsLive(ts[g := Fold(h[lo..hi])], Fold(h[..hi]))
  {
    var c := Fold(h[lo..hi]);
    assert h[..hi][..p] == h[..p] && h[..hi][lo..] == h[lo..hi];
    FoldOverlap(h[..hi], lo, p);
    forall k ensures Live(Newest(ts[g := c], k)) == Live(Find(Fold(h[..hi]), k)) {
      AddOnTop(ts, g, c, k);
    }
  }

  lemma FlushWriteKeeps(st: State)
    requires GenInv(st) && st.stored <= |st.history| && TableInv(st) && Enabled(st, FlushWrite)
    ensures GenInv(Do(st, FlushWrite)) && TableInv(Do(st, FlushWrite))
  {
    var st' := Do(st, FlushWrite);
    assert Restrict(st.retired, st'.files.Keys) == Restrict(st.retired, st.files.Keys);
  }

  lemma AddCommutes(list: Tables, others: Tables, g: nat, c: Contents, t: nat, out: Contents, snap: set<nat>)
    requires g !in others && g != t && g !in snap
    ensures list[g := c] + others == (list + others)[g := c]
    ensures WithTable((list + others)[g := c], t, out) == WithTable(list + others, t, out)[g := c]
    ensures Restrict(list[g := c], snap) == Restrict(list, snap)
  {}

  lemma PublishedFiles(st: State)
    requires GenInv(st) && st.files == ExpectedFiles(st)
    requires Enabled(st, FlushPublish) && Disciplined(st, FlushPublish) && st.flush.mem < |st.mems|
    ensures Do(st, FlushPublish).files == ExpectedFiles(Do(st, FlushPublish))
  {
    var g, c := st.flush.gen, st.mems[st.flush.mem].contents;
    var others := Restrict(st.retired, st.files.Keys);
    if st.compact.CompactWritten? {
      var out := Merge(Restrict(st.list, st.compact.snap), st.compact.major);
      AddCommutes(st.list, others, g, c, st.compact.target, out, st.compact.snap);
    } else {
      AddCommutes(st.list, others, g, c, g + 1, c, {});
    }
  }

  lemma AddKeepsShadowed(list: Tables, retired: Tables, g: nat, c: Contents)
    requires Shadowed(list, retired) && g !in list && g !in retired
    ensures Shadowed(list[g := c], retired)
  {
    var list' := list[g := c];
    forall r, k | r in retired && k in retired[r] ensures exists x :: x in list' && r < x && k in list'[x] {
      var x :| x in list && r < x && k in list[x];
      assert x in list' && list'[x] == list[x];
    }
  }

  lemma PublishKeeps(st: State)
    requires Inv(st) && Enabled(st, FlushPublish) && Disciplined(st, FlushPublish)
    ensures GenInv(Do(st, FlushPublish)) && TableInv(Do(st, FlushPublish))
  {
    var st' := Do(st, FlushPublish);
    var imm := st.mems[st.flush.mem];
    assert st.files[st.flush.gen] == imm.contents == Fold(st.history[imm.lo..imm.hi]);
    StackShows(st.list, st.history, st.flush.gen, imm.lo, st.stored, imm.hi);
    PublishKeepsDormant(st.list, st.retired, st.flush.gen, imm.contents);
    PublishedFiles(st);
    if !st.majors {
      AddKeepsShadowed(st.list, st.retired, st.flush.gen, imm.contents);
    }
  }

  lemma WriteMergedFiles(st: State)
    requires GenInv(st) && st.files == ExpectedFiles(st) && Enabled(st, CompactWrite)
    ensures Do(st, CompactWrite).files == ExpectedFiles(Do(st, CompactWrite))
  {
    var st' := Do(st, CompactWrite);
    var t := st.compact.target;
    assert t !in st.retired;
    var others := Restrict(st.retired, st.files.Keys);
    assert Restrict(st.retired, st'.files.Keys) == others;
    if st.flush.FlushWritten? && st.flush.mem < |st.mems| {
      var out := Merge(Restrict(st.list, st.compact.snap), st.compact.major);
      AddCommutes(st.list, others, st.flush.gen, st.mems[st.flush.mem].contents, t, out, {});
    }
  }

  lemma RetireCommutes(list: Tables, retired: Tables, onDisk: set<nat>, snap: set<nat>, t: nat, out: Contents)
    requires snap <= list.Keys && list.Keys !! retired.Keys && t !in list && t !in retired
    requires snap <= onDisk
    ensures WithTable(list - snap, t, out) + Restrict(retired + Restrict(list, snap), onDisk)
         == WithTable(list + Restrict(retired, onDisk), t, out)
  {}

  lemma FilesHold(st: State)
    requires GenInv(st) && st.files == ExpectedFiles(st)
    ensures st.list.Keys <= st.files.Keys
  {}

  lemma ShowsTrans(a: Tables, b: Tables, m: Contents)
    requires SameLive(a, b) && ShowsLive(b, m)
    ensures ShowsLive(a, m)
  {
    hide Newest;
  }

  lemma ReplaceKeepsGen(st: State)
    requires GenInv(st) && Enabled(st, CompactReplace)
    ensures GenInv(Do(st, CompactReplace))
  {
    hide Merge;
  }

  lemma ReplacedFiles(st: State)
    requires GenInv(st) && st.files == ExpectedFiles(st) && Enabled(st, CompactReplace)
    requires st.list.Keys !! st.retired.Keys
    ensures Do(st, CompactReplace).files == ExpectedFiles(Do(st, CompactReplace))
  {
    var c := st.compact;
    hide Merge;
    FilesHold(st);
    RetireCommutes(st.list, st.retired, st.files.Keys, c.snap, c.target, Merge(Restrict(st.list, c.snap), c.major));
  }

  lemma ReplaceKeeps(st: State)
    requires GenInv(st) && st.stored <= |st.history| && TableInv(st) && Enabled(st, CompactReplace)
    ensures GenInv(Do(st, CompactReplace)) && TableInv(Do(st, CompactReplace))
  {
    var c := st.compact;
    ReplaceKeepsGen(st);
    ReplacedFiles(st);
    hide Merge;
    hide ExpectedFiles;
    hide SameLive;
    hide ShowsLive;
    ReplaceKeepsView(st.list, c.snap, c.target, c.major);
    ShowsTrans(Replaced(st.list, c.snap, c.target, c.major), st.list, Fold(st.history[..st.stored]));
    DormantAfterReplace(st.list, st.retired, c.snap, c.target, c.major);
    if !st.majors && !c.major {
      ShadowedAfterReplace(st.list, st.retired, c.snap, c.target);
    }
  }

  lemma RestrictDrop(list: Tables, retired: Tables, onDisk: set<nat>, g: nat)
    requires g !in list
    ensures list + Restrict(retired, onDisk - {g}) == (list + Restrict(retired, onDisk)) - {g}
  {}

  lemma DropCommutes(ts: Tables, f: nat, c: Contents, g: nat)
    requires f != g
    ensures ts[f := c] - {g} == (ts - {g})[f := c]
  {}

  lemma UnlinkKeeps(st: State, g: nat)
    requires GenInv(st) && st.stored <= |st.history| && TableInv(st) && Enabled(st, Unlink(g))
    ensures GenInv(Do(st, Unlink(g))) && TableInv(Do(st, Unlink(g)))
  {
    var st' := Do(st, Unlink(g));
    assert st'.files.Keys == st.files.Keys - {g};
    var kept := st.list + Restrict(st.retired, st.files.Keys);
    RestrictDrop(st.list, st.retired, st.files.Keys, g);
    var merged := kept;
    if st.compact.CompactWritten? {
      var out := Merge(Restrict(st.list, st.compact.snap), st.compact.major);
      DropCommutes(kept, st.compact.target, out, g);
      merged := WithTable(kept, st.compact.target, out);
    }
    if st.flush.FlushWritten? && st.flush.mem < |st.mems| {
      DropCommutes(merged, st.flush.gen, st.mems[st.flush.mem].contents, g);
    }
  }

  // ----- crash and recovery

  /** The retired files still on disk are harmless, next to the list or to the merged file as well. */
  lemma KeptShows(list: Tables, retired: Tables, onDisk: set<nat>, majors: bool)
    requires Dormant(list, retired) && (!majors ==> Shadowed(list, retired))
    requires majors ==> UpwardClosed(retired.Keys, retired.Keys * onDisk)
    ensures SameLive(list + Restrict(retired, onDisk), list)
  {
    assert Restrict(retired, onDisk) == Restrict(retired, retired.Keys * onDisk);
    if majors {
      SurvivorsShow(list, retired, retired.Keys * onDisk);
    } else {
      ShadowedShow(list, retired, onDisk);
    }
  }

  lemma MergeBeside(list: Tables, others: Tables, t: nat, out: Contents)
    requires t !in others
    ensures WithTable(list, t, out) + others == WithTable(list + others, t, out)
  {}

  lemma MergedKeptShows(list: Tables, retired: Tables, onDisk: set<nat>, majors: bool, c: Compact)
    requires c.CompactWritten? && InOrder(list.Keys, c.snap, c.target, c.major) && c.target !in list
    requires forall r :: r in retired ==> r < c.target
    requires Dormant(list, retired) && (!majors ==> Shadowed(list, retired))
    requires majors ==> UpwardClosed(retired.Keys, retired.Keys * onDisk)
    ensures SameLive(WithTable(list + Restrict(retired, onDisk), c.target, Merge(Restrict(list, c.snap), c.major)),
                     list)
  {
    var out := Merge(Restrict(list, c.snap), c.major);
    var a := WithTable(list, c.target, out);
    if !majors && out != map[] {
      AddKeepsShadowed(list, retired, c.target, out);
    }
    DormantBesideMerge(list, retired, c.snap, c.target, c.major);
    KeptShows(a, retired, onDisk, majors);
    MergedBesideSources(list, c.snap, c.target, c.major);
    MergeBeside(list, Restrict(retired, onDisk), c.target, out);
    SameLiveTrans(a + Restrict(retired, onDisk), a, list);
  }

  /** What Load finds on disk shows the stored prefix of the history. */
  lemma DiskShows(st: State)
    requires Inv(st)
    requires st.majors ==> UpwardClosed(st.retired.Keys, st.retired.Keys * st.files.Keys)
    ensures Reopened(st, false, false).stored <= |st.history|
    ensures ShowsLive(st.files, Fold(st.history[..Reopened(st, false, false).stored]))
  {
    var kept := st.list + Restrict(st.retired, st.files.Keys);
    var merged := kept;
    if st.compact.CompactWritten? {
      MergedKeptShows(st.list, st.retired, st.files.Keys, st.majors, st.compact);
      merged := WithTable(kept, st.compact.target, Merge(Restrict(st.list, st.compact.snap), st.compact.major));
    } else {
      KeptShows(st.list, st.retired, st.files.Keys, st.majors);
    }
    assert ShowsLive(merged, Fold(st.history[..st.stored]));
    if st.flush.FlushWritten? {
      var imm := st.mems[st.flush.mem];
      StackShows(merged, st.history, st.flush.gen, imm.lo, st.stored, imm.hi);
    }
  }

  lemma MaxGenBounds(gens: set<nat>, g: nat)
    requires g in gens
    ensures g <= MaxGen(gens)
  {
    var top := LargestOf(gens, g);
  }

  lemma {:induction false} LargestOf(gens: set<nat>, g: nat) returns (top: nat)
    requires g in gens
    ensures top in gens && forall h :: h in gens ==> h <= top
    decreases gens
  {
    if h :| h in gens && h > g {
      top := LargestOf(gens - {g}, h);
      assert forall x :: x in gens ==> x == g || x in gens - {g};
    } else {
      top := g;
    }
  }

  lemma ReopenedTables(st: State, keep: bool, torn: bool)
    requires Inv(st) && Disciplined(st, Crash(keep, torn))
    ensures Reopened(st, keep, torn).stored <= |Reopened(st, keep, torn).history|
    ensures GenInv(Reopened(st, keep, torn)) && TableInv(Reopened(st, keep, torn))
  {
    var st' := Reopened(st, keep, torn);
    DiskShows(st);
    FreshTables(st');
    assert st'.history[..st'.stored] == st.history[..st'.stored];
  }

  lemma FreshTables(st: State)
    requires st.retired == map[] && st.list == st.files && st.nextGen == MaxGen(st.files.Keys)
    requires st.flush.FlushIdle? && st.compact.CompactIdle?
    ensures GenInv(st) && Dormant(st.list, st.retired) && Shadowed(st.list, st.retired)
    ensures st.files == ExpectedFiles(st)
  {
    forall g | g in st.list ensures g <= st.nextGen {
      MaxGenBounds(st.files.Keys, g);
    }
    var none: Tables := map[];
    assert st.list + none == st.list;
  }

  // ----- runs

  lemma WriterKeepsInv(st: State, step: Step)
    requires Inv(st) && Enabled(st, step)
    requires step.Log? || step.PutMem? || step.Freeze?
    ensures Inv(Do(st, step))
  {
    var st' := Do(st, step);
    match step {
      case Log(op, rotate) => LogKeeps(st, op, rotate);
      case PutMem =>
        PutKeeps(st);
        assert st'.history[..st.stored] == st.history[..st.stored];
      case Freeze => FreezeKeeps(st);
    }
    SameTablesKeep(st, st');
  }

  lemma QuietKeepsTables(st: State, st': State)
    requires GenInv(st) && st.stored <= |st.history| && TableInv(st)
    requires st' == st.(flush := st'.flush, compact := st'.compact, imm := st'.imm, nextGen := st'.nextGen)
    requires st.flush.FlushWritten? == st'.flush.FlushWritten? == false
    requires st.compact == st'.compact || !(st.compact.CompactWritten? || st'.compact.CompactWritten?)
    ensures TableInv(st')
  {
    assert ExpectedFiles(st') == ExpectedFiles(st);
  }

  /** Steps that touch neither the memtables nor the log. */
  lemma SameLogKeeps(st: State, st': State)
    requires LogInv(st)
    requires st'.mems == st.mems && st'.imm == st.imm && st'.immSegment == st.immSegment
    requires st'.base == st.base && st'.log == st.log && st'.pending == st.pending
    requires st'.history == st.history && st'.stored == st.stored
    requires st'.flush == st.flush
          || st'.flush.FlushIdle?
          || (st.imm.Some? && st'.flush == FlushBegun(st.imm.value, st.immSegment))
          || (!st.flush.FlushIdle? && !st.flush.FlushReclaiming?
              && (st'.flush.FlushNumbered? || st'.flush.FlushWritten?)
              && st'.flush.mem == st.flush.mem && st'.flush.sealed == st.flush.sealed)
    ensures LogInv(st')
  {
    assert LogStart(st') == LogStart(st);
  }

  lemma PublishKeepsLog(st: State)
    requires LogInv(st) && Enabled(st, FlushPublish)
    ensures LogInv(Do(st, FlushPublish))
  {}

  lemma BeginKeepsInv(st: State)
    requires Inv(st) && Enabled(st, FlushBegin)
    ensures Inv(Do(st, FlushBegin))
  {
    SameLogKeeps(st, Do(st, FlushBegin));
    QuietKeepsTables(st, Do(st, FlushBegin));
  }

  lemma NumberKeepsInv(st: State)
    requires Inv(st) && Enabled(st, FlushNumber)
    ensures Inv(Do(st, FlushNumber))
  {
    SameLogKeeps(st, Do(st, FlushNumber));
    QuietKeepsTables(st, Do(st, FlushNumber));
  }

  lemma WriteKeepsInv(st: State)
    requires Inv(st) && Enabled(st, FlushWrite)
    ensures Inv(Do(st, FlushWrite))
  {
    SameLogKeeps(st, Do(st, FlushWrite));
    FlushWriteKeeps(st);
  }

  lemma PublishKeepsInv(st: State)
    requires Inv(st) && Enabled(st, FlushPublish) && Disciplined(st, FlushPublish)
    ensures Inv(Do(st, FlushPublish))
  {
    PublishKeepsLog(st);
    PublishKeeps(st);
  }

  lemma ClearKeepsInv(st: State)
    requires Inv(st) && Enabled(st, FlushClear)
    ensures Inv(Do(st, FlushClear))
  {
    ClearKeeps(st);
    QuietKeepsTables(st, Do(st, FlushClear));
  }

  lemma ReclaimKeepsInv(st: State)
    requires Inv(st) && Enabled(st, ReclaimSegment)
    ensures Inv(Do(st, ReclaimSegment))
  {
    ReclaimKeeps(st);
    SameTablesKeep(st, Do(st, ReclaimSegment));
  }

  lemma EndKeepsInv(st: State)
    requires Inv(st) && Enabled(st, FlushEnd)
    ensures Inv(Do(st, FlushEnd))
  {
    SameLogKeeps(st, Do(st, FlushEnd));
    QuietKeepsTables(st, Do(st, FlushEnd));
  }

  lemma CompactStartKeepsTables(st: State, step: Step)
    requires GenInv(st) && st.stored <= |st.history| && TableInv(st) && Enabled(st, step) && Disciplined(st, step)
    requires step.CompactCapture? || step.CompactNumber?
    ensures GenInv(Do(st, step)) && TableInv(Do(st, step))
  {
    assert ExpectedFiles(Do(st, step)) == ExpectedFiles(st);
  }

  lemma CompactKeepsInv(st: State, step: Step)
    requires Inv(st) && Enabled(st, step) && Disciplined(st, step)
    requires step.CompactCapture? || step.CompactNumber? || step.CompactWrite? || step.CompactReplace? || step.Unlink?
    ensures Inv(Do(st, step))
  {
    SameLogKeeps(st, Do(st, step));
    match step {
      case CompactCapture(_, _) => CompactStartKeepsTables(st, step);
      case CompactNumber => CompactStartKeepsTables(st, step);
      case CompactWrite => WriteMergedFiles(st);
      case CompactReplace => ReplaceKeeps(st);
      case Unlink(gen) => UnlinkKeeps(st, gen);
    }
  }

  lemma StepKeepsInv(st: State, step: Step)
    requires Inv(st) && Enabled(st, step) && Disciplined(st, step)
    ensures Inv(Do(st, step))
  {
    match step {
      case Log(_, _) => WriterKeepsInv(st, step);
      case PutMem => WriterKeepsInv(st, step);
      case Freeze => WriterKeepsInv(st, step);
      case FlushBegin => BeginKeepsInv(st);
      case FlushNumber => NumberKeepsInv(st);
      case FlushWrite => WriteKeepsInv(st);
      case FlushPublish => PublishKeepsInv(st);
      case FlushClear => ClearKeepsInv(st);
      case ReclaimSegment => ReclaimKeepsInv(st);
      case FlushEnd => EndKeepsInv(st);
      case Crash(keep, torn) =>
        CrashKeepsLog(st, keep, torn);
        ReopenedTables(st, keep, torn);
      case _ => CompactKeepsInv(st, step);
    }
  }
}
