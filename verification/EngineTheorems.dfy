/** What holds in every run of the engine, whatever the interleaving. */
module EngineTheorems {
  import opened Base
  import opened History
  import opened Generations
  import opened Compaction
  import opened Unlinking
  import opened SegmentLog
  import opened Engine
  import opened EngineInvariant

  ghost predicate IsRun(states: seq<State>, steps: seq<Step>) {
    && |states| == |steps| + 1 && states[0] == Init
    && forall i :: 0 <= i < |steps| ==> Next(states[i], steps[i], states[i + 1])
  }

  datatype Intent = Intent(done: seq<Entry>, pending: Option<Entry>)

  /** The writes a sequence of steps has performed, read off the steps alone. */
  ghost function Performed(steps: seq<Step>): Intent {
    if steps == [] then Intent([], None) else
    var before := Performed(steps[..|steps| - 1]);
    match steps[|steps| - 1]
    case Log(op, _) => Intent(before.done, Some(op))
    case PutMem => if before.pending.Some? then Intent(before.done + [before.pending.value], None) else before
    case Crash(keep, _) =>
      Intent(if keep && before.pending.Some? then before.done + [before.pending.value] else before.done, None)
    case _ => before
  }

  lemma InitInv()
    ensures Inv(Init)
  {
    assert Flat([[]]) == Flat([[]][..0]) + [];
    var none: Tables := map[];
    assert none + none == none;
    assert ExpectedFiles(Init) == none;
    assert forall k :: Newest(none, k) == None;
  }

  lemma {:induction false} RunKeepsInv(states: seq<State>, steps: seq<Step>, i: nat)
    requires IsRun(states, steps) && i < |states|
    ensures Inv(states[i])
  {
    if i == 0 {
      InitInv();
    } else {
      RunKeepsInv(states, steps, i - 1);
      assert Next(states[i - 1], steps[i - 1], states[i]);
      StepKeepsInv(states[i - 1], steps[i - 1]);
    }
  }

  lemma {:induction false} HistoryIsPerformed(states: seq<State>, steps: seq<Step>, i: nat)
    requires IsRun(states, steps) && i < |states|
    ensures Performed(steps[..i]) == Intent(states[i].history, states[i].pending)
  {
    if i > 0 {
      HistoryIsPerformed(states, steps, i - 1);
      assert Next(states[i - 1], steps[i - 1], states[i]);
      assert steps[..i][..i - 1] == steps[..i - 1];
    }
  }

  /** In a state that keeps the invariant, the layers together show the folded history. */
  lemma ViewShowsHistory(st: State, k: Key)
    requires Inv(st)
    ensures Live(View(st, k)) == Live(Find(Fold(st.history), k))
  {
    var h := st.history;
    var mut := Mut(st);
    if st.imm.Some? {
      var imm := st.mems[st.imm.value];
      var upTo := h[..imm.hi];
      assert upTo[..st.stored] == h[..st.stored] && upTo[imm.lo..] == h[imm.lo..imm.hi];
      FoldOverlap(upTo, imm.lo, st.stored);
      FoldOverlap(h, mut.lo, imm.hi);
    } else {
      FoldOverlap(h, mut.lo, st.stored);
    }
  }

  /** View refinement: every reachable state shows exactly the writes performed so far. */
  lemma ViewRefinesHistory(states: seq<State>, steps: seq<Step>, i: nat, k: Key)
    requires IsRun(states, steps) && i < |states|
    ensures states[i].mems != []
    ensures Live(View(states[i], k)) == Live(Find(Fold(Performed(steps[..i]).done), k))
  {
    RunKeepsInv(states, steps, i);
    HistoryIsPerformed(states, steps, i);
    ViewShowsHistory(states[i], k);
  }

  lemma RunHasLog(states: seq<State>, steps: seq<Step>, i: nat)
    requires IsRun(states, steps) && i < |states|
    ensures i <= |steps| && states[i].log != [] && states[i].mems != []
  {
    RunKeepsInv(states, steps, i);
  }

  /**
   * Crash recovery: crash after any step, and reopening shows every acknowledged write, plus the
   * one in flight if its record survived.
   */
  lemma CrashRecovery(states: seq<State>, steps: seq<Step>, i: nat, keep: bool, torn: bool, k: Key)
    requires IsRun(states, steps) && i < |states| && Disciplined(states[i], Crash(keep, torn))
    ensures states[i].log != []
    ensures var st' := Reopened(states[i], keep, torn);
            var did := Performed(steps[..i]);
            var expected := did.done + if keep && did.pending.Some? then [did.pending.value] else [];
            Inv(st') && Live(View(st', k)) == Live(Find(Fold(expected), k))
  {
    hide Inv;
    hide IsRun;
    hide View;
    hide Fold;
    RunHasLog(states, steps, i);
    RunKeepsInv(states, steps, i);
    HistoryIsPerformed(states, steps, i);
    StepKeepsInv(states[i], Crash(keep, torn));
    ViewShowsHistory(Reopened(states[i], keep, torn), k);
    var did := Performed(steps[..i]);
    assert did.done + [] == did.done;
  }

  /** The segments hold everything logged from position `from` on, both memtables included. */
  ghost predicate LogCovers(st: State, from: nat) {
    && st.mems != [] && from <= |Written(st)| && Flat(st.log) == Written(st)[from..]
    && from <= Mut(st).lo <= |st.history|
    && Mut(st).contents == Fold(Flat(st.log)[Mut(st).lo - from..|st.history| - from])
    && (st.imm.Some? ==>
          && st.imm.value < |st.mems|
          && var imm := st.mems[st.imm.value];
          && from <= imm.lo <= imm.hi <= |st.history|
          && imm.contents == Fold(Flat(st.log)[imm.lo - from..imm.hi - from]))
  }

  lemma SliceOfSuffix(w: seq<Entry>, h: seq<Entry>, from: nat, lo: nat, hi: nat)
    requires h <= w && from <= lo <= hi <= |h|
    ensures w[from..][lo - from..hi - from] == h[lo..hi]
  {}

  lemma InvLogCovers(st: State)
    requires LogInv(st)
    ensures LogStart(st) >= 0 && LogCovers(st, LogStart(st))
  {
    var from := LogStart(st);
    var w := Written(st);
    SliceOfSuffix(w, st.history, from, Mut(st).lo, |st.history|);
    assert st.history[Mut(st).lo..|st.history|] == st.history[Mut(st).lo..];
    hide FlushInv;
    hide Fold;
    if st.imm.Some? {
      var imm := st.mems[st.imm.value];
      SliceOfSuffix(w, st.history, from, imm.lo, imm.hi);
    }
  }

  /**
   * Reclaim safety: the surviving segments hold a suffix of everything logged, and both memtables
   * can be rebuilt from it.
   */
  lemma ReclaimSafety(states: seq<State>, steps: seq<Step>, i: nat)
    requires IsRun(states, steps) && i < |states|
    ensures exists from: nat :: LogCovers(states[i], from)
    ensures Written(states[i]) == Performed(steps[..i]).done
              + if Performed(steps[..i]).pending.Some? then [Performed(steps[..i]).pending.value] else []
  {
    RunKeepsInv(states, steps, i);
    HistoryIsPerformed(states, steps, i);
    InvLogCovers(states[i]);
  }

  // ----- linearizability of Get

  ghost predicate CrashFree(steps: seq<Step>, i: nat, j: nat) {
    i <= j <= |steps| && forall n :: i <= n < j ==> !steps[n].Crash?
  }

  lemma StepGrowsMems(st: State, step: Step)
    requires Inv(st) && Enabled(st, step) && !step.Crash?
    ensures var st' := Do(st, step);
            && |st.mems| <= |st'.mems|
            && forall m :: 0 <= m < |st.mems| ==>
                 && st.mems[m].contents.Keys <= st'.mems[m].contents.Keys
                 && (st.mems[m].frozen ==> st'.mems[m] == st.mems[m])
                 && (|st.mems| < |st'.mems| ==> st'.mems[m].contents == st.mems[m].contents && st'.mems[m].frozen)
  {}

  /** Memtables only grow, and a frozen one never changes again. */
  lemma {:induction false} MemsGrow(states: seq<State>, steps: seq<Step>, i: nat, j: nat)
    requires IsRun(states, steps) && CrashFree(steps, i, j)
    ensures |states[i].mems| <= |states[j].mems|
    ensures forall m :: 0 <= m < |states[i].mems| ==>
              && states[i].mems[m].contents.Keys <= states[j].mems[m].contents.Keys
              && (states[i].mems[m].frozen ==> states[j].mems[m] == states[i].mems[m])
    decreases j - i
  {
    if i < j {
      assert Next(states[i], steps[i], states[i + 1]);
      RunKeepsInv(states, steps, i);
      StepGrowsMems(states[i], steps[i]);
      MemsGrow(states, steps, i + 1, j);
    }
  }

  /** The instant at which a memtable seen at `j` had the same contents and was the mutable one. */
  lemma {:induction false} LastMutable(states: seq<State>, steps: seq<Step>, i: nat, j: nat) returns (l: nat)
    requires IsRun(states, steps) && CrashFree(steps, i, j) && states[i].mems != []
    ensures i <= l <= j && |states[l].mems| == |states[i].mems| <= |states[j].mems|
    ensures Mut(states[l]).contents == states[j].mems[|states[i].mems| - 1].contents
    decreases j - i
  {
    MemsGrow(states, steps, i, j);
    if |states[j].mems| == |states[i].mems| {
      l := j;
    } else {
      assert Next(states[i], steps[i], states[i + 1]);
      RunKeepsInv(states, steps, i);
      StepGrowsMems(states[i], steps[i]);
      MemsGrow(states, steps, i + 1, j);
      if |states[i + 1].mems| == |states[i].mems| {
        l := LastMutable(states, steps, i + 1, j);
      } else {
        l := i;
      }
    }
  }

  /** What Get returns when it captured at `i` and looked into the memtables at `a` and at `b`. */
  ghost function GetResult(captured: State, atMut: State, atImm: State, k: Key): Option<Cell>
    requires 0 < |captured.mems| <= |atMut.mems| && |captured.mems| <= |atImm.mems|
  {
    var mut := atMut.mems[|captured.mems| - 1].contents;
    var imm := if captured.imm.Some? && captured.imm.value < |captured.mems| then
        atImm.mems[captured.imm.value].contents else map[];
    Through(mut, imm, captured.list, k)
  }

  /**
   * Get is linearizable: it returns the value the abstract map had at some instant between the
   * capture and the lookup in the captured mutable memtable.
   */
  lemma GetLinearizable(states: seq<State>, steps: seq<Step>, i: nat, a: nat, b: nat, k: Key)
    requires IsRun(states, steps) && i <= a <= b && CrashFree(steps, i, b)
    ensures 0 < |states[i].mems| <= |states[a].mems| && |states[i].mems| <= |states[b].mems|
    ensures exists l :: i <= l <= a &&
              Live(GetResult(states[i], states[a], states[b], k)) == Live(Find(Fold(Performed(steps[..l]).done), k))
  {
    RunKeepsInv(states, steps, i);
    assert CrashFree(steps, i, a);
    MemsGrow(states, steps, i, a);
    MemsGrow(states, steps, i, b);
    if k in states[a].mems[|states[i].mems| - 1].contents {
      var l := LastMutable(states, steps, i, a);
      ViewRefinesHistory(states, steps, l, k);
      assert i <= l <= a;
    } else {
      ViewRefinesHistory(states, steps, i, k);
      assert i <= i <= a;
    }
  }

  // ----- who waits for whom

  /** The step can be taken, and it keeps the rules. */
  ghost predicate Ready(st: State, step: Step) {
    Enabled(st, step) && Disciplined(st, step)
  }

  /** What takes the engine lock waits for a writer that holds it, and unlinking for nobody. */
  ghost predicate WritersMove(st: State) {
    && (forall op, rotate :: Ready(st, Log(op, rotate)) <==> st.pending.None?)
    && (Ready(st, PutMem) <==> st.pending.Some?)
    && (Ready(st, Freeze) <==> st.pending.None? && st.imm.None?)
    && (Ready(st, FlushBegin) <==> st.pending.None? && st.flush.FlushIdle? && st.imm.Some?)
    && (forall gen :: Ready(st, Unlink(gen)) <==> gen in st.retired)
  }

  /** The next step of the flush under way, if there is one. */
  ghost predicate FlushMoves(st: State) {
    && (st.flush.FlushBegun? ==> Ready(st, FlushNumber))
    && (st.flush.FlushNumbered? ==> Ready(st, FlushWrite))
    && (st.flush.FlushWritten? ==> (Ready(st, FlushPublish) <==> !st.compact.CompactCaptured?))
    && (st.flush.FlushPublished? && st.pending.None? ==> Ready(st, FlushClear))
    && (st.flush.FlushReclaiming? ==> Ready(st, ReclaimSegment) || Ready(st, FlushEnd))
  }

  ghost predicate CompactionMoves(st: State) {
    && (st.compact.CompactCaptured? ==>
          (Ready(st, CompactNumber) <==> !st.flush.FlushNumbered? && !st.flush.FlushWritten?))
    && (st.compact.CompactNumbered? ==> Ready(st, CompactWrite))
    && (st.compact.CompactWritten? ==> Ready(st, CompactReplace))
    && forall snap, major :: Ready(st, CompactCapture(snap, major)) <==>
         && st.compact.CompactIdle? && snap != {} && snap <= st.list.Keys
         && (major ==> snap == st.list.Keys)
         && forall g, c :: g in st.list && g !in snap && c in snap ==> g < c
  }

  /** A crash that the recovery theorems cover: at any moment, but for these two conditions on the disk. */
  ghost predicate MayCrash(st: State) {
    && (st.tail.Torn? ==> st.tail.segment == st.base + |st.log| - 1 && !st.tail.appended)
    && (st.majors ==>
          forall s, r :: s in st.retired && s in st.files && r in st.retired && s < r ==> r in st.files)
  }

  /**
   * In every state of every run a writer waits for another writer only, a flush for a writer where it
   * begins and clears and for a compaction before it publishes, a compaction for a flush before it takes
   * its generation, and a crash for nobody: any other step can be taken whatever else is under way.
   */
  lemma NobodyWaits(states: seq<State>, steps: seq<Step>, i: nat)
    requires IsRun(states, steps) && i < |states|
    ensures var st := states[i];
            && WritersMove(st) && FlushMoves(st) && CompactionMoves(st)
            && (forall keep, torn :: Ready(st, Crash(keep, torn)) <==> MayCrash(st))
  {
    hide *;
    RunKeepsInv(states, steps, i);
    var st := states[i];
    WritersCanMove(st);
    FlushCanMove(st);
    CompactionCanMove(st);
    CrashCanCome(st);
  }

  lemma WritersCanMove(st: State)
    requires Inv(st)
    ensures WritersMove(st)
  {
    assert st.mems != [] && st.log != [];
    hide Inv;
    hide Merge;
  }

  lemma FlushCanMove(st: State)
    requires Inv(st)
    ensures FlushMoves(st)
  {
    hide GenInv;
    hide Merge;
    hide Fold;
    hide Flat;
  }

  lemma CrashCanCome(st: State)
    requires Inv(st)
    ensures forall keep, torn :: Ready(st, Crash(keep, torn)) <==> MayCrash(st)
  {
    hide TableInv;
    hide GenInv;
    hide FlushInv;
    hide Fold;
    hide Flat;
    UpwardClosedHere(st);
    hide UpwardClosed;
  }

  lemma UpwardClosedHere(st: State)
    ensures UpwardClosed(st.retired.Keys, st.retired.Keys * st.files.Keys) <==>
            forall s, r :: s in st.retired && s in st.files && r in st.retired && s < r ==> r in st.files
  {
    var survivors := st.retired.Keys * st.files.Keys;
    assert forall g :: g in survivors <==> g in st.retired && g in st.files;
    if UpwardClosed(st.retired.Keys, survivors) {
      forall s, r | s in st.retired && s in st.files && r in st.retired && s < r ensures r in st.files {
        assert s in survivors && r in st.retired.Keys;
      }
    }
  }

  lemma CompactionCanMove(st: State)
    requires Inv(st)
    ensures CompactionMoves(st)
  {
    hide TableInv;
    hide GenInv;
    hide FlushInv;
    hide Fold;
    hide Flat;
    forall snap, major ensures Ready(st, CompactCapture(snap, major)) <==>
      && st.compact.CompactIdle? && snap != {} && snap <= st.list.Keys
      && (major ==> snap == st.list.Keys)
      && forall g, c :: g in st.list && g !in snap && c in snap ==> g < c
    {
      CaptureRule(st, snap, major);
    }
  }

  /** A compacted range is the newest run of tables or, for a major compaction, all of them. */
  lemma CaptureRule(st: State, snap: set<nat>, major: bool)
    ensures snap != {} && snap <= st.list.Keys ==>
            (Disciplined(st, CompactCapture(snap, major)) <==>
             && (major ==> snap == st.list.Keys)
             && forall g, c :: g in st.list && g !in snap && c in snap ==> g < c)
  {
    if snap != {} && snap <= st.list.Keys {
      var c :| c in snap;
      assert snap == st.list.Keys <==> forall g :: g in st.list ==> g in snap;
    }
  }
}
