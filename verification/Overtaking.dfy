/** Why generations must be published in the order in which they are handed out. */
module Overtaking {
  import opened Base
  import opened History
  import opened Generations
  import opened Compaction
  import opened Engine
  import opened EngineInvariant
  import opened EngineTheorems
  import opened Sequential

  /** An execution the code allows, disciplined or not. */
  ghost predicate IsExecution(states: seq<State>, steps: seq<Step>) {
    && |states| == |steps| + 1
    && forall i :: 0 <= i < |steps| ==> Enabled(states[i], steps[i]) && states[i + 1] == Do(states[i], steps[i])
  }

  lemma ReplaceAll(list: Tables, target: nat, major: bool)
    requires Merge(list, major) != map[]
    ensures Replaced(list, list.Keys, target, major) == map[target := Merge(list, major)]
  {
    assert Restrict(list, list.Keys) == list;
    var none: Tables := map[];
    assert list - list.Keys == none;
  }

  lemma ReplaceAllStep(st: State, target: nat, out: Contents)
    requires st.mems != [] && st.log != [] && st.compact.CompactWritten? && st.compact.snap == st.list.Keys
    requires Replaced(st.list, st.compact.snap, st.compact.target, st.compact.major) == map[target := out]
    ensures Enabled(st, CompactReplace)
    ensures var s := Do(st, CompactReplace);
            && s.list == map[target := out] && s.mems == st.mems && s.imm == st.imm && s.flush == st.flush
            && s.pending == st.pending && s.history == st.history && s.log == st.log
  {}

  /** CompactAll takes its generation and runs to the end. */
  lemma WholeCompaction(st: State, out: Contents) returns (s1: State, s2: State, s3: State)
    requires st.mems != [] && st.log != [] && st.compact.CompactCaptured? && st.compact.snap == st.list.Keys
    requires Replaced(st.list, st.compact.snap, st.nextGen + 1, st.compact.major) == map[st.nextGen + 1 := out]
    ensures Enabled(st, CompactNumber) && s1 == Do(st, CompactNumber)
    ensures Enabled(s1, CompactWrite) && s2 == Do(s1, CompactWrite)
    ensures Enabled(s2, CompactReplace) && s3 == Do(s2, CompactReplace)
    ensures s3.list == map[st.nextGen + 1 := out]
    ensures s3.mems == st.mems && s3.imm == st.imm && s3.flush == st.flush && s3.pending == st.pending
    ensures s3.history == st.history && s3.log == st.log
  {
    s1 := Do(st, CompactNumber);
    s2 := Do(s1, CompactWrite);
    ReplaceAllStep(s2, st.nextGen + 1, out);
    s3 := Do(s2, CompactReplace);
  }

  /** A flush that already has its generation writes, publishes and clears its memtable. */
  lemma RestOfFlush(st: State) returns (s1: State, s2: State, s3: State)
    requires st.mems != [] && st.log != [] && st.pending.None?
    requires st.flush.FlushNumbered? && st.imm == Some(st.flush.mem) && st.flush.mem < |st.mems|
    ensures Enabled(st, FlushWrite) && s1 == Do(st, FlushWrite)
    ensures Enabled(s1, FlushPublish) && s2 == Do(s1, FlushPublish)
    ensures Enabled(s2, FlushClear) && s3 == Do(s2, FlushClear)
    ensures s3.list == st.list[st.flush.gen := st.mems[st.flush.mem].contents]
    ensures s3.mems == st.mems && s3.imm == None && s3.history == st.history
  {
    s1 := Do(st, FlushWrite);
    s2 := Do(s1, FlushPublish);
    s3 := Do(s2, FlushClear);
  }

  lemma MergedOnTop(list: Tables, major: bool, target: nat, g: nat, c: Contents, k: Key)
    requires g < target && Newest(list, k).Some? && !Newest(list, k).value.deleted
    ensures Merge(list, major) != map[]
    ensures Newest(map[target := Merge(list, major)][g := c], k) == Newest(list, k)
  {
    var out := Merge(list, major);
    MergeFind(list, major, k);
    assert IsTop(map[target := out][g := c], k, target);
    TopCell(map[target := out][g := c], k, target);
  }

  ghost predicate Overtakable(st: State) {
    && st.mems != [] && st.log != [] && st.pending.None?
    && st.flush.FlushNumbered? && st.imm == Some(st.flush.mem) && st.flush.mem < |st.mems|
    && st.compact.CompactCaptured? && st.compact.snap == st.list.Keys
  }

  lemma OvertakenRun(st: State, out: Contents) returns (states: seq<State>)
    requires Overtakable(st)
    requires Replaced(st.list, st.compact.snap, st.nextGen + 1, st.compact.major) == map[st.nextGen + 1 := out]
    ensures IsExecution(states, [CompactNumber, CompactWrite, CompactReplace, FlushWrite, FlushPublish, FlushClear])
    ensures states[0] == st
    ensures states[6].list == map[st.nextGen + 1 := out][st.flush.gen := st.mems[st.flush.mem].contents]
    ensures states[6].mems == st.mems && states[6].imm == None && states[6].history == st.history
  {
    var s1, s2, s3 := WholeCompaction(st, out);
    var s4, s5, s6 := RestOfFlush(s3);
    states := [st, s1, s2, s3, s4, s5, s6];
  }

  /**
   * A flush that took its generation before a running CompactAll takes the target generation is
   * published underneath the merged table, and the older merged value wins over its newer one.
   */
  lemma OvertakenFlushIsStale(st: State, k: Key) returns (states: seq<State>)
    requires Overtakable(st) && st.flush.gen <= st.nextGen
    requires k !in Mut(st).contents && k in ImmContents(st)
    requires Newest(st.list, k).Some? && !Newest(st.list, k).value.deleted
    requires Live(Newest(st.list, k)) != Live(View(st, k)) == Live(Find(Fold(st.history), k))
    ensures IsExecution(states, [CompactNumber, CompactWrite, CompactReplace, FlushWrite, FlushPublish, FlushClear])
    ensures states[0] == st && states[6].mems != [] && states[6].history == st.history
    ensures Live(View(states[6], k)) == Live(Newest(st.list, k)) != Live(Find(Fold(states[6].history), k))
  {
    hide Merge;
    hide Replaced;
    hide IsExecution;
    MergedOnTop(st.list, st.compact.major, st.nextGen + 1, st.flush.gen, ImmContents(st), k);
    ReplaceAll(st.list, st.nextGen + 1, st.compact.major);
    states := OvertakenRun(st, Merge(st.list, st.compact.major));
    assert View(states[6], k) == Newest(states[6].list, k);
  }

  // ----- such an execution starts in a state that a disciplined run reaches

  lemma FlushedOnce(k: Key, c: Cell) returns (st: State)
    ensures Good(st) && st.history == [Entry(k, c)] && Mut(st).contents == map[] && st.imm == None
    ensures st.list == map[1 := map[k := c]] && st.list != map[] && st.nextGen == 1
  {
    InitReachable();
    InitIsGood();
    hide Inv;
    hide Reachable;
    var s1 := WriteRun(Init, Entry(k, c), false);
    assert Mut(s1).contents == map[k := c];
    var s2 := FreezeRun(s1);
    st := FlushRun(s2);
    assert Init.history + [Entry(k, c)] == [Entry(k, c)];
    assert 1 in st.list;
  }

  lemma InitIsGood()
    ensures Good(Init)
  {
    InitReachable();
    InitInv();
  }

  lemma OverwriteFrozen(before: State, op: Entry) returns (st: State)
    requires Good(before) && before.imm == None && Mut(before).contents == map[]
    ensures Good(st) && st.list == before.list && st.nextGen == before.nextGen && st.history == before.history + [op]
    ensures st.imm.Some? && st.mems != [] && Mut(st).contents == map[] && ImmContents(st) == map[op.key := op.cell]
  {
    hide Inv;
    hide Reachable;
    var s1 := WriteRun(before, op, false);
    st := FreezeRun(s1);
    HasParts(st);
  }

  lemma NumberedFlush(before: State) returns (st: State)
    requires Good(before) && before.imm.Some?
    ensures Reachable(st) && Inv(st) && before.imm.value < |before.mems|
    ensures st == before.(flush := FlushNumbered(before.imm.value, before.immSegment, st.nextGen),
                          nextGen := st.nextGen)
    ensures st.nextGen == before.nextGen + 1
  {
    hide Inv;
    hide Reachable;
    var s := TakeBegin(before);
    st := TakeNumber(s);
  }

  lemma CaptureAll(before: State, major: bool) returns (st: State)
    requires Reachable(before) && Inv(before) && before.compact.CompactIdle? && before.list != map[]
    ensures Reachable(st) && Inv(st) && st.mems != [] && st.log != []
    ensures st == before.(compact := CompactCaptured(before.list.Keys, major))
  {
    HasParts(before);
    hide Inv;
    hide Reachable;
    HasKeys(before.list);
    st := Take(before, CompactCapture(before.list.Keys, major));
  }

  /** The value is overwritten and frozen, the flush numbered, and a compaction has taken its tables. */
  lemma OverwriteCaptured(before: State, op: Entry, major: bool) returns (st: State)
    requires Good(before) && before.imm == None && before.list != map[] && Mut(before).contents == map[]
    ensures Reachable(st) && Inv(st) && Overtakable(st) && st.list == before.list && st.compact.major == major
    ensures st.flush.gen == st.nextGen == before.nextGen + 1 && st.history == before.history + [op]
    ensures Mut(st).contents == map[] && ImmContents(st) == map[op.key := op.cell]
  {
    hide Inv;
    hide Reachable;
    var s1 := OverwriteFrozen(before, op);
    var s2 := NumberedFlush(s1);
    st := CaptureAll(s2, major);
  }

  lemma FoldTwice(k: Key, a: Cell, b: Cell)
    ensures Find(Fold([Entry(k, a)] + [Entry(k, b)]), k) == Some(b)
  {
    FoldAppend([Entry(k, a)], Entry(k, b));
  }

  lemma OneTable(k: Key, c: Cell)
    ensures Newest(map[1 := map[k := c]], k) == Some(c)
  {
    assert IsTop(map[1 := map[k := c]], k, 1);
    TopCell(map[1 := map[k := c]], k, 1);
  }

  /**
   * From the empty database a run that keeps every rule leads to a state in which CompactAll takes
   * its generation too late: six steps later an overwritten value is visible again.
   */
  lemma OvertakingHappens(k: Key, older: Bytes, newer: Bytes, major: bool) returns (states: seq<State>)
    requires older != newer
    ensures IsExecution(states, [CompactNumber, CompactWrite, CompactReplace, FlushWrite, FlushPublish, FlushClear])
    ensures Reachable(states[0]) && states[6].mems != []
    ensures states[6].history == [Entry(k, Cell(false, older)), Entry(k, Cell(false, newer))]
    ensures Live(View(states[6], k)) == Some(older) != Some(newer) == Live(Find(Fold(states[6].history), k))
  {
    var a, b := Cell(false, older), Cell(false, newer);
    hide Inv;
    hide Reachable;
    hide IsExecution;
    var flushed := FlushedOnce(k, a);
    var st := OverwriteCaptured(flushed, Entry(k, b), major);
    OneTable(k, a);
    FoldTwice(k, a, b);
    assert [Entry(k, a)] + [Entry(k, b)] == [Entry(k, a), Entry(k, b)];
    states := OvertakenFlushIsStale(st, k);
  }
}
