/** Runs of the engine that one thread performs from one idle state to the next. */
module Sequential {
  import opened Base
  import opened History
  import opened Generations
  import opened Compaction
  import opened Unlinking
  import opened SegmentLog
  import opened Engine
  import opened EngineInvariant

  ghost predicate IsPath(states: seq<State>, steps: seq<Step>) {
    && |states| == |steps| + 1
    && forall i :: 0 <= i < |steps| ==> Next(states[i], steps[i], states[i + 1])
  }

  /** Some run of the engine leads from its initial state to `st`. */
  ghost predicate Reachable(st: State) {
    exists states, steps ::
      IsPath(states, steps) && |states| == |steps| + 1 && states[0] == Init && states[|steps|] == st
  }

  lemma InitReachable()
    ensures Reachable(Init)
  {
    var steps: seq<Step> := [];
    assert IsPath([Init], steps);
  }

  /** One more step of a run. */
  lemma Take(st: State, step: Step) returns (st': State)
    requires Reachable(st) && Inv(st) && Enabled(st, step) && Disciplined(st, step)
    ensures st' == Do(st, step) && Reachable(st') && Inv(st')
  {
    st' := Do(st, step);
    StepKeepsInv(st, step);
    assert Next(st, step, st');
    hide Inv;
    hide Next;
    hide IsPath;
    hide Init;
    var states, steps :| IsPath(states, steps) && |states| == |steps| + 1 && states[0] == Init && states[|steps|] == st;
    ExtendPath(states, steps, step, st');
  }

  lemma ExtendPath(states: seq<State>, steps: seq<Step>, step: Step, st': State)
    requires IsPath(states, steps) && Next(states[|steps|], step, st')
    ensures var states', steps' := states + [st'], steps + [step];
            |states'| == |steps'| + 1 && IsPath(states', steps') && states'[0] == states[0] && states'[|steps'|] == st'
  {
    hide Next;
    var states', steps' := states + [st'], steps + [step];
    forall i | 0 <= i < |steps'| ensures Next(states'[i], steps'[i], states'[i + 1]) {
      assert i < |steps| ==> Next(states[i], steps[i], states[i + 1]);
    }
  }

  /** Nothing is under way, and no retired file is left on disk. */
  ghost predicate Idle(st: State) {
    && st.pending.None? && st.flush.FlushIdle? && st.compact.CompactIdle?
    && st.retired.Keys !! st.files.Keys
  }

  ghost predicate Good(st: State) {
    Reachable(st) && Inv(st) && Idle(st)
  }

  lemma GoodIsReachable(st: State)
    requires Good(st)
    ensures Reachable(st)
  {
    hide Inv;
    hide Reachable;
  }

  lemma HasParts(st: State)
    requires Inv(st)
    ensures st.mems != [] && st.log != []
  {}

  /** A torn record with a record behind it. */
  ghost function TailBehind(tail: Tail, active: int): Tail {
    if tail.Torn? && tail.segment == active then tail.(appended := true) else tail
  }

  lemma TakeLog(st: State, op: Entry, rotate: bool) returns (st': State)
    requires Good(st)
    ensures Reachable(st') && Inv(st') && st.log != []
    ensures st'.log == Appended(st.log, rotate, op) && st'.tail == TailBehind(st.tail, Active(st'))
    ensures st' == st.(log := st'.log, pending := Some(op), tail := st'.tail)
  {
    HasParts(st);
    hide Inv;
    hide Reachable;
    st' := Take(st, Log(op, rotate));
  }

  lemma TakePut(st: State) returns (st': State)
    requires Reachable(st) && Inv(st) && st.pending.Some?
    ensures Reachable(st') && Inv(st') && st.mems != [] && |st'.mems| == |st.mems|
    ensures forall i :: 0 <= i < |st.mems| - 1 ==> st'.mems[i] == st.mems[i]
    ensures Mut(st').contents == Mut(st).contents[st.pending.value.key := st.pending.value.cell]
    ensures st' == st.(mems := st'.mems, history := st.history + [st.pending.value], pending := None)
  {
    HasParts(st);
    hide Inv;
    hide Reachable;
    st' := Take(st, PutMem);
  }

  /** An append and the put that follows it. */
  lemma WriteRun(st: State, op: Entry, rotate: bool) returns (st': State)
    requires Good(st)
    ensures Good(st') && st'.history == st.history + [op] && st.log != [] && st.mems != [] && |st'.mems| == |st.mems|
    ensures forall i :: 0 <= i < |st.mems| - 1 ==> st'.mems[i] == st.mems[i]
    ensures Mut(st').contents == Mut(st).contents[op.key := op.cell]
    ensures st'.tail == TailBehind(st.tail, Active(st'))
    ensures st' == st.(mems := st'.mems, log := Appended(st.log, rotate, op), history := st'.history, tail := st'.tail)
  {
    hide Inv;
    hide Reachable;
    var s1 := TakeLog(st, op, rotate);
    st' := TakePut(s1);
  }

  lemma FreezeRun(st: State) returns (st': State)
    requires Good(st) && st.imm.None?
    ensures Good(st') && Mut(st').contents == map[] && ImmContents(st') == Mut(st).contents
    ensures st'.imm.Some? && st'.immSegment == Active(st)
    ensures st' == st.(mems := st'.mems, imm := st'.imm, immSegment := st'.immSegment, log := st.log + [[]])
  {
    st' := Take(st, Freeze);
  }

  /** A torn record goes with its segment. */
  ghost function TailFrom(tail: Tail, from: nat, to: nat): Tail {
    if tail.Torn? && from <= tail.segment < to then Whole else tail
  }

  lemma TakeReclaim(st: State) returns (st': State)
    requires Reachable(st) && Inv(st) && st.flush.FlushReclaiming? && st.base <= st.flush.sealed && |st.log| > 1
    ensures Reachable(st') && Inv(st') && st'.tail == TailFrom(st.tail, st.base, st'.base)
    ensures st'.base == st.base + 1 && st'.log == st.log[1..]
    ensures st' == st.(base := st'.base, log := st'.log, tail := st'.tail)
  {
    HasParts(st);
    hide Inv;
    hide Reachable;
    st' := Take(st, ReclaimSegment);
  }

  /** RemoveSegmentsUpTo: every sealed segment up to the one the flush captured. */
  lemma {:induction false} ReclaimRun(st: State) returns (st': State)
    requires Reachable(st) && Inv(st) && st.flush.FlushReclaiming?
    ensures Reachable(st') && Inv(st')
    ensures st' == st.(base := st'.base, log := st'.log, tail := st'.tail)
    ensures st'.base == if st.flush.sealed < st.base then st.base
                        else if st.flush.sealed < Active(st) then st.flush.sealed + 1 else Active(st)
    ensures st.base <= st'.base <= Active(st) && st'.log == st.log[st'.base - st.base..]
    ensures st'.tail == TailFrom(st.tail, st.base, st'.base)
    decreases |st.log|
  {
    HasParts(st);
    hide Inv;
    hide Reachable;
    if st.base <= st.flush.sealed && |st.log| > 1 {
      var next := TakeReclaim(st);
      st' := ReclaimRun(next);
      assert st.log[1..][st'.base - next.base..] == st.log[st'.base - st.base..];
    } else {
      st' := st;
    }
  }

  // The steps of a flush, one by one.

  lemma TakeBegin(st: State) returns (st': State)
    requires Good(st) && st.imm.Some?
    ensures Reachable(st') && Inv(st') && st.imm.value < |st.mems|
    ensures st' == st.(flush := FlushBegun(st.imm.value, st.immSegment))
  {
    st' := Take(st, FlushBegin);
  }

  lemma TakeNumber(st: State) returns (st': State)
    requires Reachable(st) && Inv(st) && st.flush.FlushBegun? && st.compact.CompactIdle?
    ensures Reachable(st') && Inv(st')
    ensures st' == st.(flush := FlushNumbered(st.flush.mem, st.flush.sealed, st.nextGen + 1), nextGen := st.nextGen + 1)
  {
    HasParts(st);
    hide Inv;
    hide Reachable;
    st' := Take(st, FlushNumber);
  }

  lemma TakeWrite(st: State) returns (st': State)
    requires Reachable(st) && Inv(st) && st.flush.FlushNumbered? && st.flush.mem < |st.mems|
    ensures Reachable(st') && Inv(st')
    ensures st' == st.(flush := FlushWritten(st.flush.mem, st.flush.sealed, st.flush.gen),
                       files := st.files[st.flush.gen := st.mems[st.flush.mem].contents])
  {
    HasParts(st);
    hide Inv;
    hide Reachable;
    st' := Take(st, FlushWrite);
  }

  lemma TakePublish(st: State) returns (st': State)
    requires Reachable(st) && Inv(st) && st.flush.FlushWritten? && st.flush.gen in st.files && st.compact.CompactIdle?
    ensures Reachable(st') && Inv(st')
    ensures st' == st.(flush := FlushPublished(st.flush.mem, st.flush.sealed), stored := st'.stored,
                       list := st.list[st.flush.gen := st.files[st.flush.gen]])
  {
    HasParts(st);
    hide Inv;
    hide Reachable;
    st' := Take(st, FlushPublish);
  }

  lemma TakeClear(st: State) returns (st': State)
    requires Reachable(st) && Inv(st) && st.flush.FlushPublished? && st.pending.None? && st.imm == Some(st.flush.mem)
    ensures Reachable(st') && Inv(st')
    ensures st' == st.(flush := FlushReclaiming(st.flush.sealed), imm := None)
  {
    HasParts(st);
    hide Inv;
    hide Reachable;
    st' := Take(st, FlushClear);
  }

  lemma PublishRun(st: State) returns (st': State)
    requires Good(st) && st.imm.Some?
    ensures Reachable(st') && Inv(st')
    ensures st'.flush == FlushReclaiming(st.immSegment) && st'.imm == None && st'.nextGen == st.nextGen + 1
    ensures st'.list == st.list[st.nextGen + 1 := ImmContents(st)]
    ensures st'.files == st.files[st.nextGen + 1 := ImmContents(st)]
    ensures st' == st.(flush := st'.flush, imm := None, nextGen := st'.nextGen, list := st'.list, files := st'.files,
                       stored := st'.stored)
  {
    hide Inv;
    hide Reachable;
    var s1 := TakeBegin(st);
    var s2 := TakeNumber(s1);
    var s3 := TakeWrite(s2);
    var s4 := TakePublish(s3);
    st' := TakeClear(s4);
  }

  /** A whole flush: the immutable memtable becomes the newest table and its segments go. */
  lemma FlushRun(st: State) returns (st': State)
    requires Good(st) && st.imm.Some?
    ensures Good(st') && st'.imm == None && st'.nextGen == st.nextGen + 1
    ensures st'.list == st.list[st.nextGen + 1 := ImmContents(st)]
    ensures st'.mems == st.mems && st'.history == st.history
    ensures st.base <= st.immSegment < Active(st)
    ensures st'.base == st.immSegment + 1 && st'.log == st.log[st'.base - st.base..]
    ensures st'.tail == TailFrom(st.tail, st.base, st'.base)
  {
    var s1 := PublishRun(st);
    var s2 := ReclaimRun(s1);
    st' := Take(s2, FlushEnd);
  }

  lemma {:induction false} UnlinkRun(st: State, left: set<nat>) returns (st': State)
    requires Reachable(st) && Inv(st) && left <= st.retired.Keys && st.mems != [] && st.log != []
    requires st.retired.Keys * st.files.Keys <= left
    ensures Reachable(st') && Inv(st') && st'.retired.Keys !! st'.files.Keys
    ensures st' == st.(files := st'.files)
    decreases left
  {
    hide Inv;
    hide Reachable;
    if left == {} {
      forall g | g in st.retired.Keys ensures g !in st.files.Keys {
        assert g in st.files.Keys ==> g in st.retired.Keys * st.files.Keys;
      }
      st' := st;
    } else {
      var g :| g in left;
      var next := Take(st, Unlink(g));
      st' := UnlinkRun(next, left - {g});
    }
  }

  lemma HasKeys(ts: Tables)
    requires ts != map[]
    ensures ts.Keys != {}
  {
    var none: Tables := map[];
    assert ts.Keys == {} ==> ts == none;
  }

  lemma TakeCapture(st: State, major: bool) returns (st': State)
    requires Good(st) && st.list != map[]
    ensures Reachable(st') && Inv(st') && st' == st.(compact := CompactCaptured(st.list.Keys, major))
  {
    HasKeys(st.list);
    HasParts(st);
    hide Inv;
    hide Reachable;
    st' := Take(st, CompactCapture(st.list.Keys, major));
  }

  lemma TakeTarget(st: State) returns (st': State)
    requires Reachable(st) && Inv(st) && st.compact.CompactCaptured? && st.flush.FlushIdle?
    ensures Reachable(st') && Inv(st')
    ensures st'.nextGen == st.nextGen + 1
    ensures st' == st.(compact := CompactNumbered(st.compact.snap, st.compact.major, st'.nextGen),
                       nextGen := st'.nextGen)
  {
    HasParts(st);
    hide Inv;
    hide Reachable;
    st' := Take(st, CompactNumber);
  }

  lemma TakeMerge(st: State) returns (st': State)
    requires Reachable(st) && Inv(st) && st.compact.CompactNumbered?
    ensures Reachable(st') && Inv(st')
    ensures st' == st.(compact := CompactWritten(st.compact.snap, st.compact.major, st.compact.target),
                       files := st'.files)
  {
    HasParts(st);
    hide Inv;
    hide Reachable;
    st' := Take(st, CompactWrite);
  }

  lemma TakeReplace(st: State) returns (st': State)
    requires Reachable(st) && Inv(st) && st.compact.CompactWritten?
    ensures Reachable(st') && Inv(st') && st'.mems != [] && st'.log != []
    ensures st'.list == Replaced(st.list, st.compact.snap, st.compact.target, st.compact.major)
    ensures st' == st.(list := st'.list, compact := CompactIdle, retired := st'.retired, majors := st'.majors)
  {
    HasParts(st);
    hide Inv;
    hide Reachable;
    st' := Take(st, CompactReplace);
  }

  /** A whole compaction of all tables, to the unlinking of the last old file. */
  lemma CompactRun(st: State, major: bool) returns (st': State)
    requires Good(st) && st.list != map[]
    ensures Good(st') && st'.nextGen == st.nextGen + 1
    ensures st'.list == Replaced(st.list, st.list.Keys, st.nextGen + 1, major)
    ensures st'.mems == st.mems && st'.imm == st.imm && st'.immSegment == st.immSegment
    ensures st'.base == st.base && st'.log == st.log && st'.history == st.history && st'.tail == st.tail
  {
    hide Inv;
    hide Reachable;
    hide Replaced;
    var s1 := TakeCapture(st, major);
    var s2 := TakeTarget(s1);
    var s3 := TakeMerge(s2);
    var s4 := TakeReplace(s3);
    st' := UnlinkRun(s4, s4.retired.Keys);
  }

  /** A crash in any state of any run, and reopening. */
  lemma CrashRun(st: State, keep: bool, torn: bool) returns (st': State)
    requires Reachable(st) && Inv(st) && Disciplined(st, Crash(keep, torn))
    ensures st' == Reopened(st, keep, torn) && Good(st')
  {
    st' := Take(st, Crash(keep, torn));
  }

  // ----- torn records

  /** A torn record is in a surviving segment, and a record logged into that segment is behind it. */
  ghost predicate TailInv(st: State) {
    st.tail.Torn? ==>
      && st.base <= st.tail.segment <= Active(st)
      && (st.pending.Some? && st.tail.segment == Active(st) ==> st.tail.appended)
  }

  lemma StepKeepsTail(st: State, step: Step)
    requires TailInv(st) && Enabled(st, step)
    ensures TailInv(Do(st, step))
  {}

  lemma {:induction false} PathKeepsTail(states: seq<State>, steps: seq<Step>, i: nat)
    requires IsPath(states, steps) && |states| == |steps| + 1 && states[0] == Init && i <= |steps|
    ensures TailInv(states[i])
  {
    hide TailInv;
    if i == 0 {
      InitTail();
    } else {
      PathKeepsTail(states, steps, i - 1);
      assert Next(states[i - 1], steps[i - 1], states[i]);
      hide Do;
      StepKeepsTail(states[i - 1], steps[i - 1]);
    }
  }

  lemma InitTail()
    ensures TailInv(Init)
  {}

  lemma ReachableTail(st: State)
    requires Reachable(st)
    ensures TailInv(st)
  {
    hide TailInv;
    var states, steps :|
      IsPath(states, steps) && |states| == |steps| + 1 && states[0] == Init && states[|steps|] == st;
    PathKeepsTail(states, steps, |steps|);
  }

  /** In a state that may crash, a record in flight has no torn record before it in its segment. */
  lemma InFlightIsClean(st: State)
    requires Reachable(st) && Replayable(st) && st.pending.Some?
    ensures st.tail.Whole?
  {
    ReachableTail(st);
  }
}
