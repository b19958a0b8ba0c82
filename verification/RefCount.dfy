/**
 * The reference count of one SSTable file under any number of threads. Every step is one atomic
 * action; a thread that both holds a reference and takes the file off the list counts as two.
 */
module RefCounts {

  /** Why a file leaves the list: ReplaceTables unlinks it, Close only closes it. */
  datatype Reason = Retired | Shut

  /** Where a thread stands in GetTables, ReplaceTables, Close or DecrRef. */
  datatype Pc =
    | Idle
    | Creating
    | Looking
    | Loaded(cur: int)
    | NotUnlinked(cur: int)
    | Checked(cur: int)
    | Holding
    | OffList(why: Reason)
    | Marked
    | LastOut
    | ReaderClosed

  datatype State = State(
    refCount: int, unlinked: bool, closed: bool, inList: bool,
    readerOpen: bool, onDisk: bool, threads: seq<Pc>)

  datatype Step =
    | Publish(t: nat)
    | Enter(t: nat)
    | Load(t: nat)
    | CheckUnlinked(t: nat)
    | CheckClosed(t: nat)
    | CompareAndSwap(t: nat)
    | TakeOff(t: nat, why: Reason)
    | Mark(t: nat)
    | Decrement(t: nat)
    | CloseReader(t: nat)
    | RemoveFile(t: nat)

  /** The file has been written and opened by thread 0, which is about to add it to the list. */
  ghost function Init(n: nat): State {
    State(1, false, false, false, true, true, [Creating] + seq(n, _ => Idle))
  }

  /** Inside GetTables, under the read lock of the list that holds the file. */
  predicate InGetTables(pc: Pc) {
    pc.Looking? || pc.Loaded? || pc.NotUnlinked? || pc.Checked?
  }

  /** Owes the count a decrement. */
  predicate Owes(pc: Pc) {
    pc.Creating? || pc.Holding? || pc.OffList? || pc.Marked?
  }

  /** Has taken the count to zero and is cleaning up. */
  predicate CleansUp(pc: Pc) {
    pc.LastOut? || pc.ReaderClosed?
  }

  ghost predicate Enabled(st: State, step: Step) {
    && step.t < |st.threads|
    && var pc := st.threads[step.t];
    && match step
       case Publish(_) => pc.Creating? && NoReader(st)
       case Enter(_) => pc.Idle? && st.inList
       case Load(_) => pc.Looking?
       case CheckUnlinked(_) => pc.Loaded?
       case CheckClosed(_) => pc.NotUnlinked?
       case CompareAndSwap(_) => pc.Checked?
       case TakeOff(_, _) => pc.Idle? && NoReader(st)
       case Mark(_) => pc.OffList?
       case Decrement(_) => pc.Holding? || pc.Marked?
       case CloseReader(_) => pc.LastOut?
       case RemoveFile(_) => pc.ReaderClosed?
  }

  /** The write lock of the list is free of readers. */
  ghost predicate NoReader(st: State) {
    forall u :: 0 <= u < |st.threads| ==> !InGetTables(st.threads[u])
  }

  /** What the code does not check: the file is still listed when ReplaceTables or Close drops it. */
  ghost predicate Disciplined(st: State, step: Step) {
    step.TakeOff? ==> st.inList
  }

  ghost function Do(st: State, step: Step): State
    requires Enabled(st, step)
  {
    var t := step.t;
    var pc := st.threads[t];
    match step
    case Publish(_) =>
      st.(refCount := if st.refCount == 0 then 1 else st.refCount, inList := true, threads := st.threads[t := Idle])
    case Enter(_) => st.(threads := st.threads[t := Looking])
    case Load(_) => st.(threads := st.threads[t := Loaded(st.refCount)])
    case CheckUnlinked(_) =>
      st.(threads := st.threads[t := if pc.cur <= 0 || st.unlinked then Idle else NotUnlinked(pc.cur)])
    case CheckClosed(_) => st.(threads := st.threads[t := if st.closed then Idle else Checked(pc.cur)])
    case CompareAndSwap(_) =>
      if st.refCount == pc.cur then st.(refCount := pc.cur + 1, threads := st.threads[t := Holding])
      else st.(threads := st.threads[t := Looking])
    case TakeOff(_, why) => st.(inList := false, threads := st.threads[t := OffList(why)])
    case Mark(_) =>
      st.(unlinked := st.unlinked || pc.why.Retired?, closed := st.closed || pc.why.Shut?,
          threads := st.threads[t := Marked])
    case Decrement(_) =>
      st.(refCount := st.refCount - 1, threads := st.threads[t := if st.refCount == 1 then LastOut else Idle])
    case CloseReader(_) => st.(readerOpen := false, threads := st.threads[t := ReaderClosed])
    case RemoveFile(_) => st.(onDisk := st.onDisk && !st.unlinked, threads := st.threads[t := Idle])
  }

  // ----- the invariant

  ghost function Owners(threads: seq<Pc>): nat {
    if threads == [] then 0 else
    var n := |threads| - 1;
    Owners(threads[..n]) + if Owes(threads[n]) then 1 else 0
  }

  lemma {:induction false} OwnersUpdate(threads: seq<Pc>, t: nat, pc: Pc)
    requires t < |threads|
    ensures Owners(threads[t := pc]) + (if Owes(threads[t]) then 1 else 0)
         == Owners(threads) + (if Owes(pc) then 1 else 0)
  {
    var n := |threads| - 1;
    var threads' := threads[t := pc];
    if t < n {
      OwnersUpdate(threads[..n], t, pc);
      assert threads'[..n] == threads[..n][t := pc];
    } else {
      assert threads'[..n] == threads[..n];
    }
  }

  lemma {:induction false} OwnerCounts(threads: seq<Pc>, t: nat)
    requires t < |threads| && Owes(threads[t])
    ensures Owners(threads) > 0
  {
    var n := |threads| - 1;
    if t < n {
      OwnerCounts(threads[..n], t);
    }
  }

  lemma {:induction false} NoOwners(threads: seq<Pc>)
    requires forall t :: 0 <= t < |threads| ==> !Owes(threads[t])
    ensures Owners(threads) == 0
  {
    if threads != [] {
      NoOwners(threads[..|threads| - 1]);
    }
  }

  ghost predicate Cleaning(st: State) {
    exists t :: 0 <= t < |st.threads| && CleansUp(st.threads[t])
  }

  /** The count is the list's reference plus those that threads still owe. */
  ghost predicate Account(st: State) {
    st.refCount == Owners(st.threads) + if st.inList then 1 else 0
  }

  /** While the file is listed, or about to be listed or dropped by one thread, it is unmarked. */
  ghost predicate Listing(st: State) {
    && (st.inList ==> !st.unlinked && !st.closed)
    && (forall t :: 0 <= t < |st.threads| && (st.threads[t].Creating? || st.threads[t].OffList?) ==>
          !st.inList && !st.unlinked && !st.closed)
    && OneDropper(st)
  }

  /** At most one thread is about to list the file, or has taken it off the list and not marked it yet. */
  ghost predicate OneDropper(st: State) {
    forall t, u :: 0 <= t < u < |st.threads| && (st.threads[t].Creating? || st.threads[t].OffList?) ==>
      !(st.threads[u].Creating? || st.threads[u].OffList?)
  }

  /** Whoever is in GetTables sees a listed file with a positive count. */
  ghost predicate Reading(st: State) {
    forall t :: 0 <= t < |st.threads| && InGetTables(st.threads[t]) ==>
      st.inList && (st.threads[t].Looking? || st.threads[t].cur > 0)
  }

  /** One thread cleans up, once the count is zero; until it is done the file exists. */
  ghost predicate Cleanup(st: State) {
    && (forall t :: 0 <= t < |st.threads| && CleansUp(st.threads[t]) ==>
          st.refCount == 0 && (st.readerOpen <==> st.threads[t].LastOut?))
    && (forall t, u :: 0 <= t < u < |st.threads| && CleansUp(st.threads[t]) ==> !CleansUp(st.threads[u]))
    && (st.refCount > 0 ==> st.readerOpen)
    && (st.refCount == 0 && !Cleaning(st) ==> !st.readerOpen)
    && (st.onDisk <==> st.refCount > 0 || Cleaning(st) || !st.unlinked)
  }

  ghost predicate Inv(st: State) {
    Account(st) && Listing(st) && Reading(st) && Cleanup(st)
  }

  lemma InitInv(n: nat)
    ensures Inv(Init(n))
  {
    var threads := Init(n).threads;
    NoOwners(threads[0 := Idle]);
    OwnersUpdate(threads, 0, Idle);
  }

  lemma OwesCounts(st: State, t: nat)
    requires Account(st) && t < |st.threads| && Owes(st.threads[t])
    ensures st.refCount > 0
  {
    OwnerCounts(st.threads, t);
  }

  lemma OthersStay(st: State, step: Step)
    requires Enabled(st, step)
    ensures |Do(st, step).threads| == |st.threads|
    ensures forall u :: 0 <= u < |st.threads| && u != step.t ==> Do(st, step).threads[u] == st.threads[u]
  {
    hide NoReader;
  }

  lemma AccountKept(st: State, step: Step)
    requires Account(st) && Enabled(st, step) && Disciplined(st, step)
    requires Owes(st.threads[step.t]) ==> st.refCount > 0
    requires st.threads[step.t].Creating? ==> !st.inList
    ensures Account(Do(st, step))
  {
    hide Owners;
    OwnersUpdate(st.threads, step.t, Do(st, step).threads[step.t]);
    assert Do(st, step).threads == st.threads[step.t := Do(st, step).threads[step.t]];
  }

  lemma OneDropperKept(st: State, step: Step)
    requires Listing(st) && Enabled(st, step) && Disciplined(st, step)
    ensures OneDropper(Do(st, step))
  {
    hide NoReader;
    OthersStay(st, step);
  }

  lemma ListingKept(st: State, step: Step)
    requires Listing(st) && Enabled(st, step) && Disciplined(st, step)
    ensures Listing(Do(st, step))
  {
    hide NoReader;
    OneDropperKept(st, step);
    OthersStay(st, step);
  }

  lemma ReadingKept(st: State, step: Step)
    requires Reading(st) && Enabled(st, step) && Disciplined(st, step) && (st.inList ==> st.refCount > 0)
    ensures Reading(Do(st, step))
  {
    OthersStay(st, step);
  }

  lemma CleaningMoves(st: State, step: Step)
    requires Cleanup(st) && Enabled(st, step)
    ensures var st' := Do(st, step);
            Cleaning(st') <==> CleansUp(st'.threads[step.t]) || (Cleaning(st) && !CleansUp(st.threads[step.t]))
  {
    OthersStay(st, step);
    var st' := Do(st, step);
    hide Do;
    hide Enabled;
    assert CleansUp(st'.threads[step.t]) ==> Cleaning(st');
    if Cleaning(st) {
      var u :| 0 <= u < |st.threads| && CleansUp(st.threads[u]);
      assert u != step.t ==> CleansUp(st'.threads[u]);
    }
  }

  lemma CleanupKept(st: State, step: Step)
    requires Cleanup(st) && Enabled(st, step) && Disciplined(st, step)
    requires step.Publish? || step.Mark? || step.Decrement? || step.CompareAndSwap? || step.TakeOff? ==> st.refCount > 0
    ensures Cleanup(Do(st, step))
  {
    CleaningMoves(st, step);
    hide InGetTables;
    assert CleansUp(st.threads[step.t]) ==> Cleaning(st);
    hide Cleaning;
    OthersStay(st, step);
  }

  lemma StepKeepsInv(st: State, step: Step)
    requires Inv(st) && Enabled(st, step) && Disciplined(st, step)
    ensures Inv(Do(st, step))
  {
    if Owes(st.threads[step.t]) {
      OwesCounts(st, step.t);
    }
    assert st.inList ==> st.refCount > 0;
    AccountKept(st, step);
    ListingKept(st, step);
    ReadingKept(st, step);
    CleanupKept(st, step);
    hide Account;
    hide Cleanup;
    hide Do;
  }

  // ----- runs

  ghost predicate IsRun(states: seq<State>, steps: seq<Step>) {
    && |states| == |steps| + 1 && (exists n: nat :: states[0] == Init(n))
    && forall i :: 0 <= i < |steps| ==> Next(states[i], steps[i], states[i + 1])
  }

  ghost predicate Next(st: State, step: Step, st': State) {
    Enabled(st, step) && Disciplined(st, step) && st' == Do(st, step)
  }

  lemma {:induction false} RunKeepsInv(states: seq<State>, steps: seq<Step>, i: nat)
    requires IsRun(states, steps) && i < |states|
    ensures Inv(states[i])
  {
    if i == 0 {
      var n: nat :| states[0] == Init(n);
      InitInv(n);
    } else {
      RunKeepsInv(states, steps, i - 1);
      assert Next(states[i - 1], steps[i - 1], states[i]);
      StepKeepsInv(states[i - 1], steps[i - 1]);
    }
  }

  /** The count is exactly the list's reference plus the references that threads still owe. */
  lemma CountIsExact(states: seq<State>, steps: seq<Step>, i: nat)
    requires IsRun(states, steps) && i < |states|
    ensures states[i].refCount == Owners(states[i].threads) + if states[i].inList then 1 else 0
  {
    RunKeepsInv(states, steps, i);
  }

  /** From a successful IncrRef to the matching DecrRef the reader is open and the file exists. */
  lemma HeldReaderIsOpen(states: seq<State>, steps: seq<Step>, i: nat, t: nat)
    requires IsRun(states, steps) && i < |states| && t < |states[i].threads| && states[i].threads[t].Holding?
    ensures states[i].readerOpen && states[i].onDisk
  {
    RunKeepsInv(states, steps, i);
    OwnerCounts(states[i].threads, t);
  }

  /** A file that is gone was unlinked, and nothing refers to it any more. */
  lemma RemovedIsUnreferenced(states: seq<State>, steps: seq<Step>, i: nat)
    requires IsRun(states, steps) && i < |states| && !states[i].onDisk
    ensures states[i].unlinked && states[i].refCount == 0 && !states[i].inList && !states[i].readerOpen
    ensures forall t :: 0 <= t < |states[i].threads| ==> !states[i].threads[t].Holding?
  {
    RunKeepsInv(states, steps, i);
    forall t | 0 <= t < |states[i].threads| ensures !states[i].threads[t].Holding? {
      if states[i].threads[t].Holding? {
        OwnerCounts(states[i].threads, t);
      }
    }
  }

  lemma ZeroStays(st: State, step: Step)
    requires Inv(st) && Enabled(st, step) && Disciplined(st, step) && st.refCount == 0
    ensures Do(st, step).refCount == 0
  {
    if Owes(st.threads[step.t]) {
      OwnerCounts(st.threads, step.t);
    }
  }

  /** No step brings a count back from zero. */
  lemma {:induction false} NeverRevived(states: seq<State>, steps: seq<Step>, i: nat, j: nat)
    requires IsRun(states, steps) && i <= j < |states| && states[i].refCount == 0
    ensures states[j].refCount == 0
    decreases j
  {
    if i < j {
      NeverRevived(states, steps, i, j - 1);
      RunKeepsInv(states, steps, j - 1);
      assert Next(states[j - 1], steps[j - 1], states[j]);
      ZeroStays(states[j - 1], steps[j - 1]);
    }
  }

  /** IncrRef fails for no listed file, so GetTables never leaves a table out. */
  lemma ListedIsAcquired(states: seq<State>, steps: seq<Step>, i: nat)
    requires IsRun(states, steps) && i < |steps|
    ensures steps[i].CheckUnlinked? ==> states[i + 1].threads[steps[i].t].NotUnlinked?
    ensures steps[i].CheckClosed? ==> states[i + 1].threads[steps[i].t].Checked?
  {
    RunKeepsInv(states, steps, i);
    assert Next(states[i], steps[i], states[i + 1]);
  }

  // ----- what the marks on the file record

  /** An execution the code allows, disciplined or not. */
  ghost predicate IsExecution(states: seq<State>, steps: seq<Step>) {
    && |states| == |steps| + 1
    && forall i :: 0 <= i < |steps| ==> Enabled(states[i], steps[i]) && states[i + 1] == Do(states[i], steps[i])
  }

  ghost predicate IsExecutionFromFresh(states: seq<State>, steps: seq<Step>) {
    IsExecution(states, steps) && exists n: nat :: states[0] == Init(n)
  }

  lemma RunIsExecution(states: seq<State>, steps: seq<Step>)
    requires IsRun(states, steps)
    ensures IsExecutionFromFresh(states, steps)
  {
    forall i | 0 <= i < |steps| ensures Enabled(states[i], steps[i]) && states[i + 1] == Do(states[i], steps[i]) {
      assert Next(states[i], steps[i], states[i + 1]);
    }
  }

  /** When thread t last took the file off the list before step i, this was why. */
  ghost predicate LastTookOff(steps: seq<Step>, i: nat, t: nat, why: Reason)
    requires i <= |steps|
  {
    exists k :: 0 <= k < i && steps[k] == TakeOff(t, why)
                && forall m :: k < m < i ==> !(steps[m].TakeOff? && steps[m].t == t)
  }

  /** Before step i some thread has marked the file, having taken it off the list for this reason. */
  ghost predicate MarkedFor(steps: seq<Step>, i: nat, why: Reason)
    requires i <= |steps|
  {
    exists j :: 0 <= j < i && steps[j].Mark? && LastTookOff(steps, j, steps[j].t, why)
  }

  lemma LastTookOffStep(steps: seq<Step>, i: nat, t: nat, why: Reason)
    requires 0 < i <= |steps|
    ensures LastTookOff(steps, i, t, why) <==>
            if steps[i - 1].TakeOff? && steps[i - 1].t == t then steps[i - 1].why == why
            else LastTookOff(steps, i - 1, t, why)
  {
    var last := steps[i - 1];
    if last == TakeOff(t, why) {
      assert steps[i - 1] == TakeOff(t, why);
    } else if LastTookOff(steps, i - 1, t, why) && !(last.TakeOff? && last.t == t) {
      var k :| 0 <= k < i - 1 && steps[k] == TakeOff(t, why)
               && forall m :: k < m < i - 1 ==> !(steps[m].TakeOff? && steps[m].t == t);
      assert forall m :: k < m < i ==> !(steps[m].TakeOff? && steps[m].t == t);
    }
  }

  lemma MarkedForStep(steps: seq<Step>, i: nat, why: Reason)
    requires 0 < i <= |steps|
    ensures MarkedFor(steps, i, why) <==>
            || MarkedFor(steps, i - 1, why)
            || (steps[i - 1].Mark? && LastTookOff(steps, i - 1, steps[i - 1].t, why))
  {
    hide LastTookOff;
  }

  /** A thread that has the file to mark took it off the list for the reason it remembers. */
  lemma {:induction false} ReasonRemembered(states: seq<State>, steps: seq<Step>, i: nat, t: nat)
    requires IsExecutionFromFresh(states, steps) && i < |states|
    requires t < |states[i].threads| && states[i].threads[t].OffList?
    ensures LastTookOff(steps, i, t, Retired) <==> states[i].threads[t].why == Retired
    ensures LastTookOff(steps, i, t, Shut) <==> states[i].threads[t].why == Shut
  {
    hide LastTookOff;
    if i > 0 {
      var st, step := states[i - 1], steps[i - 1];
      assert Enabled(st, step) && states[i] == Do(st, step);
      LastTookOffStep(steps, i, t, Retired);
      LastTookOffStep(steps, i, t, Shut);
      if step.t != t {
        ReasonRemembered(states, steps, i - 1, t);
      }
    }
  }

  /**
   * The marks say what has happened: a file is unlinked if and only if some thread has marked it
   * after taking it off the list to retire it, and closed likewise after a shutdown of the list.
   */
  lemma {:induction false} MarksRecord(states: seq<State>, steps: seq<Step>, i: nat)
    requires IsExecutionFromFresh(states, steps) && i < |states|
    ensures states[i].unlinked <==> MarkedFor(steps, i, Retired)
    ensures states[i].closed <==> MarkedFor(steps, i, Shut)
  {
    hide MarkedFor;
    hide LastTookOff;
    if i == 0 {
      NothingMarked(steps);
    } else {
      var st, step := states[i - 1], steps[i - 1];
      assert Enabled(st, step) && states[i] == Do(st, step);
      MarksRecord(states, steps, i - 1);
      MarkedForStep(steps, i, Retired);
      MarkedForStep(steps, i, Shut);
      if step.Mark? {
        ReasonRemembered(states, steps, i - 1, step.t);
      }
    }
  }

  lemma NothingMarked(steps: seq<Step>)
    ensures !MarkedFor(steps, 0, Retired) && !MarkedFor(steps, 0, Shut)
  {}

  /**
   * Once all threads are done with a file off the list, its reader is closed, and it is gone from the
   * disk if and only if some thread had taken it off the list to retire it.
   */
  lemma DoneIsClosed(states: seq<State>, steps: seq<Step>, i: nat)
    requires IsRun(states, steps) && i < |states| && !states[i].inList
    requires forall t :: 0 <= t < |states[i].threads| ==> states[i].threads[t].Idle?
    ensures states[i].refCount == 0 && !states[i].readerOpen
    ensures !states[i].onDisk <==>
            exists j :: 0 <= j < i && steps[j].Mark? && LastTookOff(steps, j, steps[j].t, Retired)
  {
    RunKeepsInv(states, steps, i);
    NoOwners(states[i].threads);
    RunIsExecution(states, steps);
    MarksRecord(states, steps, i);
    hide LastTookOff;
    hide Do;
    hide IsRun;
  }

  /** Shutting the list down removes no file: only a compaction that retires a table does. */
  lemma OnlyRetiringRemoves(states: seq<State>, steps: seq<Step>, i: nat)
    requires IsRun(states, steps) && i < |states|
    requires forall j :: 0 <= j < i && steps[j].TakeOff? ==> steps[j].why == Shut
    ensures states[i].onDisk && !states[i].unlinked
  {
    RunIsExecution(states, steps);
    MarksRecord(states, steps, i);
    if !states[i].onDisk {
      RemovedIsUnreferenced(states, steps, i);
    }
  }

  // ----- IncrRef and DecrRef

  /** Past the first check the count that was read is positive. */
  ghost predicate ReadPositive(st: State) {
    forall t :: 0 <= t < |st.threads| && (st.threads[t].NotUnlinked? || st.threads[t].Checked?) ==>
      st.threads[t].cur > 0
  }

  lemma {:induction false} ExecutionReadsPositive(states: seq<State>, steps: seq<Step>, i: nat)
    requires IsExecutionFromFresh(states, steps) && i < |states|
    ensures ReadPositive(states[i])
  {
    if i > 0 {
      ExecutionReadsPositive(states, steps, i - 1);
      assert Enabled(states[i - 1], steps[i - 1]) && states[i] == Do(states[i - 1], steps[i - 1]);
      hide Do;
      hide Enabled;
      hide ReadPositive;
      StepReadsPositive(states[i - 1], steps[i - 1]);
    } else {
      hide InGetTables;
    }
  }

  lemma OwnReadsPositive(st: State, step: Step)
    requires ReadPositive(st) && Enabled(st, step)
    ensures var st' := Do(st, step);
            step.t < |st'.threads| && (st'.threads[step.t].NotUnlinked? || st'.threads[step.t].Checked? ==>
              st'.threads[step.t].cur > 0)
  {
    hide NoReader;
  }

  lemma StepReadsPositive(st: State, step: Step)
    requires ReadPositive(st) && Enabled(st, step)
    ensures ReadPositive(Do(st, step))
  {
    OthersStay(st, step);
    OwnReadsPositive(st, step);
    hide Do;
    hide Enabled;
  }

  /** Whatever the threads do, IncrRef adds one reference to a positive count, or does nothing. */
  lemma RaisedFromPositive(states: seq<State>, steps: seq<Step>, i: nat)
    requires IsExecutionFromFresh(states, steps) && i < |steps| && !steps[i].Publish?
    ensures states[i + 1].refCount > states[i].refCount ==>
            && steps[i].CompareAndSwap? && states[i].refCount > 0 && states[i + 1].refCount == states[i].refCount + 1
            && steps[i].t < |states[i + 1].threads| && states[i + 1].threads[steps[i].t].Holding?
  {
    ExecutionReadsPositive(states, steps, i);
    assert Enabled(states[i], steps[i]) && states[i + 1] == Do(states[i], steps[i]);
    hide InGetTables;
  }

  /** The steps are those of one thread. */
  predicate AllBy(steps: seq<Step>, t: nat) {
    forall i :: 0 <= i < |steps| ==> steps[i].t == t
  }

  /**
   * IncrRef, undisturbed: one more reference if the count is positive and the file neither unlinked
   * nor closed, and otherwise nothing.
   */
  lemma IncrRefAlone(st: State, t: nat) returns (states: seq<State>, steps: seq<Step>)
    requires t < |st.threads| && st.threads[t].Looking?
    ensures IsExecution(states, steps) && AllBy(steps, t) && states[0] == st
    ensures states[|steps|] ==
            if st.refCount > 0 && !st.unlinked && !st.closed then
              st.(refCount := st.refCount + 1, threads := st.threads[t := Holding])
            else st.(threads := st.threads[t := Idle])
  {
    var s1 := Do(st, Load(t));
    var s2 := Do(s1, CheckUnlinked(t));
    if s2.threads[t].Idle? {
      states, steps := [st, s1, s2], [Load(t), CheckUnlinked(t)];
    } else {
      var s3 := Do(s2, CheckClosed(t));
      if s3.threads[t].Idle? {
        states, steps := [st, s1, s2, s3], [Load(t), CheckUnlinked(t), CheckClosed(t)];
      } else {
        states := [st, s1, s2, s3, Do(s3, CompareAndSwap(t))];
        steps := [Load(t), CheckUnlinked(t), CheckClosed(t), CompareAndSwap(t)];
      }
    }
  }

  /**
   * DecrRef, undisturbed: one reference less, and with the last one the reader is closed and an
   * unlinked file removed.
   */
  lemma DecrRefAlone(st: State, t: nat) returns (states: seq<State>, steps: seq<Step>)
    requires t < |st.threads| && st.threads[t].Holding?
    ensures IsExecution(states, steps) && AllBy(steps, t) && states[0] == st
    ensures states[|steps|] ==
            if st.refCount == 1 then
              st.(refCount := 0, readerOpen := false, onDisk := st.onDisk && !st.unlinked,
                  threads := st.threads[t := Idle])
            else st.(refCount := st.refCount - 1, threads := st.threads[t := Idle])
  {
    var s1 := Do(st, Decrement(t));
    if s1.threads[t].Idle? {
      states, steps := [st, s1], [Decrement(t)];
    } else {
      var s2 := Do(s1, CloseReader(t));
      states, steps := [st, s1, s2, Do(s2, RemoveFile(t))], [Decrement(t), CloseReader(t), RemoveFile(t)];
    }
  }

  // ----- overlapping compactions

  /** Dropping the list's reference keeps the account exactly when the list still has one. */
  lemma TakeOffKeepsInvIff(st: State, t: nat, why: Reason)
    requires Inv(st) && Enabled(st, TakeOff(t, why))
    ensures Inv(Do(st, TakeOff(t, why))) <==> st.inList
    ensures Disciplined(st, TakeOff(t, why)) <==> st.inList
  {
    if st.inList {
      StepKeepsInv(st, TakeOff(t, why));
    } else {
      OwnersUpdate(st.threads, t, OffList(why));
    }
  }

  /**
   * A second compaction of the same table takes away the reference of the last reader: the reader is
   * closed and the file removed while it is still held.
   */
  lemma SecondDropClosesHeldReader(st: State, h: nat, u: nat) returns (states: seq<State>)
    requires Inv(st) && !st.inList && st.refCount == 1
    requires h < |st.threads| && u < |st.threads| && st.threads[h].Holding? && st.threads[u].Idle?
    ensures IsExecution(states, [TakeOff(u, Retired), Mark(u), Decrement(u), CloseReader(u), RemoveFile(u)])
    ensures |states| == 6 && states[0] == st && |states[5].threads| == |st.threads|
    ensures states[5].threads[h].Holding? && !states[5].readerOpen && !states[5].onDisk
  {
    var s1 := Do(st, TakeOff(u, Retired));
    var s2 := Do(s1, Mark(u));
    var s3 := Do(s2, Decrement(u));
    var s4 := Do(s3, CloseReader(u));
    states := [st, s1, s2, s3, s4, Do(s4, RemoveFile(u))];
  }

  /** Some run from a fresh file leads to the state, and it has kept the rule. */
  ghost predicate Reached(st: State) {
    exists states, steps :: IsRun(states, steps) && |states| == |steps| + 1 && states[|steps|] == st
  }

  lemma InitReached(n: nat)
    ensures Reached(Init(n))
  {
    var steps: seq<Step> := [];
    assert IsRun([Init(n)], steps);
  }

  lemma Take(st: State, step: Step) returns (st': State)
    requires Reached(st) && Enabled(st, step) && Disciplined(st, step)
    ensures st' == Do(st, step) && Reached(st')
  {
    st' := Do(st, step);
    assert Next(st, step, st');
    hide Next;
    hide Do;
    hide Init;
    var states, steps :| IsRun(states, steps) && |states| == |steps| + 1 && states[|steps|] == st;
    var states', steps' := states + [st'], steps + [step];
    var n: nat :| states[0] == Init(n);
    assert states'[0] == Init(n);
    forall i | 0 <= i < |steps'| ensures Next(states'[i], steps'[i], states'[i + 1]) {
      assert i < |steps| ==> Next(states[i], steps[i], states[i + 1]);
    }
    assert IsRun(states', steps');
  }

  /** GetTables on a listed file, undisturbed: one more reference. */
  lemma Acquire(st: State, t: nat) returns (st': State)
    requires Reached(st) && st.inList && st.refCount > 0 && !st.unlinked && !st.closed
    requires t < |st.threads| && st.threads[t].Idle?
    ensures Reached(st') && st' == st.(refCount := st.refCount + 1, threads := st.threads[t := Holding])
  {
    hide Reached;
    var s1 := Take(st, Enter(t));
    var s2 := Take(s1, Load(t));
    var s3 := Take(s2, CheckUnlinked(t));
    var s4 := Take(s3, CheckClosed(t));
    st' := Take(s4, CompareAndSwap(t));
  }

  /** A reader in thread 1 and the compactions in threads 2 and 3 have taken the same tables. */
  lemma ThreeHolders() returns (st: State)
    ensures Reached(st) && st == State(4, false, false, true, true, true, [Idle, Holding, Holding, Holding])
  {
    hide Reached;
    InitReached(3);
    assert Init(3).threads == [Creating, Idle, Idle, Idle];
    var s0 := Take(Init(3), Publish(0));
    assert s0.threads == [Idle, Idle, Idle, Idle];
    var s1 := Acquire(s0, 1);
    var s2 := Acquire(s1, 2);
    st := Acquire(s2, 3);
    assert st.threads == [Idle, Holding, Holding, Holding];
  }

  /** The first compaction drops the list's reference, and then its own. */
  lemma FirstCompactionDone() returns (st: State)
    ensures Reached(st) && st == State(2, true, false, false, true, true, [Idle, Holding, Idle, Holding])
  {
    var s0 := ThreeHolders();
    hide Reached;
    var s1 := Take(s0, TakeOff(0, Retired));
    var s2 := Take(s1, Mark(0));
    var s3 := Take(s2, Decrement(0));
    st := Take(s3, Decrement(2));
    assert st.threads == [Idle, Holding, Idle, Holding];
  }

  /**
   * Two overlapping compactions of one table: the second ReplaceTables drops a reference that the
   * list no longer has, and with the second ReleaseTables the reader is closed and the file removed
   * while thread 1 still holds it.
   */
  lemma OverlappingCompactions() returns (states: seq<State>)
    ensures IsExecution(states, [TakeOff(0, Retired), Mark(0), Decrement(0), Decrement(3), CloseReader(3),
                                 RemoveFile(3)])
    ensures Reached(states[0]) && !Disciplined(states[0], TakeOff(0, Retired))
    ensures |states| == 7 && |states[6].threads| == 4 && states[6].threads[1].Holding?
    ensures !states[6].readerOpen && !states[6].onDisk
  {
    var st := FirstCompactionDone();
    var s1 := Do(st, TakeOff(0, Retired));
    var s2 := Do(s1, Mark(0));
    var s3 := Do(s2, Decrement(0));
    var s4 := Do(s3, Decrement(3));
    var s5 := Do(s4, CloseReader(3));
    states := [st, s1, s2, s3, s4, s5, Do(s5, RemoveFile(3))];
  }
}
