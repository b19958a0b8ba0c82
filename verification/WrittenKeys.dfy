/** In every reachable state nothing is stored under a key that was never written. */
module WrittenKeys {
  import opened Base
  import opened History
  import opened Generations
  import opened Compaction
  import opened SegmentLog
  import opened Engine
  import opened EngineInvariant
  import opened EngineTheorems
  import opened Sequential

  ghost predicate KeysWithin(ts: Tables, keys: set<Key>) {
    forall g :: g in ts ==> ts[g].Keys <= keys
  }

  /** Nothing is stored under a key that was never written. */
  ghost predicate KeysInv(st: State) {
    var keys := Fold(st.history).Keys;
    && (forall i :: 0 <= i < |st.mems| ==> st.mems[i].contents.Keys <= keys)
    && KeysWithin(st.list, keys) && KeysWithin(st.files, keys) && KeysWithin(st.retired, keys)
  }

  lemma SuffixKeys(h: seq<Entry>, lo: nat)
    requires lo <= |h|
    ensures Fold(h[lo..]).Keys <= Fold(h).Keys
  {
    FoldConcat(h[..lo], h[lo..]);
    hide Fold;
    assert h == h[..lo] + h[lo..];
  }

  lemma MoreKeys(h: seq<Entry>, op: Entry)
    ensures Fold(h + [op]) == Fold(h)[op.key := op.cell]
  {
    assert (h + [op])[..|h|] == h;
  }

  lemma MergeKeys(ts: Tables, gens: set<nat>, major: bool, keys: set<Key>)
    requires KeysWithin(ts, keys)
    ensures Merge(Restrict(ts, gens), major).Keys <= keys
  {
    var snap := Restrict(ts, gens);
    forall k | k in Merge(snap, major) ensures k in keys {
      var g :| g in snap && k in snap[g];
      assert ts[g].Keys <= keys;
    }
  }

  lemma PutKeepsKeys(st: State)
    requires KeysInv(st) && Enabled(st, PutMem)
    ensures KeysInv(Do(st, PutMem))
  {
    hide Fold;
    hide KeysWithin;
    MoreKeys(st.history, st.pending.value);
    var keys, keys' := Fold(st.history).Keys, Fold(Do(st, PutMem).history).Keys;
    KeysGrow(st.list, keys, keys');
    KeysGrow(st.files, keys, keys');
    KeysGrow(st.retired, keys, keys');
  }

  lemma MutableKeys(st: State)
    requires Inv(st)
    ensures st.mems != [] && Mut(st).contents.Keys <= Fold(st.history).Keys
  {
    var mut := Mut(st);
    assert mut.lo <= |st.history| && mut.contents == Fold(st.history[mut.lo..]);
    SuffixKeys(st.history, mut.lo);
    hide *;
  }

  lemma ReopenedParts(st: State, keep: bool, torn: bool)
    requires Enabled(st, Crash(keep, torn))
    ensures var st' := Do(st, Crash(keep, torn));
            && |st'.mems| == 1 && st'.list == st'.files == st.files && st'.retired == map[]
            && (st'.history == st.history
                || (st.pending.Some? && st'.history == st.history + [st.pending.value]))
  {
    hide Fold;
    hide MaxGen;
    hide Surviving;
  }

  lemma KeysGrow(ts: Tables, a: set<Key>, b: set<Key>)
    requires KeysWithin(ts, a) && a <= b
    ensures KeysWithin(ts, b)
  {}

  lemma CrashKeepsKeys(st: State, keep: bool, torn: bool)
    requires KeysInv(st) && Inv(st) && Enabled(st, Crash(keep, torn)) && Disciplined(st, Crash(keep, torn))
    ensures KeysInv(Do(st, Crash(keep, torn)))
  {
    hide Inv;
    hide Do;
    hide Enabled;
    hide Disciplined;
    hide Fold;
    hide KeysWithin;
    StepKeepsInv(st, Crash(keep, torn));
    ReopenedParts(st, keep, torn);
    MutableKeys(Do(st, Crash(keep, torn)));
    if st.pending.Some? {
      MoreKeys(st.history, st.pending.value);
    }
    KeysGrow(st.files, Fold(st.history).Keys, Fold(Do(st, Crash(keep, torn)).history).Keys);
    assert KeysWithin(map[], Fold(Do(st, Crash(keep, torn)).history).Keys) by {
      NoTables(Fold(Do(st, Crash(keep, torn)).history).Keys);
    }
  }

  lemma NoTables(keys: set<Key>)
    ensures KeysWithin(map[], keys)
  {}

  lemma CompactionKeepsKeys(st: State, step: Step)
    requires KeysInv(st) && Enabled(st, step) && (step.CompactWrite? || step.CompactReplace?)
    ensures KeysInv(Do(st, step))
  {
    MergeKeys(st.list, st.compact.snap, st.compact.major, Fold(st.history).Keys);
    hide Fold;
    hide Merge;
  }

  lemma StepKeepsKeys(st: State, step: Step)
    requires KeysInv(st) && Inv(st) && Enabled(st, step) && Disciplined(st, step)
    ensures KeysInv(Do(st, step))
  {
    match step {
      case PutMem => PutKeepsKeys(st);
      case Crash(keep, torn) => CrashKeepsKeys(st, keep, torn);
      case CompactWrite => CompactionKeepsKeys(st, step);
      case CompactReplace => CompactionKeepsKeys(st, step);
      case _ => OtherKeepsKeys(st, step);
    }
  }

  lemma OtherKeepsKeys(st: State, step: Step)
    requires KeysInv(st) && Enabled(st, step)
    requires !step.PutMem? && !step.Crash? && !step.CompactWrite? && !step.CompactReplace?
    ensures KeysInv(Do(st, step))
  {
    hide Fold;
  }

  lemma {:induction false} PathKeepsKeys(states: seq<State>, steps: seq<Step>, i: nat)
    requires IsPath(states, steps) && |states| == |steps| + 1 && states[0] == Init && i <= |steps|
    ensures Inv(states[i]) && KeysInv(states[i])
  {
    hide Inv;
    hide KeysInv;
    if i == 0 {
      InitKeys();
    } else {
      PathKeepsKeys(states, steps, i - 1);
      assert Next(states[i - 1], steps[i - 1], states[i]);
      hide Do;
      StepKeepsInv(states[i - 1], steps[i - 1]);
      StepKeepsKeys(states[i - 1], steps[i - 1]);
    }
  }

  lemma InitKeys()
    ensures Inv(Init) && KeysInv(Init)
  {
    InitInv();
    hide Inv;
  }

  /** In every reachable state, whatever a lookup finds under a key was written under that key. */
  lemma FoundWasWritten(st: State, k: Key)
    requires Reachable(st) && st.mems != []
    ensures View(st, k).Some? ==> k in Fold(st.history)
  {
    ReachableKeys(st);
    hide Fold;
    if k !in Mut(st).contents && k !in ImmContents(st) && Newest(st.list, k).Some? {
      NewestNone(st.list, k);
      var g :| g in st.list && k in st.list[g];
      assert st.list[g].Keys <= Fold(st.history).Keys;
    }
  }

  lemma ReachableKeys(st: State)
    requires Reachable(st)
    ensures KeysInv(st)
  {
    hide KeysInv;
    hide Inv;
    var states, steps :|
      IsPath(states, steps) && |states| == |steps| + 1 && states[0] == Init && states[|steps|] == st;
    PathKeepsKeys(states, steps, |steps|);
  }
}
