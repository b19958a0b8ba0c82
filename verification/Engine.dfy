/**
 * The engine as a state machine. Each step is one critical section or one atomic action of the
 * code, so every interleaving of writers, one flush and one compaction is a run of steps.
 */
module Engine {
  import opened Base
  import opened History
  import opened Generations
  import opened Compaction
  import opened SegmentLog
  import opened Unlinking

  /** `lo` and `hi` say which part of the history the memtable holds; no step reads them. */
  datatype Mem = Mem(contents: Contents, frozen: bool, lo: nat, hi: nat)

  /** How far flushImmutable has come. */
  datatype Flush =
    | FlushIdle
    | FlushBegun(mem: nat, sealed: nat)
    | FlushNumbered(mem: nat, sealed: nat, gen: nat)
    | FlushWritten(mem: nat, sealed: nat, gen: nat)
    | FlushPublished(mem: nat, sealed: nat)
    | FlushReclaiming(sealed: nat)

  /** How far a compaction has come; `snap` are the generations it captured. */
  datatype Compact =
    | CompactIdle
    | CompactCaptured(snap: set<nat>, major: bool)
    | CompactNumbered(snap: set<nat>, major: bool, target: nat)
    | CompactWritten(snap: set<nat>, major: bool, target: nat)

  /** A crash in the middle of an append leaves a torn record at the end of a segment. */
  datatype Tail = Whole | Torn(segment: nat, appended: bool)

  /**
   * The mutable memtable is the last of `mems`. Segment ids run from `base`, and the last segment
   * is the active one. `pending` is a record that is logged but not yet in the memtable; its writer
   * holds the engine lock. The last four fields are auxiliary: no step reads them.
   */
  datatype State = State(
    mems: seq<Mem>, imm: Option<nat>, immSegment: nat,
    list: Tables, files: Tables, nextGen: nat,
    base: nat, log: seq<seq<Entry>>, tail: Tail,
    pending: Option<Entry>, flush: Flush, compact: Compact,
    history: seq<Entry>, retired: Tables, majors: bool, stored: nat)

  datatype Step =
    | Log(op: Entry, rotate: bool)
    | PutMem
    | Freeze
    | FlushBegin
    | FlushNumber
    | FlushWrite
    | FlushPublish
    | FlushClear
    | ReclaimSegment
    | FlushEnd
    | CompactCapture(snap: set<nat>, major: bool)
    | CompactNumber
    | CompactWrite
    | CompactReplace
    | Unlink(gen: nat)
    | Crash(keep: bool, torn: bool)

  ghost const Init := State(
    [Mem(map[], false, 0, 0)], None, 0, map[], map[], 0, 1, [[]], Whole,
    None, FlushIdle, CompactIdle, [], map[], false, 0)

  ghost function Active(st: State): int {
    st.base + |st.log| - 1
  }

  ghost function Mut(st: State): Mem
    requires st.mems != []
  {
    st.mems[|st.mems| - 1]
  }

  /** What a lookup through mutable, immutable and tables finds. */
  ghost function Through(mut: Contents, imm: Contents, list: Tables, k: Key): Option<Cell> {
    if k in mut then Some(mut[k]) else if k in imm then Some(imm[k]) else Newest(list, k)
  }

  ghost function ImmContents(st: State): Contents {
    if st.imm.Some? && st.imm.value < |st.mems| then st.mems[st.imm.value].contents else map[]
  }

  ghost function View(st: State, k: Key): Option<Cell>
    requires st.mems != []
  {
    Through(Mut(st).contents, ImmContents(st), st.list, k)
  }

  // ----- steps

  /** Segments `Replay` can read: a torn record is tolerated at the very end of the last one only. */
  ghost predicate Replayable(st: State) {
    st.tail.Torn? ==> st.tail.segment == Active(st) && !st.tail.appended
  }

  ghost predicate Enabled(st: State, step: Step) {
    && st.mems != [] && st.log != []
    && match step
       case Log(op, rotate) => st.pending.None?
       case PutMem => st.pending.Some?
       case Freeze => st.pending.None? && st.imm.None?
       case FlushBegin => st.pending.None? && st.flush.FlushIdle? && st.imm.Some?
       case FlushNumber => st.flush.FlushBegun?
       case FlushWrite => st.flush.FlushNumbered? && st.flush.mem < |st.mems|
       case FlushPublish => st.flush.FlushWritten? && st.flush.gen in st.files
       case FlushClear => st.flush.FlushPublished? && st.pending.None?
       case ReclaimSegment => st.flush.FlushReclaiming? && st.base <= st.flush.sealed && |st.log| > 1
       case FlushEnd => st.flush.FlushReclaiming? && (st.flush.sealed < st.base || |st.log| == 1)
       case CompactCapture(snap, major) => st.compact.CompactIdle? && snap != {} && snap <= st.list.Keys
       case CompactNumber => st.compact.CompactCaptured?
       case CompactWrite => st.compact.CompactNumbered?
       case CompactReplace => st.compact.CompactWritten?
       case Unlink(gen) => gen in st.retired
       case Crash(keep, torn) => true
  }

  /**
   * What the code relies on without checking it: generations are handed out and published in the
   * order of the data they hold, a compacted range is the newest run of tables or, for a major one,
   * all of them, and a crash finds a log that can be replayed and no half-unlinked major compaction.
   */
  ghost predicate Disciplined(st: State, step: Step) {
    match step
    case FlushPublish => !st.compact.CompactCaptured?
    case CompactNumber => !st.flush.FlushNumbered? && !st.flush.FlushWritten?
    case CompactCapture(snap, major) =>
      forall g :: g in st.list && g !in snap ==> !major && forall c :: c in snap ==> g < c
    case Crash(keep, torn) =>
      Replayable(st) && (st.majors ==> UpwardClosed(st.retired.Keys, st.retired.Keys * st.files.Keys))
    case _ => true
  }

  /** The record lands in the active segment, after a rotation if it would overflow. */
  ghost function LogRecord(st: State, op: Entry, rotate: bool): State
    requires st.log != []
  {
    var log := Appended(st.log, rotate, op);
    st.(log := log, pending := Some(op),
        tail := if st.tail.Torn? && st.tail.segment == st.base + |log| - 1 then st.tail.(appended := true) else st.tail)
  }

  ghost function PutPending(st: State): State
    requires st.mems != [] && st.pending.Some?
  {
    var op := st.pending.value;
    var mut := Mut(st);
    st.(mems := st.mems[|st.mems| - 1 := mut.(contents := mut.contents[op.key := op.cell], hi := mut.hi + 1)],
        history := st.history + [op], pending := None)
  }

  ghost function FreezeMutable(st: State): State
    requires st.mems != [] && st.log != []
  {
    var n := |st.mems| - 1;
    st.(mems := st.mems[n := Mut(st).(frozen := true)] + [Mem(map[], false, Mut(st).hi, Mut(st).hi)],
        imm := Some(n), immSegment := Active(st), log := st.log + [[]])
  }

  ghost function MaxGen(gens: set<nat>): nat {
    if exists g :: g in gens && forall h :: h in gens ==> h <= g then
      var g :| g in gens && forall h :: h in gens ==> h <= g; g
    else 0
  }

  /** The part of the log that survives: a crash during an append may lose the record. */
  ghost function Surviving(st: State, keep: bool): (log: seq<seq<Entry>>)
    requires st.log != []
    ensures |log| == |st.log|
  {
    var n := |st.log| - 1;
    if st.pending.Some? && !keep && st.log[n] != [] then st.log[n := st.log[n][..|st.log[n]| - 1]] else st.log
  }

  /**
   * Reopening: Load lists every file on disk and Recover replays every segment. The record lost by a
   * crash leaves part of its bytes behind when `torn`, and none otherwise.
   */
  ghost function Reopened(st: State, keep: bool, torn: bool): State
    requires st.log != []
  {
    var log := Surviving(st, keep);
    var history := if st.pending.Some? && keep then st.history + [st.pending.value] else st.history;
    var replayed := Flat(log);
    var lo := if |replayed| <= |history| then |history| - |replayed| else 0;
    st.(mems := [Mem(Fold(replayed), false, lo, |history|)], imm := None, immSegment := 0,
        list := st.files, nextGen := MaxGen(st.files.Keys),
        log := log, tail := if st.pending.Some? && !keep && torn then Torn(Active(st), false) else st.tail,
        pending := None, flush := FlushIdle, compact := CompactIdle,
        history := history, retired := map[], majors := false,
        stored := if st.flush.FlushWritten? && st.flush.mem < |st.mems| then st.mems[st.flush.mem].hi else st.stored)
  }

  ghost function Do(st: State, step: Step): State
    requires Enabled(st, step)
  {
    match step
    case Log(op, rotate) => LogRecord(st, op, rotate)
    case PutMem => PutPending(st)
    case Freeze => FreezeMutable(st)
    case FlushBegin => st.(flush := FlushBegun(st.imm.value, st.immSegment))
    case FlushNumber =>
      st.(nextGen := st.nextGen + 1, flush := FlushNumbered(st.flush.mem, st.flush.sealed, st.nextGen + 1))
    case FlushWrite =>
      st.(files := st.files[st.flush.gen := st.mems[st.flush.mem].contents],
          flush := FlushWritten(st.flush.mem, st.flush.sealed, st.flush.gen))
    case FlushPublish =>
      st.(list := st.list[st.flush.gen := st.files[st.flush.gen]],
          flush := FlushPublished(st.flush.mem, st.flush.sealed),
          stored := if st.flush.mem < |st.mems| then st.mems[st.flush.mem].hi else st.stored)
    case FlushClear =>
      st.(imm := if st.imm == Some(st.flush.mem) then None else st.imm, flush := FlushReclaiming(st.flush.sealed))
    case ReclaimSegment =>
      st.(base := st.base + 1, log := st.log[1..],
          tail := if st.tail.Torn? && st.tail.segment == st.base then Whole else st.tail)
    case FlushEnd => st.(flush := FlushIdle)
    case CompactCapture(snap, major) => st.(compact := CompactCaptured(snap, major))
    case CompactNumber =>
      st.(nextGen := st.nextGen + 1, compact := CompactNumbered(st.compact.snap, st.compact.major, st.nextGen + 1))
    case CompactWrite =>
      var c := st.compact;
      st.(files := WithTable(st.files, c.target, Merge(Restrict(st.list, c.snap), c.major)),
          compact := CompactWritten(c.snap, c.major, c.target))
    case CompactReplace =>
      var c := st.compact;
      st.(list := Replaced(st.list, c.snap, c.target, c.major), compact := CompactIdle,
          retired := st.retired + Restrict(st.list, c.snap), majors := st.majors || c.major)
    case Unlink(gen) => st.(files := st.files - {gen})
    case Crash(keep, torn) => Reopened(st, keep, torn)
  }

  ghost predicate Next(st: State, step: Step, st': State) {
    Enabled(st, step) && Disciplined(st, step) && st' == Do(st, step)
  }

  // ----- invariant

  ghost predicate MemInv(st: State) {
    && st.mems != [] && st.stored <= |st.history|
    && (forall i :: 0 <= i < |st.mems| - 1 ==> st.mems[i].frozen)
    && var mut := Mut(st);
    && !mut.frozen && mut.lo <= mut.hi == |st.history| && mut.contents == Fold(st.history[mut.lo..])
    && match st.imm
       case None => mut.lo <= st.stored
       case Some(i) =>
         && i == |st.mems| - 2
         && var imm := st.mems[i];
         && imm.lo <= st.stored <= imm.hi <= |st.history| && mut.lo == imm.hi
         && imm.contents == Fold(st.history[imm.lo..imm.hi])
  }

  /** Every record ever logged, in order: the history and the pending record. */
  ghost function Written(st: State): seq<Entry> {
    st.history + if st.pending.Some? then [st.pending.value] else []
  }

  /** Where in the history the surviving segments begin. */
  ghost function LogStart(st: State): int {
    |Written(st)| - |Flat(st.log)|
  }

  /** Where the segments up to and including `q` end. */
  ghost function SealedEnd(st: State, q: nat): int
    requires st.base <= q <= Active(st)
  {
    LogStart(st) + |Flat(st.log[..q + 1 - st.base])|
  }

  ghost predicate WalInv(st: State)
    requires MemInv(st)
  {
    && st.log != []
    && 0 <= LogStart(st) <= st.stored && LogStart(st) <= Mut(st).lo
    && Flat(st.log) == Written(st)[LogStart(st)..]
    && (st.pending.Some? ==> st.log[|st.log| - 1] != [])
    && (st.imm.Some? ==>
          && LogStart(st) <= st.mems[st.imm.value].lo
          && st.base <= st.immSegment < Active(st)
          && SealedEnd(st, st.immSegment) == st.mems[st.imm.value].hi)
  }

  ghost predicate FlushInv(st: State)
    requires MemInv(st) && WalInv(st)
  {
    if st.flush.FlushIdle? then true
    else if st.flush.FlushReclaiming? then
      var q := st.flush.sealed;
      st.base <= q ==>
        && q < Active(st)
        && SealedEnd(st, q) <= st.stored && SealedEnd(st, q) <= Mut(st).lo
        && (st.imm.Some? ==> q < st.immSegment && SealedEnd(st, q) <= st.mems[st.imm.value].lo)
    else
      && st.imm == Some(st.flush.mem) && st.immSegment == st.flush.sealed
      && (st.flush.FlushPublished? ==> st.stored == st.mems[st.flush.mem].hi)
  }

  ghost predicate GenInv(st: State) {
    && (forall g :: g in st.list || g in st.retired ==> g <= st.nextGen)
    && (st.flush.FlushNumbered? || st.flush.FlushWritten? ==>
          && st.flush.gen <= st.nextGen
          && (forall g :: g in st.list || g in st.retired ==> g < st.flush.gen)
          && (st.compact.CompactNumbered? || st.compact.CompactWritten? ==> st.compact.target < st.flush.gen))
    && match st.compact
       case CompactIdle => true
       case CompactCaptured(snap, major) =>
         && snap <= st.list.Keys
         && forall g :: g in st.list && g !in snap ==> !major && forall c :: c in snap ==> g < c
       case _ =>
         && InOrder(st.list.Keys, st.compact.snap, st.compact.target, st.compact.major)
         && st.compact.target !in st.list && st.compact.target <= st.nextGen
         && forall r :: r in st.retired ==> r < st.compact.target
  }

  /** The files are the listed tables, the retired ones not yet unlinked, and what is being written. */
  ghost function ExpectedFiles(st: State): Tables {
    var kept := st.list + Restrict(st.retired, st.files.Keys);
    var merged := if st.compact.CompactWritten? then
        WithTable(kept, st.compact.target, Merge(Restrict(st.list, st.compact.snap), st.compact.major))
      else kept;
    if st.flush.FlushWritten? && st.flush.mem < |st.mems| then
      merged[st.flush.gen := st.mems[st.flush.mem].contents]
    else merged
  }

  ghost predicate TableInv(st: State)
    requires st.stored <= |st.history|
  {
    && ShowsLive(st.list, Fold(st.history[..st.stored]))
    && Dormant(st.list, st.retired)
    && (!st.majors ==> Shadowed(st.list, st.retired))
    && st.files == ExpectedFiles(st)
  }

  ghost predicate Inv(st: State) {
    MemInv(st) && WalInv(st) && FlushInv(st) && GenInv(st) && TableInv(st)
  }
}
