/** Whole sessions: what one run of the program writes is what the next one finds. */
module Sessions {
  import opened Base
  import opened History
  import opened SegmentLog
  import G = Generations
  import E = Engine
  import S = Sequential
  import R = WalRecord
  import W = Wal
  import opened MemTables
  import opened Compactor
  import opened TableLists
  import opened WispStates
  import opened Wisps

  /** The log of these writes can be read back, into one memtable. */
  ghost predicate Recoverable(h: seq<Entry>) {
    TotalWeight(h) < TWO_64 && forall r :: r in h ==> Writable(r)
  }

  lemma {:induction false} SuffixWeight(h: seq<Entry>, lo: nat)
    requires lo <= |h|
    ensures TotalWeight(h[lo..]) <= TotalWeight(h)
  {
    if lo < |h| {
      SuffixWeight(h[..|h| - 1], lo);
      assert h[lo..][..|h[lo..]| - 1] == h[..|h| - 1][lo..];
    }
  }

  lemma {:induction false} FlatHas(log: seq<seq<Entry>>, i: nat, r: Entry)
    requires i < |log| && r in log[i]
    ensures r in Flat(log)
  {
    if i < |log| - 1 {
      FlatHas(log[..|log| - 1], i, r);
    }
  }

  /** A log that holds the last of recoverable writes can be replayed. */
  lemma SuffixReplayable(log: seq<seq<Entry>>, h: seq<Entry>, lo: nat)
    requires lo <= |h| && Flat(log) == h[lo..] && Recoverable(h)
    ensures Replayable(log)
  {
    SuffixWeight(h, lo);
    hide TotalWeight;
    hide Flat;
    hide Plain;
    assert forall r :: r in Flat(log) ==> r in h;
    forall i, r | 0 <= i < |log| && r in log[i] ensures R.Fits(r) {
      FlatHas(log, i, r);
      assert r in h;
    }
  }

  lemma LogIsSuffix(st: E.State)
    requires E.Inv(st)
    ensures st.log != [] && 0 <= E.LogStart(st) <= |E.Written(st)| && Flat(st.log) == E.Written(st)[E.LogStart(st)..]
  {}

  lemma IdleLog(st: E.State)
    requires S.Good(st) && Recoverable(st.history)
    ensures st.log != [] && Replayable(st.log)
  {
    LogIsSuffix(st);
    assert E.Written(st) == st.history + [] == st.history;
    hide E.Inv;
    hide S.Reachable;
    hide Recoverable;
    hide Replayable;
    SuffixReplayable(st.log, st.history, E.LogStart(st));
  }

  /** With nothing under way the files on disk are the listed tables. */
  lemma IdleFiles(st: E.State)
    requires E.Inv(st) && S.Idle(st)
    ensures st.files == st.list
  {
    assert st.files == E.ExpectedFiles(st);
    hide E.Inv;
    var none := G.Restrict(st.retired, st.files.Keys);
    assert none.Keys == {};
    assert st.list + none == st.list;
  }

  /** Stopping between two operations leaves a log and tables that can be opened again. */
  lemma IdleLeaves(st: E.State, p: Picture, crc: R.Checksum, segments: map<nat, Bytes>)
    requires S.Good(st) && Matches(st, p) && p.base >= 1
    requires W.GapIn(crc, p.base, p.log, p.gap) && W.AtEnd(p.gap, p.base, p.log)
    requires segments == W.FilesWith(crc, p.base, p.log, p.gap)
    ensures LeftBehind(st, p.gap, 0, crc, segments, p.tables)
    ensures !Keeps(st, crc, 0) && !Tears(st, crc, 0)
  {
    IdleFiles(st);
    hide E.Inv;
    hide S.Reachable;
    hide R.Frame;
    hide W.FilesWith;
    hide W.CrashLeaves;
    assert st.retired.Keys * st.files.Keys == {};
  }

  /** What reopening makes of a state with nothing in flight. */
  lemma IdleReopens(st: E.State, gap: W.Gap, crc: R.Checksum)
    requires st.pending.None? && st.log != []
    ensures E.Surviving(st, Keeps(st, crc, 0)) == st.log && GapLeft(st, gap, 0, crc) == gap
    ensures E.Reopened(st, Keeps(st, crc, 0), Tears(st, crc, 0)).history == st.history
  {
    hide Flat;
    hide Fold;
    hide E.MaxGen;
    hide R.Frame;
  }

  /** The log and the tables of a state between two operations, as the next process needs them. */
  lemma LeavesAll(st: E.State, p: Picture, crc: R.Checksum, segments: map<nat, Bytes>)
    requires S.Good(st) && Matches(st, p) && p.base >= 1 && Recoverable(st.history)
    requires W.GapIn(crc, p.base, p.log, p.gap) && W.AtEnd(p.gap, p.base, p.log)
    requires segments == W.FilesWith(crc, p.base, p.log, p.gap)
    ensures LeftBehind(st, p.gap, 0, crc, segments, p.tables)
    ensures st.log != [] && Replayable(E.Surviving(st, Keeps(st, crc, 0))) && GapLeft(st, p.gap, 0, crc) == p.gap
    ensures E.Reopened(st, Keeps(st, crc, 0), Tears(st, crc, 0)).history == st.history
  {
    hide Matches;
    hide E.Inv;
    hide S.Reachable;
    hide Replayable;
    hide Recoverable;
    hide Keeps;
    hide Tears;
    hide GapLeft;
    hide LeftBehind;
    hide E.Surviving;
    hide E.Reopened;
    hide W.FilesWith;
    hide W.GapIn;
    hide W.AtEnd;
    IdleLog(st);
    IdleLeaves(st, p, crc, segments);
    IdleReopens(st, p.gap, crc);
  }

  /** A process that stops between two operations finds all its writes again. */
  method Restart(w: Wisp, maxSegmentSize: nat, threshold: uint64) returns (again: Wisp)
    requires w.Valid() && W.AtEnd(w.wal.gap, w.wal.base, w.wal.log) && Recoverable(w.st.history)
    ensures fresh(again.Repr) && again.Valid() && again.st.history == w.st.history
    ensures again.wal.crc == w.wal.crc && again.wal.files == w.wal.files && again.wal.gap == w.wal.gap
    ensures again.threshold == if threshold == 0 then 4 * 1024 * 1024 else threshold
  {
    hide S.Good;
    hide Matches;
    hide Replayable;
    hide Recoverable;
    hide Keeps;
    hide Tears;
    hide GapLeft;
    hide LeftBehind;
    hide E.Surviving;
    hide E.Reopened;
    hide W.FilesWith;
    hide W.GapIn;
    hide W.AtEnd;
    hide MemTable.Valid;
    hide SSTableList.Valid;
    hide TotalWeight;
    hide Fold;
    hide Served;
    LeavesAll(w.st, w.Now(), w.wal.crc, w.wal.files);
    var ok;
    again, ok :=
      ReopenWisp(w.wal.crc, maxSegmentSize, threshold, w.wal.files, Served(w.list.tables), w.st, w.wal.gap, 0);
  }

  // ----- scripts

  /** What a program can do to the database; a restart is a crash between two operations. */
  datatype Command = Write(op: Entry) | FlushNow | CompactNow | CloseAndOpen | CrashAndOpen

  ghost function Writes(cs: seq<Command>): seq<Entry> {
    if cs == [] then [] else
    var c := cs[|cs| - 1];
    Writes(cs[..|cs| - 1]) + if c.Write? then [c.op] else []
  }

  lemma {:induction false} WritesPrefix(cs: seq<Command>, i: nat)
    requires i <= |cs|
    ensures exists m: nat :: m <= |Writes(cs)| && Writes(cs[..i]) == Writes(cs)[..m]
  {
    if i == |cs| {
      assert cs[..i] == cs;
      assert Writes(cs)[..|Writes(cs)|] == Writes(cs);
    } else {
      var n := |cs| - 1;
      WritesPrefix(cs[..n], i);
      assert cs[..n][..i] == cs[..i];
      var m: nat :| m <= |Writes(cs[..n])| && Writes(cs[..i]) == Writes(cs[..n])[..m];
      assert Writes(cs)[..m] == Writes(cs[..n])[..m];
    }
  }

  lemma {:induction false} PrefixWeight(h: seq<Entry>, m: nat)
    requires m <= |h|
    ensures TotalWeight(h[..m]) <= TotalWeight(h)
    decreases |h|
  {
    if m < |h| {
      PrefixWeight(h[..|h| - 1], m);
      assert h[..|h| - 1][..m] == h[..m];
    } else {
      assert h[..m] == h;
    }
  }

  /** What a script has written by any of its points is recoverable if all it writes is. */
  lemma PrefixRecoverable(cs: seq<Command>, i: nat)
    requires i <= |cs| && Recoverable(Writes(cs))
    ensures Recoverable(Writes(cs[..i]))
  {
    WritesPrefix(cs, i);
    var m: nat :| m <= |Writes(cs)| && Writes(cs[..i]) == Writes(cs)[..m];
    PrefixWeight(Writes(cs), m);
    hide TotalWeight;
  }

  lemma NextWrite(cs: seq<Command>, i: nat)
    requires i < |cs| && Recoverable(Writes(cs))
    ensures Writes(cs[..i + 1]) == Writes(cs[..i]) + if cs[i].Write? then [cs[i].op] else []
    ensures cs[i].Write? ==> Writable(cs[i].op)
  {
    PrefixRecoverable(cs, i + 1);
    assert cs[..i + 1][..i] == cs[..i];
    if cs[i].Write? {
      assert cs[i].op in Writes(cs[..i + 1]);
    }
    hide TotalWeight;
  }

  /** The database between two commands: all writes are in its history, and no bytes are torn. */
  ghost predicate Opened(w: Wisp, h: seq<Entry>, crc: R.Checksum, threshold: uint64)
    reads w, w.Repr, w.wal
  {
    && w.Valid() && w.st.history == h && w.wal.crc == crc && w.wal.gap.NoGap?
    && w.threshold == if threshold == 0 then 4 * 1024 * 1024 else threshold
  }

  /** The size of a memtable of this threshold does not wrap around with one more write. */
  predicate Moderate(threshold: uint64) {
    threshold + 16 + 64 * 1024 * 1024 <= TWO_64
  }

  predicate Writable(op: Entry) {
    Plain(op) && 21 + |op.cell.value| <= 64 * 1024 * 1024
  }

  method PerformWrite(w: Wisp, op: Entry, ghost crc: R.Checksum, ghost threshold: uint64)
    requires Opened(w, w.st.history, crc, threshold) && Writable(op) && Moderate(threshold)
    modifies w.Repr
    ensures Opened(w, old(w.st.history) + [op], crc, threshold) && fresh(w.Repr - old(w.Repr))
  {
    hide Wisp.Valid;
    if op.cell.deleted {
      var ok := w.Delete(op.key);
    } else {
      var ok := w.Insert(op.key, op.cell.value);
    }
  }

  method PerformFlush(w: Wisp, ghost crc: R.Checksum, ghost threshold: uint64)
    requires Opened(w, w.st.history, crc, threshold)
    modifies w.Repr
    ensures Opened(w, old(w.st.history), crc, threshold) && fresh(w.Repr - old(w.Repr))
  {
    w.Flush();
  }

  method PerformCompact(w: Wisp, ghost crc: R.Checksum, ghost threshold: uint64)
    requires Opened(w, w.st.history, crc, threshold)
    modifies w.Repr
    ensures Opened(w, old(w.st.history), crc, threshold) && fresh(w.Repr - old(w.Repr))
  {
    w.Compact();
  }

  method Reopen(w: Wisp, maxSegmentSize: nat, threshold: uint64, ghost crc: R.Checksum) returns (again: Wisp)
    requires Opened(w, w.st.history, crc, threshold) && Recoverable(w.st.history)
    ensures Opened(again, w.st.history, crc, threshold) && fresh(again.Repr)
  {
    hide Recoverable;
    again := Restart(w, maxSegmentSize, threshold);
  }

  /** Closing and opening again: the next process finds what `Close` has left. */
  method CloseAndReopen(w: Wisp, maxSegmentSize: nat, threshold: uint64, ghost crc: R.Checksum) returns (again: Wisp)
    requires Opened(w, w.st.history, crc, threshold) && Recoverable(w.st.history)
    modifies w.Repr
    ensures Opened(again, old(w.st.history), crc, threshold) && fresh(again.Repr)
  {
    hide S.Good;
    hide Matches;
    hide Replayable;
    hide Recoverable;
    hide Keeps;
    hide Tears;
    hide GapLeft;
    hide LeftBehind;
    hide E.Surviving;
    hide E.Reopened;
    hide W.FilesWith;
    hide W.GapIn;
    hide W.AtEnd;
    hide Wisp.Valid;
    hide Served;
    ghost var p;
    var files;
    files, p := w.Close();
    NoTornBytes(w.wal, p);
    LeavesAll(w.st, p, w.wal.crc, w.wal.files);
    var ok;
    again, ok := ReopenWisp(w.wal.crc, maxSegmentSize, threshold, w.wal.files, Served(files), w.st, p.gap, 0);
  }

  lemma NoTornBytes(wal: W.WAL, p: Picture)
    requires wal.Valid() && wal.gap.NoGap? && p.base == wal.base && p.log == wal.log && p.gap == wal.gap
    ensures W.GapIn(wal.crc, p.base, p.log, p.gap) && W.AtEnd(p.gap, p.base, p.log)
    ensures wal.files == W.FilesWith(wal.crc, p.base, p.log, p.gap)
  {}

  /** One command. */
  method Perform(w: Wisp, c: Command, maxSegmentSize: nat, threshold: uint64, ghost crc: R.Checksum)
    returns (next: Wisp)
    requires Opened(w, w.st.history, crc, threshold) && Recoverable(w.st.history) && Moderate(threshold)
    requires c.Write? ==> Writable(c.op)
    modifies w.Repr
    ensures Opened(next, old(w.st.history) + (if c.Write? then [c.op] else []), crc, threshold)
    ensures fresh(next.Repr - old(w.Repr))
  {
    hide Opened;
    hide Recoverable;
    hide Writable;
    hide Moderate;
    assert w.st.history + [] == w.st.history;
    if c.CrashAndOpen? {
      next := Reopen(w, maxSegmentSize, threshold, crc);
    } else if c.CloseAndOpen? {
      next := CloseAndReopen(w, maxSegmentSize, threshold, crc);
    } else {
      next := w;
      PerformHere(w, c, crc, threshold);
    }
  }

  method PerformHere(w: Wisp, c: Command, ghost crc: R.Checksum, ghost threshold: uint64)
    requires Opened(w, w.st.history, crc, threshold) && Moderate(threshold)
    requires c.Write? || c.FlushNow? || c.CompactNow?
    requires c.Write? ==> Writable(c.op)
    modifies w.Repr
    ensures Opened(w, old(w.st.history) + (if c.Write? then [c.op] else []), crc, threshold)
    ensures fresh(w.Repr - old(w.Repr))
  {
    hide Opened;
    hide Writable;
    hide Moderate;
    assert w.st.history + [] == w.st.history;
    match c {
      case Write(op) => PerformWrite(w, op, crc, threshold);
      case FlushNow => PerformFlush(w, crc, threshold);
      case CompactNow => PerformCompact(w, crc, threshold);
    }
  }

  /** A script from an empty directory. */
  method Run(cs: seq<Command>, crc: R.Checksum, maxSegmentSize: nat, threshold: uint64) returns (w: Wisp)
    requires Recoverable(Writes(cs)) && Moderate(threshold)
    ensures Opened(w, Writes(cs), crc, threshold) && fresh(w.Repr)
  {
    hide Recoverable;
    hide Moderate;
    hide Wisp.Valid;
    w := CreateWisp(crc, maxSegmentSize, threshold);
    assert cs[..0] == [];
    for i := 0 to |cs|
      invariant Opened(w, Writes(cs[..i]), crc, threshold) && fresh(w.Repr)
    {
      PrefixRecoverable(cs, i);
      NextWrite(cs, i);
      w := Perform(w, cs[i], maxSegmentSize, threshold, crc);
    }
    assert cs[..|cs|] == cs;
  }

  method Look(w: Wisp, k: Key) returns (value: Bytes, found: bool, deleted: bool)
    requires w.Valid()
    modifies w.Repr
    ensures found == Live(Find(Fold(old(w.st.history)), k)).Some?
    ensures found ==> Live(Find(Fold(old(w.st.history)), k)) == Some(value)
    ensures deleted ==> k in Fold(old(w.st.history)) && Fold(old(w.st.history))[k].deleted
  {
    hide S.Good;
    hide Matches;
    hide Fold;
    value, found, deleted := w.Get(k);
  }

  /** A deleted key is reported as deleted, and not merely as missing. */
  method DeleteThenGet(w: Wisp, k: Key) returns (value: Bytes, found: bool, deleted: bool)
    requires w.Valid() && Moderate(w.threshold)
    modifies w.Repr
    ensures !found && deleted
  {
    hide Wisp.Valid;
    hide Fold;
    var ok := w.Delete(k);
    LastDecides(w.mutableMemTable.ops, Entry(k, Cell(true, [])));
    value, found, deleted := LookNewest(w, k);
  }

  method InsertThenGet(w: Wisp, k: Key, v: Bytes) returns (value: Bytes, found: bool, deleted: bool)
    requires w.Valid() && Moderate(w.threshold) && |v| <= 64 * 1024 * 1024
    modifies w.Repr
    ensures found && !deleted && value == v
  {
    hide Wisp.Valid;
    hide Fold;
    var ok := w.Insert(k, v);
    LastDecides(w.mutableMemTable.ops, Entry(k, Cell(false, v)));
    value, found, deleted := LookNewest(w, k);
  }

  lemma LastDecides(ops: seq<Entry>, op: Entry)
    requires ops != [] && ops[|ops| - 1] == op
    ensures op.key in Fold(ops) && Fold(ops)[op.key] == op.cell
  {}

  /** A key with a cell in the mutable memtable: that decides. */
  method LookNewest(w: Wisp, k: Key) returns (value: Bytes, found: bool, deleted: bool)
    requires w.Valid() && k in Fold(w.mutableMemTable.ops)
    modifies w.Repr
    ensures var c := old(Fold(w.mutableMemTable.ops)[k]);
            deleted == c.deleted && found == !c.deleted && (found ==> value == c.value)
  {
    hide S.Good;
    hide Matches;
    hide Fold;
    value, found, deleted := w.Get(k);
  }

  /**
   * Whatever a script has done, restarts included, a lookup afterwards gives the value of the last write
   * to the key, and of a deleted key none.
   */
  method RunThenGet(cs: seq<Command>, crc: R.Checksum, maxSegmentSize: nat, threshold: uint64, k: Key)
    returns (value: Bytes, found: bool, deleted: bool)
    requires Recoverable(Writes(cs)) && Moderate(threshold)
    ensures found <==> k in Fold(Writes(cs)) && !Fold(Writes(cs))[k].deleted
    ensures found ==> value == Fold(Writes(cs))[k].value
    ensures deleted ==> k in Fold(Writes(cs)) && Fold(Writes(cs))[k].deleted
  {
    hide Recoverable;
    hide Moderate;
    hide Wisp.Valid;
    hide Fold;
    var w := Run(cs, crc, maxSegmentSize, threshold);
    value, found, deleted := Look(w, k);
  }

  /** Likewise a scan yields exactly the values that the script has left in the series and time range. */
  method RunThenScan(cs: seq<Command>, crc: R.Checksum, maxSegmentSize: nat, threshold: uint64,
                     seriesID: uint64, startTs: int64, endTs: int64) returns (out: seq<Entry>)
    requires Recoverable(Writes(cs)) && Moderate(threshold)
    ensures Exactly(out, Writes(cs), seriesID, startTs, endTs)
  {
    hide Recoverable;
    hide Moderate;
    hide Wisp.Valid;
    hide Exactly;
    var w := Run(cs, crc, maxSegmentSize, threshold);
    out := w.ScanToEnd(seriesID, startTs, endTs);
  }

  // ----- a crash in the middle of a write

  /** The engine's state with the record logged and not yet in the memtable. */
  lemma InFlightState(st: E.State, op: Entry, rotate: bool) returns (st': E.State)
    requires S.Good(st) && st.tail.Whole?
    ensures S.Reachable(st') && E.Inv(st') && st.log != [] && st'.tail.Whole?
    ensures st' == st.(log := Appended(st.log, rotate, op), pending := Some(op))
    ensures st'.files == st.list && st'.retired.Keys * st'.files.Keys == {}
  {
    IdleFiles(st);
    assert st.retired.Keys * st.files.Keys == {};
    st' := S.TakeLog(st, op, rotate);
    hide E.Inv;
    hide S.Reachable;
  }

  /** Whatever survives of the log with the record in flight can be replayed. */
  lemma SurvivingReplayable(st: E.State, keep: bool)
    requires E.Inv(st) && st.pending.Some? && Recoverable(st.history + [st.pending.value])
    ensures st.log != [] && st.log[|st.log| - 1] != [] && Replayable(E.Surviving(st, keep))
  {
    LogIsSuffix(st);
    PendingIsLast(st);
    var h, lo := st.history + [st.pending.value], E.LogStart(st);
    assert E.Written(st) == h;
    hide E.Inv;
    hide Recoverable;
    hide Replayable;
    if keep {
      SuffixReplayable(st.log, h, lo);
    } else {
      FlatDropLast(st.log);
      LastInFlat(st.log);
      assert h[lo..][..|h[lo..]| - 1] == h[..|h| - 1][lo..];
      ShorterRecoverable(h);
      SuffixReplayable(E.Surviving(st, keep), h[..|h| - 1], lo);
    }
  }

  lemma LastInFlat(log: seq<seq<Entry>>)
    requires log != [] && log[|log| - 1] != []
    ensures Flat(log) != []
  {}

  lemma ShorterRecoverable(h: seq<Entry>)
    requires h != [] && Recoverable(h)
    ensures Recoverable(h[..|h| - 1])
  {
    PrefixWeight(h, |h| - 1);
    hide TotalWeight;
  }

  /** The segments and tables that a crash leaves once `kept` bytes of the record are on disk. */
  lemma CutLeaves(w: Wisp, op: Entry, kept: nat) returns (st: E.State)
    requires w.Valid() && w.wal.gap.NoGap? && Writable(op) && Recoverable(w.st.history + [op])
    requires kept <= 29 + |op.cell.value|
    ensures var crc, whole := w.wal.crc, kept == 29 + |op.cell.value|;
            var segments :=
              W.CutAppend(w.wal.files, w.wal.segmentID, w.wal.maxSegmentSize, R.Frame(crc, op), kept);
            && w.wal.segmentID in w.wal.files && |R.Frame(crc, op)| == 29 + |op.cell.value|
            && LeftBehind(st, W.NoGap, kept, crc, segments, Served(w.list.tables))
            && st.log != [] && Replayable(E.Surviving(st, Keeps(st, crc, kept)))
            && E.Reopened(st, Keeps(st, crc, kept), Tears(st, crc, kept)).history
               == w.st.history + if whole then [op] else []
  {
    hide *;
    var crc, record := w.wal.crc, R.Frame(w.wal.crc, op);
    OpenedParts(w, op);
    var rotate := w.wal.Overflows(op);
    st := InFlightState(w.st, op, rotate);
    SurvivingReplayable(st, Keeps(st, crc, kept));
    W.CutAppendLeaves(crc, w.wal.base, w.wal.log, rotate, op, kept);
    CutsAlike(w.wal.files, w.wal.segmentID, w.wal.maxSegmentSize, record, kept, rotate);
    InFlightLeaves(st, crc, kept, W.CutAppend(w.wal.files, w.wal.segmentID, w.wal.maxSegmentSize, record, kept),
                   Served(w.list.tables));
    InFlightReopens(st, crc, kept);
    assert w.st.history + [] == w.st.history;
  }

  lemma CutsAlike(files: map<nat, Bytes>, id: nat, max: nat, bytes: Bytes, kept: nat, rotate: bool)
    requires id in files && kept <= |bytes| && rotate == (0 < |files[id]| && |files[id]| + |bytes| > max)
    ensures W.CutAppend(files, id, max, bytes, kept) ==
            if rotate then files[id + 1 := bytes[..kept]] else files[id := files[id] + bytes[..kept]]
  {}

  /** What the parts of an open database without torn bytes have to do with the engine's state. */
  lemma OpenedParts(w: Wisp, op: Entry)
    requires w.Valid() && w.wal.gap.NoGap?
    ensures S.Good(w.st) && w.st.tail.Whole? && 1 <= w.st.base == w.wal.base && w.st.log == w.wal.log
    ensures Listed(w.st.list, Served(w.list.tables))
    ensures w.wal.log != [] && w.wal.files == W.FilesOf(w.wal.crc, w.wal.base, w.wal.log)
    ensures w.wal.segmentID == w.wal.base + |w.wal.log| - 1 && w.wal.segmentID in w.wal.files
    ensures |R.Frame(w.wal.crc, op)| == 29 + |op.cell.value|
    ensures w.wal.Overflows(op) <==>
            0 < |w.wal.files[w.wal.segmentID]|
            && |w.wal.files[w.wal.segmentID]| + |R.Frame(w.wal.crc, op)| > w.wal.maxSegmentSize
  {
    hide S.Good;
    hide MemTable.Valid;
    hide SSTableList.Valid;
    hide Listed;
    hide Served;
    hide Fold;
    hide R.Frame;
    hide W.FilesOf;
  }

  lemma InFlightLeaves(st: E.State, crc: R.Checksum, kept: nat, segments: map<nat, Bytes>, disk: seq<Table>)
    requires S.Reachable(st) && E.Inv(st) && st.pending.Some? && st.tail.Whole? && st.base >= 1
    requires st.log != [] && st.log[|st.log| - 1] != [] && W.CrashLeaves(crc, st.base, st.log, kept, segments)
    requires Writable(st.pending.value) && Listed(st.files, disk) && st.retired.Keys * st.files.Keys == {}
    ensures LeftBehind(st, W.NoGap, kept, crc, segments, disk)
  {
    hide E.Inv;
    hide S.Reachable;
    hide W.CrashLeaves;
    hide R.Frame;
  }

  lemma InFlightReopens(st: E.State, crc: R.Checksum, kept: nat)
    requires st.pending.Some? && st.log != [] && kept <= 29 + |st.pending.value.cell.value|
    ensures E.Reopened(st, Keeps(st, crc, kept), Tears(st, crc, kept)).history
         == if kept == 29 + |st.pending.value.cell.value| then st.history + [st.pending.value] else st.history
  {
    hide Flat;
    hide Fold;
    hide E.MaxGen;
  }

  /**
   * A crash that lets any number of bytes of a write's record reach the disk: the next process finds all
   * earlier writes, and this one exactly if all its bytes are there.
   */
  method CrashDuringWrite(w: Wisp, op: Entry, kept: nat, maxSegmentSize: nat, threshold: uint64)
    returns (again: Wisp)
    requires w.Valid() && w.wal.gap.NoGap? && Writable(op) && Recoverable(w.st.history + [op])
    requires kept <= 29 + |op.cell.value|
    ensures fresh(again.Repr) && again.Valid()
    ensures again.st.history == w.st.history + if kept == 29 + |op.cell.value| then [op] else []
  {
    hide *;
    ghost var st := CutLeaves(w, op, kept);
    var record := w.wal.EncodeRecord(op);
    var segments := W.CutAppend(w.wal.files, w.wal.segmentID, w.wal.maxSegmentSize, record, kept);
    var ok;
    again, ok := ReopenWisp(w.wal.crc, maxSegmentSize, threshold, segments, Served(w.list.tables), st, W.NoGap, kept);
  }
}
