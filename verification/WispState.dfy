/** How the fields of the database object correspond to a state of the engine. */
module WispStates {
  import opened Base
  import opened History
  import opened SortedEntries
  import G = Generations
  import Compaction
  import opened SegmentLog
  import E = Engine
  import S = Sequential
  import T = EngineTheorems
  import R = WalRecord
  import W = Wal
  import opened Compactor
  import opened Merge
  import Scanner

  /** The list's tables are sorted, in descending order of generation, and fold to `ts`. */
  ghost predicate Listed(ts: G.Tables, tables: seq<Table>) {
    GoodTables(tables) && Scanner.Descending(tables) && Represents(ts, tables)
  }

  /** The values of the fields: memtables, the segment sealed with the immutable one, log and tables. */
  datatype Picture = Picture(mut: Contents, imm: Option<Contents>, segment: nat, base: nat, log: seq<seq<Entry>>,
                             gap: W.Gap, nextGen: nat, tables: seq<Table>)

  ghost predicate GapFits(gap: W.Gap, base: nat, log: seq<seq<Entry>>) {
    gap.Gap? ==> base <= gap.segment < base + |log| && gap.at <= |log[gap.segment - base]|
  }

  /** What the engine's state says of torn bytes: where they are, and whether records follow them. */
  ghost function TailOf(gap: W.Gap, base: nat, log: seq<seq<Entry>>): E.Tail
    requires GapFits(gap, base, log)
  {
    if gap.Gap? then E.Torn(gap.segment, gap.at < |log[gap.segment - base]|) else E.Whole
  }

  /** Memtables, log and tables hold what the engine's state holds. */
  ghost predicate Matches(st: E.State, p: Picture) {
    && st.mems != [] && E.Mut(st).contents == p.mut
    && (p.imm.Some? <==> st.imm.Some?)
    && (p.imm.Some? ==> E.ImmContents(st) == p.imm.value && st.immSegment == p.segment)
    && st.base == p.base && st.log == p.log && st.nextGen == p.nextGen
    && GapFits(p.gap, p.base, p.log) && st.tail == TailOf(p.gap, p.base, p.log)
    && Listed(st.list, p.tables)
  }

  lemma Wrote(st: E.State, p: Picture, op: Entry, rotate: bool) returns (st': E.State)
    requires S.Good(st) && Matches(st, p)
    ensures p.log != [] && S.Good(st') && st'.history == st.history + [op]
    ensures Matches(st', p.(mut := p.mut[op.key := op.cell], log := Appended(p.log, rotate, op)))
  {
    hide E.Inv;
    hide S.Reachable;
    hide Listed;
    hide TailOf;
    hide GapFits;
    hide Appended;
    hide S.TailBehind;
    ImmBelow(st);
    TailAppended(p.gap, p.base, p.log, rotate, op);
    st' := S.WriteRun(st, op, rotate);
  }

  lemma TailAppended(gap: W.Gap, base: nat, log: seq<seq<Entry>>, rotate: bool, op: Entry)
    requires log != [] && GapFits(gap, base, log)
    ensures var log' := Appended(log, rotate, op);
            GapFits(gap, base, log')
            && TailOf(gap, base, log') == S.TailBehind(TailOf(gap, base, log), base + |log'| - 1)
  {}

  lemma ImmBelow(st: E.State)
    requires E.Inv(st)
    ensures st.mems != [] && st.log != [] && (st.imm.Some? ==> st.imm.value < |st.mems| - 1)
  {}

  lemma Froze(st: E.State, p: Picture) returns (st': E.State)
    requires S.Good(st) && Matches(st, p) && p.imm.None?
    ensures p.log != [] && S.Good(st') && st'.history == st.history
    ensures Matches(st', p.(mut := map[], imm := Some(p.mut), segment := p.base + |p.log| - 1, log := p.log + [[]]))
  {
    ImmBelow(st);
    hide E.Inv;
    hide S.Reachable;
    hide Listed;
    st' := S.FreezeRun(st);
  }

  lemma AddListed(ts: G.Tables, tables: seq<Table>, t: Table, tables': seq<Table>)
    requires Listed(ts, tables) && Sorted(t.entries) && Scanner.Descending(tables')
    requires forall v :: v in tables ==> v.gen != t.gen
    requires forall v :: v in tables' <==> v == t || v in tables
    ensures Listed(ts[t.gen := Fold(t.entries)], tables')
  {
    hide Fold;
    var ts' := ts[t.gen := Fold(t.entries)];
    forall s | 0 <= s < |tables'|
      ensures Sorted(tables'[s].entries) && tables'[s].gen in ts' && ts'[tables'[s].gen] == Fold(tables'[s].entries)
    {
      assert tables'[s] in tables';
      if tables'[s] != t {
        var i :| 0 <= i < |tables| && tables[i] == tables'[s];
      }
    }
    forall g | g in ts' ensures exists s :: 0 <= s < |tables'| && tables'[s].gen == g {
      if g == t.gen {
        var s :| 0 <= s < |tables'| && tables'[s] == t;
      } else {
        var i :| 0 <= i < |tables| && tables[i].gen == g;
        assert tables[i] in tables';
        var s :| 0 <= s < |tables'| && tables'[s] == tables[i];
      }
    }
  }

  /** The immutable memtable's entries are in the list, as a table of the next generation. */
  ghost predicate Published(p: Picture, q: Picture, t: Table) {
    && p.imm.Some? && t.gen == p.nextGen + 1 && Sorted(t.entries) && Fold(t.entries) == p.imm.value
    && q == p.(nextGen := t.gen, tables := q.tables)
    && Scanner.Descending(q.tables)
    && (forall v :: v in p.tables ==> v.gen <= p.nextGen)
    && forall v :: v in q.tables <==> v == t || v in p.tables
  }

  /** The immutable memtable and the segments up to the sealed one are gone. */
  ghost function Dropped(p: Picture): Picture
    requires p.base <= p.segment < p.base + |p.log| - 1
  {
    p.(imm := None, base := p.segment + 1, log := p.log[p.segment + 1 - p.base..],
       gap := W.GapAfter(p.gap, p.segment + 1))
  }

  /** A flush: the immutable memtable is a table of the next generation now, and its segments are gone. */
  ghost predicate FlushedTo(p: Picture, p': Picture) {
    exists q, t :: Published(p, q, t) && q.base <= q.segment < q.base + |q.log| - 1 && p' == Dropped(q)
  }

  /** A freeze: an empty mutable memtable, and a new segment behind those that carry the frozen one. */
  ghost predicate FrozenTo(p: Picture, p': Picture) {
    p.log != [] &&
    p' == p.(mut := map[], imm := Some(p.mut), segment := p.base + |p.log| - 1, log := p.log + [[]])
  }

  lemma Flushed(st: E.State, p: Picture, q: Picture, t: Table) returns (st': E.State)
    requires S.Good(st) && Matches(st, p) && Published(p, q, t)
    ensures S.Good(st') && st'.history == st.history && q.base <= q.segment < q.base + |q.log| - 1
    ensures Matches(st', Dropped(q))
  {
    hide E.Inv;
    hide S.Reachable;
    hide Listed;
    hide Sorted;
    hide Fold;
    hide Scanner.Descending;
    hide E.ImmContents;
    AddListed(st.list, p.tables, t, q.tables);
    st' := S.FlushRun(st);
  }

  /** What CompactSSTables writes. */
  ghost predicate IsMerge(tables: seq<Table>, major: bool, written: seq<Entry>) {
    Sorted(written) && forall e :: e in written <==> NewestEntry(tables, e) && !(e.cell.deleted && major)
  }

  /** A major compaction of everything: nothing to do, or the merge of all tables in their place. */
  ghost predicate MergedTo(p: Picture, p': Picture) {
    || (p.tables == [] && p' == p)
    || exists written :: IsMerge(p.tables, true, written)
         && p' == p.(nextGen := p.nextGen + 1, tables := Left(p.nextGen + 1, written))
  }

  /** The table a compaction of everything leaves, if it leaves one. */
  ghost function Left(gen: nat, written: seq<Entry>): seq<Table> {
    if written == [] then [] else [Table(gen, written)]
  }

  lemma ReplacedAll(ts: G.Tables, gen: nat, major: bool)
    ensures Compaction.Replaced(ts, ts.Keys, gen, major) == Compaction.WithTable(map[], gen, G.Merge(ts, major))
  {
    hide G.Merge;
    assert G.Restrict(ts, ts.Keys) == ts;
    var none: G.Tables := map[];
    assert ts - ts.Keys == none;
  }

  lemma LeftListed(gen: nat, written: seq<Entry>)
    requires Sorted(written)
    ensures Listed(Compaction.WithTable(map[], gen, Fold(written)), Left(gen, written))
  {
    if written != [] {
      FoldHas(written, written[0].key);
      hide Fold;
      assert written[0].key in Fold(written);
    }
  }

  lemma MergedListed(ts: G.Tables, tables: seq<Table>, gen: nat, major: bool, written: seq<Entry>)
    requires Listed(ts, tables) && IsMerge(tables, major, written)
    ensures Listed(Compaction.Replaced(ts, ts.Keys, gen, major), Left(gen, written))
  {
    WrittenIsMerge(ts, tables, major, written);
    ReplacedAll(ts, gen, major);
    LeftListed(gen, written);
    hide *;
  }

  lemma SomeListed(ts: G.Tables, tables: seq<Table>)
    requires Listed(ts, tables) && tables != []
    ensures ts != map[]
  {
    assert tables[0].gen in ts;
  }

  lemma CompactedTo(st: E.State, p: Picture, major: bool, left: seq<Table>) returns (st': E.State)
    requires S.Good(st) && Matches(st, p) && st.list != map[]
    requires Listed(Compaction.Replaced(st.list, st.list.Keys, st.nextGen + 1, major), left)
    ensures S.Good(st') && st'.history == st.history
    ensures Matches(st', p.(nextGen := p.nextGen + 1, tables := left))
  {
    hide E.Inv;
    hide S.Reachable;
    hide Listed;
    hide Compaction.Replaced;
    st' := S.CompactRun(st, major);
  }

  lemma Compacted(st: E.State, p: Picture, major: bool, written: seq<Entry>) returns (st': E.State)
    requires S.Good(st) && Matches(st, p) && p.tables != [] && IsMerge(p.tables, major, written)
    ensures S.Good(st') && st'.history == st.history
    ensures Matches(st', p.(nextGen := p.nextGen + 1, tables := Left(p.nextGen + 1, written)))
  {
    hide S.Good;
    hide IsMerge;
    hide Listed;
    hide Left;
    hide Compaction.Replaced;
    MergedListed(st.list, p.tables, p.nextGen + 1, major, written);
    SomeListed(st.list, p.tables);
    st' := CompactedTo(st, p, major, Left(p.nextGen + 1, written));
  }

  // ----- lookup

  /** What the first table that holds the key says. */
  ghost function FirstHit(tables: seq<Table>, k: Key): Option<Cell> {
    if tables == [] then None
    else if k in Fold(tables[0].entries) then Some(Fold(tables[0].entries)[k])
    else FirstHit(tables[1..], k)
  }

  lemma {:induction false} HitAt(tables: seq<Table>, k: Key) returns (i: nat)
    ensures i <= |tables| && forall j :: 0 <= j < i ==> k !in Fold(tables[j].entries)
    ensures i < |tables| ==> k in Fold(tables[i].entries) && FirstHit(tables, k) == Some(Fold(tables[i].entries)[k])
    ensures i == |tables| ==> FirstHit(tables, k) == None
  {
    hide Fold;
    if tables == [] || k in Fold(tables[0].entries) {
      i := 0;
    } else {
      i := HitAt(tables[1..], k);
      i := i + 1;
    }
  }

  /** In a list in descending order of generation the first hit is the newest. */
  lemma FirstHitIsNewest(ts: G.Tables, tables: seq<Table>, k: Key)
    requires Listed(ts, tables)
    ensures FirstHit(tables, k) == G.Newest(ts, k)
  {
    var i := HitAt(tables, k);
    hide Fold;
    hide FirstHit;
    hide Sorted;
    if i < |tables| {
      forall g | g in ts && k in ts[g] ensures g <= tables[i].gen {
        var s :| 0 <= s < |tables| && tables[s].gen == g;
      }
      assert G.IsTop(ts, k, tables[i].gen);
      G.TopCell(ts, k, tables[i].gen);
    } else {
      G.NewestNone(ts, k);
      forall g | g in ts ensures k !in ts[g] {
        var s :| 0 <= s < |tables| && tables[s].gen == g;
      }
    }
  }

  /** The lookup order of Get: mutable, immutable, tables. */
  ghost function Layered(p: Picture, k: Key): Option<Cell> {
    if k in p.mut then Some(p.mut[k])
    else if p.imm.Some? && k in p.imm.value then Some(p.imm.value[k])
    else FirstHit(p.tables, k)
  }

  lemma LayeredIsView(st: E.State, p: Picture, k: Key)
    requires S.Good(st) && Matches(st, p)
    ensures st.mems != [] && Layered(p, k) == E.View(st, k)
    ensures Live(Layered(p, k)) == Live(Find(Fold(st.history), k))
  {
    T.ViewShowsHistory(st, k);
    FirstHitIsNewest(st.list, p.tables, k);
    hide E.Inv;
    hide Listed;
    hide Fold;
    hide FirstHit;
  }

  // ----- scans

  /** `out` holds the values that the writes leave in the series and the time range, and nothing else. */
  ghost predicate Exactly(out: seq<Entry>, h: seq<Entry>, seriesID: uint64, startTs: int64, endTs: int64) {
    && Sorted(out) && (forall e :: e in out ==> !e.cell.deleted)
    && (forall k, v :: Entry(k, Cell(false, v)) in out <==>
          k.series == seriesID && startTs <= k.timestamp <= endTs && Live(Find(Fold(h), k)) == Some(v))
    && forall i, j :: 0 <= i < j < |out| ==> out[i].key.timestamp < out[j].key.timestamp
  }

  lemma OneSeriesAscends(out: seq<Entry>, seriesID: uint64)
    requires Sorted(out) && forall e :: e in out ==> e.key.series == seriesID
    ensures forall i, j :: 0 <= i < j < |out| ==> out[i].key.timestamp < out[j].key.timestamp
  {
    forall i, j | 0 <= i < j < |out| ensures out[i].key.timestamp < out[j].key.timestamp {
      assert out[i] in out && out[j] in out && Less(out[i].key, out[j].key);
    }
  }

  lemma ScannedShows(st: E.State, p: Picture, imm: seq<Entry>, out: seq<Entry>,
                     seriesID: uint64, startTs: int64, endTs: int64)
    requires S.Good(st) && Matches(st, p) && p.mut == map[]
    requires Sorted(imm) && Fold(imm) == if p.imm.Some? then p.imm.value else map[]
    requires Sorted(out)
    requires forall e: Entry :: e in out <==>
               Newest(Scanner.Snapshot(imm, p.tables), Scanner.ByIndex(|p.tables| + 1), e) && !e.cell.deleted
               && e.key.series == seriesID && startTs <= e.key.timestamp <= endTs
    ensures Exactly(out, st.history, seriesID, startTs, endTs)
  {
    forall k, v ensures Entry(k, Cell(false, v)) in out <==>
      k.series == seriesID && startTs <= k.timestamp <= endTs && Live(Find(Fold(st.history), k)) == Some(v)
    {
      Scanner.ScanShowsHistory(st, imm, p.tables, out, seriesID, startTs, endTs, k, v);
    }
    OneSeriesAscends(out, seriesID);
  }

  // ----- reopening

  lemma {:induction false} HighestIsMaxGen(gens: set<nat>, top: nat)
    requires forall g :: g in gens ==> g <= top
    requires top == 0 || top in gens
    ensures E.MaxGen(gens) == top
  {
    if g :| g in gens && forall h :: h in gens ==> h <= g {
      assert top in gens || top == 0;
    } else {
      assert top !in gens;
    }
  }

  /** What Load and Recover put together is the engine's reopened state. */
  lemma ReopenedMatches(before: E.State, keep: bool, torn: bool, p: Picture)
    requires S.Reachable(before) && E.Inv(before) && E.Disciplined(before, E.Crash(keep, torn))
    requires before.log != [] && p.mut == Fold(Flat(E.Surviving(before, keep))) && p.imm.None?
    requires p.base == before.base && p.log == E.Surviving(before, keep)
    requires GapFits(p.gap, p.base, p.log) && TailOf(p.gap, p.base, p.log) == E.Reopened(before, keep, torn).tail
    requires Listed(before.files, p.tables) && p.nextGen == E.MaxGen(before.files.Keys)
    ensures S.Good(E.Reopened(before, keep, torn)) && Matches(E.Reopened(before, keep, torn), p)
  {
    var st := S.CrashRun(before, keep, torn);
    hide E.Inv;
    hide S.Reachable;
    hide Listed;
    hide E.MaxGen;
  }

  /** The crash has kept the whole record in flight. */
  ghost predicate Keeps(before: E.State, crc: R.Checksum, kept: nat) {
    before.pending.Some? && kept == |R.Frame(crc, before.pending.value)|
  }

  /** The crash has kept a part of the record in flight. */
  ghost predicate Tears(before: E.State, crc: R.Checksum, kept: nat) {
    before.pending.Some? && 0 < kept < |R.Frame(crc, before.pending.value)|
  }

  /**
   * The segment files that a crash in state `before` leaves: all their bytes, but only the first
   * `kept` bytes of the record in flight. `gap` is where an earlier crash has left torn bytes.
   */
  ghost predicate LogLeft(before: E.State, gap: W.Gap, kept: nat, crc: R.Checksum, segments: map<nat, Bytes>) {
    && before.log != [] && W.GapIn(crc, before.base, before.log, gap)
    && TailOf(gap, before.base, before.log) == before.tail
    && if before.pending.None? then segments == W.FilesWith(crc, before.base, before.log, gap)
       else
         && before.log[|before.log| - 1] != []
         && W.CrashLeaves(crc, before.base, before.log, kept, segments)
         && (Tears(before, crc, kept) ==> R.Fits(before.pending.value))
  }

  /** Where torn bytes are after the crash. */
  ghost function GapLeft(before: E.State, gap: W.Gap, kept: nat, crc: R.Checksum): W.Gap
    requires before.pending.Some? ==> before.log != [] && before.log[|before.log| - 1] != []
  {
    if Tears(before, crc, kept) then
      W.Gap(before.base + |before.log| - 1, |before.log[|before.log| - 1]| - 1, before.pending.value, kept)
    else gap
  }

  /** The record in flight is the last one in the log. */
  lemma PendingIsLast(st: E.State)
    requires E.Inv(st) && st.pending.Some?
    ensures st.log != [] && st.log[|st.log| - 1] != []
    ensures var last := st.log[|st.log| - 1]; last[|last| - 1] == st.pending.value
  {
    var n := |st.log| - 1;
    var flat, written := Flat(st.log), E.Written(st);
    assert flat == Flat(st.log[..n]) + st.log[n];
    assert flat[|flat| - 1] == st.log[n][|st.log[n]| - 1];
    assert written[E.LogStart(st)..][|flat| - 1] == written[|written| - 1];
  }

  /**
   * Whichever bytes of the record in flight survive, the disk holds the log that the engine's state
   * is reopened with, torn bytes at its very end included, and replay returns all its records.
   */
  lemma LogLeftReplays(before: E.State, gap: W.Gap, kept: nat, crc: R.Checksum, segments: map<nat, Bytes>)
    requires S.Reachable(before) && E.Inv(before) && LogLeft(before, gap, kept, crc, segments)
    requires E.Disciplined(before, E.Crash(Keeps(before, crc, kept), Tears(before, crc, kept)))
    ensures before.pending.Some? ==> before.log[|before.log| - 1] != []
    ensures var log, gap' := E.Surviving(before, Keeps(before, crc, kept)), GapLeft(before, gap, kept, crc);
            && W.GapIn(crc, before.base, log, gap') && W.AtEnd(gap', before.base, log)
            && segments == W.FilesWith(crc, before.base, log, gap')
            && GapFits(gap', before.base, log)
            && TailOf(gap', before.base, log)
               == E.Reopened(before, Keeps(before, crc, kept), Tears(before, crc, kept)).tail
            && (W.AllFit(log) ==> W.ReplaySegments(crc, segments, before.base, |log|) == Ok(Flat(log)))
  {
    hide E.Inv;
    hide S.Reachable;
    hide R.Frame;
    var log, gap' := E.Surviving(before, Keeps(before, crc, kept)), GapLeft(before, gap, kept, crc);
    if before.pending.None? {
      NothingInFlight(before, gap, kept, crc, segments);
    } else {
      PendingIsLast(before);
      S.InFlightIsClean(before);
      InFlight(before, gap, kept, crc, segments);
    }
    hide LogLeft;
    hide GapLeft;
    hide E.Surviving;
    hide E.Reopened;
    hide E.Disciplined;
    hide TailOf;
    hide W.FilesWith;
    if W.AllFit(log) {
      W.ReplayGapped(crc, before.base, log, gap');
    }
  }

  lemma NothingInFlight(before: E.State, gap: W.Gap, kept: nat, crc: R.Checksum, segments: map<nat, Bytes>)
    requires LogLeft(before, gap, kept, crc, segments) && before.pending.None? && E.Replayable(before)
    ensures var log, gap' := E.Surviving(before, Keeps(before, crc, kept)), GapLeft(before, gap, kept, crc);
            && W.GapIn(crc, before.base, log, gap') && W.AtEnd(gap', before.base, log)
            && segments == W.FilesWith(crc, before.base, log, gap')
            && GapFits(gap', before.base, log)
            && TailOf(gap', before.base, log)
               == E.Reopened(before, Keeps(before, crc, kept), Tears(before, crc, kept)).tail
  {
    hide R.Frame;
    hide W.FilesWith;
  }

  lemma InFlight(before: E.State, gap: W.Gap, kept: nat, crc: R.Checksum, segments: map<nat, Bytes>)
    requires LogLeft(before, gap, kept, crc, segments) && before.pending.Some? && before.tail.Whole?
    requires var last := before.log[|before.log| - 1]; last[|last| - 1] == before.pending.value
    ensures var log, gap' := E.Surviving(before, Keeps(before, crc, kept)), GapLeft(before, gap, kept, crc);
            && W.GapIn(crc, before.base, log, gap') && W.AtEnd(gap', before.base, log)
            && segments == W.FilesWith(crc, before.base, log, gap')
            && GapFits(gap', before.base, log)
            && TailOf(gap', before.base, log)
               == E.Reopened(before, Keeps(before, crc, kept), Tears(before, crc, kept)).tail
  {
    hide E.Reopened;
    hide R.Frame;
    hide W.CrashLeaves;
    hide W.FilesOf;
    W.CrashLeavesLog(crc, before.base, before.log, kept, segments);
    ReopenedTail(before, Keeps(before, crc, kept), Tears(before, crc, kept));
  }

  lemma ReopenedTail(before: E.State, keep: bool, torn: bool)
    requires before.log != []
    ensures E.Reopened(before, keep, torn).tail ==
            if before.pending.Some? && !keep && torn then E.Torn(E.Active(before), false) else before.tail
  {}

  /**
   * Crash recovery from the bytes on disk: replaying the segment files over the tables found shows
   * every acknowledged write, and the one in flight exactly if all its bytes have survived.
   */
  lemma LoadAndReplayRecover(before: E.State, gap: W.Gap, kept: nat, crc: R.Checksum, segments: map<nat, Bytes>, k: Key)
    requires S.Reachable(before) && E.Inv(before) && LogLeft(before, gap, kept, crc, segments)
    requires E.Disciplined(before, E.Crash(Keeps(before, crc, kept), Tears(before, crc, kept)))
    requires W.AllFit(before.log)
    ensures var replayed := W.ReplaySegments(crc, segments, before.base, |before.log|);
            var expected := before.history + if Keeps(before, crc, kept) then [before.pending.value] else [];
            && replayed.Ok?
            && Live(E.Through(Fold(replayed.value), map[], before.files, k)) == Live(Find(Fold(expected), k))
  {
    hide E.Inv;
    hide S.Reachable;
    hide E.Reopened;
    hide E.Disciplined;
    hide E.Surviving;
    hide E.View;
    hide E.Through;
    hide Fold;
    hide Tears;
    hide GapLeft;
    hide W.AllFit;
    hide W.ReplaySegments;
    hide W.GapIn;
    hide W.FilesWith;
    hide TailOf;
    hide GapFits;
    var keep, torn := Keeps(before, crc, kept), Tears(before, crc, kept);
    SurvivingFits(before, keep);
    ReopenedView(before, keep, torn, k);
    LogLeftReplays(before, gap, kept, crc, segments);
    var st := S.CrashRun(before, keep, torn);
    T.ViewShowsHistory(st, k);
    assert before.history + [] == before.history;
  }

  lemma SurvivingFits(before: E.State, keep: bool)
    requires before.log != [] && W.AllFit(before.log)
    ensures W.AllFit(E.Surviving(before, keep))
  {}

  lemma ReopenedView(before: E.State, keep: bool, torn: bool, k: Key)
    requires before.log != []
    ensures var st := E.Reopened(before, keep, torn);
            && st.mems != []
            && E.View(st, k) == E.Through(Fold(Flat(E.Surviving(before, keep))), map[], before.files, k)
            && st.history == (if before.pending.Some? && keep then before.history + [before.pending.value]
                              else before.history)
  {}
}
