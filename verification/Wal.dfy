/** The segmented write-ahead log over a directory of segment files. */
module Wal {
  import opened Base
  import opened LittleEndian
  import opened SegmentLog
  import opened WalRecord

  /** The segment files of a log whose oldest segment is `base`. */
  ghost function FilesOf(crc: Checksum, base: nat, log: seq<seq<Entry>>): map<nat, Bytes> {
    if log == [] then map[] else
    var n := |log| - 1;
    FilesOf(crc, base, log[..n])[base + n := Frames(crc, log[n])]
  }

  lemma {:induction false} FileHolds(crc: Checksum, base: nat, log: seq<seq<Entry>>, i: nat)
    requires i < |log|
    ensures base + i in FilesOf(crc, base, log) && FilesOf(crc, base, log)[base + i] == Frames(crc, log[i])
  {
    if i < |log| - 1 {
      FileHolds(crc, base, log[..|log| - 1], i);
    }
  }

  lemma {:induction false} FileIds(crc: Checksum, base: nat, log: seq<seq<Entry>>)
    ensures forall id :: id in FilesOf(crc, base, log).Keys <==> base <= id < base + |log|
  {
    if log != [] {
      FileIds(crc, base, log[..|log| - 1]);
    }
  }

  lemma FilesRotate(crc: Checksum, base: nat, log: seq<seq<Entry>>, id: nat)
    requires id == base + |log|
    ensures FilesOf(crc, base, log + [[]]) == FilesOf(crc, base, log)[id := []]
  {
    assert (log + [[]])[..|log|] == log;
    assert Frames(crc, []) == [];
  }

  lemma FilesAppend(crc: Checksum, base: nat, log: seq<seq<Entry>>, id: nat, r: Entry)
    requires log != [] && id == base + |log| - 1
    ensures id in FilesOf(crc, base, log)
    ensures FilesOf(crc, base, Appended(log, false, r))
         == FilesOf(crc, base, log)[id := FilesOf(crc, base, log)[id] + Frame(crc, r)]
  {
    var n := |log| - 1;
    FramesAppend(crc, log[n], r);
    FileHolds(crc, base, log, n);
    FilesSetLast(crc, base, log, log[n] + [r]);
  }

  lemma FilesSetLast(crc: Checksum, base: nat, log: seq<seq<Entry>>, rs: seq<Entry>)
    requires log != []
    ensures FilesOf(crc, base, log[|log| - 1 := rs]) == FilesOf(crc, base, log)[base + |log| - 1 := Frames(crc, rs)]
  {
    var n := |log| - 1;
    var before := FilesOf(crc, base, log[..n]);
    assert log[n := rs][..n] == log[..n];
    SetTwice(before, base + n, Frames(crc, log[n]), Frames(crc, rs));
  }

  lemma SetTwice(files: map<nat, Bytes>, id: nat, a: Bytes, b: Bytes)
    ensures files[id := a][id := b] == files[id := b]
  {}

  lemma FramesAppend(crc: Checksum, rs: seq<Entry>, r: Entry)
    ensures Frames(crc, rs + [r]) == Frames(crc, rs) + Frame(crc, r)
  {
    FramesConcat(crc, rs, [r]);
    assert Frames(crc, [r]) == Frame(crc, r) + [];
  }

  lemma FilesDrop(crc: Checksum, base: nat, log: seq<seq<Entry>>)
    requires log != []
    ensures FilesOf(crc, base + 1, log[1..]) == FilesOf(crc, base, log) - {base}
  {
    hide Frames;
    var rest := log[1..];
    var a, b := FilesOf(crc, base + 1, rest), FilesOf(crc, base, log) - {base};
    FileIds(crc, base, log);
    FileIds(crc, base + 1, rest);
    forall id | id in a ensures a[id] == b[id] {
      FileHolds(crc, base + 1, rest, id - base - 1);
      FileHolds(crc, base, log, id - base);
    }
    assert a.Keys == b.Keys;
  }

  /**
   * Part of a record that a crash has left behind the first `at` records of a segment. Nothing ever
   * cuts it off; later records go behind it.
   */
  datatype Gap = NoGap | Gap(segment: nat, at: nat, torn: Entry, n: nat)

  ghost predicate GapIn(crc: Checksum, base: nat, log: seq<seq<Entry>>, gap: Gap) {
    gap.Gap? ==>
      && base <= gap.segment < base + |log| && gap.at <= |log[gap.segment - base]|
      && Fits(gap.torn) && 0 < gap.n < |Frame(crc, gap.torn)|
  }

  ghost function GappedFrames(crc: Checksum, rs: seq<Entry>, at: nat, torn: Entry, n: nat): Bytes
    requires at <= |rs| && n <= |Frame(crc, torn)|
  {
    Frames(crc, rs[..at]) + Frame(crc, torn)[..n] + Frames(crc, rs[at..])
  }

  /** The segment files of a log, with the bytes of the torn record in their place. */
  ghost function FilesWith(crc: Checksum, base: nat, log: seq<seq<Entry>>, gap: Gap): (files: map<nat, Bytes>)
    requires GapIn(crc, base, log, gap)
    ensures forall id :: id in files.Keys <==> base <= id < base + |log|
  {
    FileIds(crc, base, log);
    if gap.NoGap? then FilesOf(crc, base, log) else
    FilesOf(crc, base, log)[gap.segment := GappedFrames(crc, log[gap.segment - base], gap.at, gap.torn, gap.n)]
  }

  lemma WithRotate(crc: Checksum, base: nat, log: seq<seq<Entry>>, gap: Gap, id: nat)
    requires GapIn(crc, base, log, gap) && id == base + |log|
    ensures GapIn(crc, base, log + [[]], gap)
    ensures FilesWith(crc, base, log + [[]], gap) == FilesWith(crc, base, log, gap)[id := []]
  {
    FilesRotate(crc, base, log, id);
    hide FilesOf;
    hide GappedFrames;
  }

  lemma GappedAppend(crc: Checksum, rs: seq<Entry>, at: nat, torn: Entry, n: nat, r: Entry)
    requires at <= |rs| && n <= |Frame(crc, torn)|
    ensures GappedFrames(crc, rs + [r], at, torn, n) == GappedFrames(crc, rs, at, torn, n) + Frame(crc, r)
  {
    hide Frame;
    assert (rs + [r])[..at] == rs[..at] && (rs + [r])[at..] == rs[at..] + [r];
    FramesAppend(crc, rs[at..], r);
    hide Frames;
    assert Frames(crc, rs[..at]) + Frame(crc, torn)[..n] + (Frames(crc, rs[at..]) + Frame(crc, r))
        == Frames(crc, rs[..at]) + Frame(crc, torn)[..n] + Frames(crc, rs[at..]) + Frame(crc, r);
  }

  lemma WithAppend(crc: Checksum, base: nat, log: seq<seq<Entry>>, gap: Gap, id: nat, r: Entry)
    requires log != [] && id == base + |log| - 1 && GapIn(crc, base, log, gap)
    ensures GapIn(crc, base, Appended(log, false, r), gap)
    ensures FilesWith(crc, base, Appended(log, false, r), gap)
         == FilesWith(crc, base, log, gap)[id := FilesWith(crc, base, log, gap)[id] + Frame(crc, r)]
  {
    hide FilesOf;
    hide GappedFrames;
    hide Frame;
    FilesAppend(crc, base, log, id, r);
    var log' := Appended(log, false, r);
    assert forall i :: 0 <= i < |log| - 1 ==> log'[i] == log[i];
    if gap.Gap? {
      var i := gap.segment - base;
      var bytes := GappedFrames(crc, log[i], gap.at, gap.torn, gap.n);
      if gap.segment == id {
        GappedAppend(crc, log[i], gap.at, gap.torn, gap.n, r);
        SetTwice(FilesOf(crc, base, log), id, bytes, bytes + Frame(crc, r));
      }
    }
  }

  /** The gap goes with its segment. */
  ghost function GapAfter(gap: Gap, base: nat): Gap {
    if gap.Gap? && gap.segment < base then NoGap else gap
  }

  lemma GapTwice(gap: Gap, base: nat)
    ensures GapAfter(GapAfter(gap, base), base + 1) == GapAfter(gap, base + 1)
  {}

  lemma DropOne(log: seq<seq<Entry>>, n: nat)
    requires n < |log|
    ensures log[n..][1..] == log[n + 1..]
  {}

  lemma WithDrop(crc: Checksum, base: nat, log: seq<seq<Entry>>, gap: Gap)
    requires log != [] && GapIn(crc, base, log, gap)
    ensures GapIn(crc, base + 1, log[1..], GapAfter(gap, base + 1))
    ensures FilesWith(crc, base + 1, log[1..], GapAfter(gap, base + 1)) == FilesWith(crc, base, log, gap) - {base}
  {
    FilesDrop(crc, base, log);
    hide FilesOf;
    hide GappedFrames;
    if gap.Gap? {
      var i := gap.segment - base;
      DropCommutes(FilesOf(crc, base, log), gap.segment, GappedFrames(crc, log[i], gap.at, gap.torn, gap.n), base);
      assert i > 0 ==> log[1..][i - 1] == log[i];
    }
  }

  lemma DropCommutes(files: map<nat, Bytes>, id: nat, bytes: Bytes, base: nat)
    ensures files[id := bytes] - {base} == if id == base then files - {base} else (files - {base})[id := bytes]
  {}

  /** The ids found in the directory, sorted. */
  method Ascending(found: set<nat>, ghost base: nat, ghost n: nat) returns (ids: seq<nat>)
    requires forall id :: id in found <==> base <= id < base + n
    ensures |ids| == n && forall i :: 0 <= i < n ==> ids[i] == base + i
  {
    ids := [];
    var rest := found;
    while rest != {}
      invariant |ids| <= n
      invariant forall i :: 0 <= i < |ids| ==> ids[i] == base + i
      invariant forall id :: id in rest <==> base + |ids| <= id < base + n
      decreases rest
    {
      var any :| any in rest;
      assert base + |ids| in rest;
      var id :| id in rest && forall other :: other in rest ==> id <= other;
      ids, rest := ids + [id], rest - {id};
    }
    assert |ids| < n ==> base + |ids| in rest;
  }

  /** The segments other than the active one with an id up to `id`. */
  ghost function SealedUpTo(files: map<nat, Bytes>, id: nat, active: nat): set<nat> {
    set s | s in files && s <= id && s != active
  }

  ghost function SealedBelow(files: map<nat, Bytes>, id: nat, active: nat, bound: nat): set<nat> {
    set s | s in files && s <= id && s != active && s < bound
  }

  lemma SealedEnds(files: map<nat, Bytes>, id: nat, active: nat, from: nat, to: nat)
    requires forall s :: s in files.Keys ==> from <= s < to
    ensures files - SealedBelow(files, id, active, from) == files
    ensures SealedBelow(files, id, active, to) == SealedUpTo(files, id, active)
  {}

  lemma SealedStep(files: map<nat, Bytes>, id: nat, active: nat, s: nat)
    requires s in files
    ensures files - SealedBelow(files, id, active, s + 1) ==
            (files - SealedBelow(files, id, active, s)) - if s <= id && s != active then {s} else {}
  {}

  /**
   * `bytes` are behind what was in the segment `id`, unless that was not empty and they would have
   * made it longer than the maximum: then they are all there is in the next segment.
   */
  ghost predicate AppendedBytes(before: map<nat, Bytes>, id: nat, max: nat, bytes: Bytes,
                                after: map<nat, Bytes>, id': nat) {
    && id in before
    && if 0 < |before[id]| && |before[id]| + |bytes| > max then
         id' == id + 1 && after == before[id + 1 := bytes]
       else
         id' == id && after == before[id := before[id] + bytes]
  }

  const DEFAULT_MAX_SEGMENT_SIZE := 0x40_0000

  class WAL {
    const crc: Checksum
    const maxSegmentSize: nat
    var open: bool
    var files: map<nat, Bytes>
    var segmentID: nat
    var size: nat
    ghost var base: nat
    ghost var log: seq<seq<Entry>>
    ghost var gap: Gap

    ghost predicate Valid()
      reads this
    {
      && log != [] && segmentID == base + |log| - 1
      && GapIn(crc, base, log, gap) && files == FilesWith(crc, base, log, gap)
      && size == |files[segmentID]|
    }

    lemma Shape()
      requires Valid()
      ensures log != [] && segmentID == base + |log| - 1 && gap == GapAfter(gap, base)
      ensures forall id :: id in files.Keys <==> base <= id < base + |log|
    {
      hide FilesWith;
    }

    /** The first record of a segment never overflows it, however large it is. */
    predicate Overflows(r: Entry)
      reads this
    {
      size > 0 && size + HEADER_SIZE + PayloadSize(r) > maxSegmentSize
    }

    /** Opening an empty directory starts segment 1. */
    constructor (crc: Checksum, maxSegmentSize: nat)
      ensures Valid() && open && base == 1 && log == [[]] && gap == NoGap
      ensures this.crc == crc && files == map[1 := []] && segmentID == 1
      ensures this.maxSegmentSize == if maxSegmentSize == 0 then 4 * 1024 * 1024 else maxSegmentSize
    {
      this.crc, this.maxSegmentSize := crc, if maxSegmentSize == 0 then DEFAULT_MAX_SEGMENT_SIZE else maxSegmentSize;
      open, files, segmentID, size := true, map[1 := []], 1, 0;
      base, log, gap := 1, [[]], NoGap;
    }

    /** Reopening resumes the highest segment found, torn bytes at its end included. */
    constructor Reopen(crc: Checksum, maxSegmentSize: nat, files: map<nat, Bytes>,
                       ghost base: nat, ghost log: seq<seq<Entry>>, ghost gap: Gap)
      requires log != [] && GapIn(crc, base, log, gap) && files == FilesWith(crc, base, log, gap)
      ensures Valid() && open && this.base == base && this.log == log && this.gap == gap
      ensures this.crc == crc && this.files == files
      ensures segmentID in files && forall id :: id in files ==> id <= segmentID
      ensures this.maxSegmentSize == if maxSegmentSize == 0 then 4 * 1024 * 1024 else maxSegmentSize
    {
      assert base + (|log| - 1) in files;
      var top :| top in files && forall id :: id in files ==> id <= top;
      this.crc, this.maxSegmentSize := crc, if maxSegmentSize == 0 then DEFAULT_MAX_SEGMENT_SIZE else maxSegmentSize;
      this.open, this.files, this.segmentID, this.size := true, files, top, |files[top]|;
      this.base, this.log, this.gap := base, log, gap;
    }

    /**
     * The record goes to the end of the active segment, unless that holds something already and would
     * grow over the maximum: then it starts the next one.
     */
    method AppendRecord(r: Entry) returns (ok: bool)
      requires Valid()
      modifies this
      ensures Valid() && open == old(open) && base == old(base) && gap == old(gap)
      ensures ok == old(open)
      ensures !ok ==> log == old(log)
      ensures ok ==> log == Appended(old(log), old(Overflows(r)), r)
      ensures segmentID == base + |log| - 1
      ensures !ok ==> files == old(files) && segmentID == old(segmentID)
      ensures ok ==> AppendedBytes(old(files), old(segmentID), maxSegmentSize, Frame(crc, r), files, segmentID)
    {
      hide GapIn;
      hide FilesWith;
      var buf := EncodeRecord(r);
      if !open {
        return false;
      }
      ghost var bytes := Frame(crc, r);
      assert [] + bytes == bytes;
      SetTwice(files, segmentID + 1, [], bytes);
      if Overflows(r) {
        var sealed := RotateLocked();
      }
      WriteRecord(buf, r);
      return true;
    }

    method WriteRecord(buf: Bytes, ghost r: Entry)
      requires Valid() && buf == Frame(crc, r)
      modifies this
      ensures Valid() && open == old(open) && base == old(base) && gap == old(gap)
      ensures log == Appended(old(log), false, r)
      ensures segmentID == old(segmentID) && files == old(files)[segmentID := old(files[segmentID]) + buf]
    {
      hide GapIn;
      hide FilesWith;
      WithAppend(crc, base, log, gap, segmentID, r);
      files := files[segmentID := files[segmentID] + buf];
      size := size + |buf|;
      log := Appended(log, false, r);
    }

    method EncodeRecord(r: Entry) returns (bytes: Bytes)
      ensures bytes == Frame(crc, r)
    {
      var buf := new byte[HEADER_SIZE + PayloadSize(r)];
      EncodePayload(buf, HEADER_SIZE, r);
      assert buf[HEADER_SIZE..] == Payload(r);
      PutRecordHeader(buf, buf[HEADER_SIZE..]);
      assert buf[..] == buf[..HEADER_SIZE] + buf[HEADER_SIZE..];
      bytes := buf[..];
    }

    method PutRecordHeader(buf: array<byte>, payload: Bytes)
      requires buf.Length >= HEADER_SIZE
      modifies buf
      ensures buf[..HEADER_SIZE] == Put32(crc(payload)) + Put32(Low32(|payload|))
      ensures buf[HEADER_SIZE..] == old(buf[HEADER_SIZE..])
    {
      Store(buf, 0, crc(payload), 4);
      assert buf[4..][4..] == old(buf[4..])[4..];
      Store(buf, 4, Low32(|payload|), 4);
    }

    /** Seals the active segment and starts the next one. */
    method RotateLocked() returns (sealed: nat)
      requires Valid()
      modifies this
      ensures Valid() && open && base == old(base) && gap == old(gap)
      ensures sealed == old(segmentID) && segmentID == sealed + 1 && size == 0
      ensures log == old(log) + [[]] && files == old(files)[sealed + 1 := []]
    {
      hide GapIn;
      hide FilesWith;
      WithRotate(crc, base, log, gap, segmentID + 1);
      sealed := segmentID;
      segmentID := sealed + 1;
      files := files[segmentID := []];
      size := 0;
      open := true;
      log := log + [[]];
    }

    /** Every segment id on disk, ascending. */
    method ListSegmentIDs() returns (ids: seq<nat>)
      requires Valid()
      ensures |ids| == |log| && forall i :: 0 <= i < |ids| ==> ids[i] == base + i
    {
      ids := Ascending(files.Keys, base, |log|);
    }

    method RemoveOldest(id: nat)
      requires Valid() && id == base < segmentID
      modifies this
      ensures Valid() && open == old(open) && segmentID == old(segmentID)
      ensures base == old(base) + 1 && log == old(log)[1..] && gap == GapAfter(old(gap), base)
      ensures files == old(files) - {id}
    {
      hide GapIn;
      hide FilesWith;
      WithDrop(crc, base, log, gap);
      files := files - {id};
      base, log, gap := base + 1, log[1..], GapAfter(gap, base + 1);
    }

    /** Deletes the sealed segments up to and including `id`, oldest first; never the active one. */
    method RemoveSegmentsUpTo(id: nat)
      requires Valid()
      modifies this
      ensures Valid() && open == old(open) && segmentID == old(segmentID)
      ensures base == if id < old(base) then old(base) else if id < segmentID then id + 1 else segmentID
      ensures log == old(log)[base - old(base)..] && gap == GapAfter(old(gap), base)
      ensures files == old(files) - SealedUpTo(old(files), id, segmentID)
    {
      hide FilesWith;
      hide WAL.Valid;
      Shape();
      var ids := ListSegmentIDs();
      SealedEnds(files, id, segmentID, base, base + |log|);
      hide SealedBelow;
      hide SealedUpTo;
      ghost var from, all, gone := base, log, 0;
      ghost var limit := if id < from then 0 else if id < segmentID then id + 1 - from else |all| - 1;
      assert GapAfter(gap, base) == gap && all[0..] == all;
      hide GapIn;
      hide GapAfter;
      for i := 0 to |ids|
        invariant Valid() && open == old(open) && segmentID == old(segmentID)
        invariant base == from + gone && gone == (if i < limit then i else limit)
        invariant log == all[gone..] && gap == GapAfter(old(gap), base)
        invariant files == old(files) - SealedBelow(old(files), id, segmentID, from + i)
      {
        SealedStep(old(files), id, segmentID, from + i);
        assert ids[i] == from + i;
        if ids[i] <= id && ids[i] != segmentID {
          GapTwice(old(gap), base);
          DropOne(all, gone);
          RemoveOldest(ids[i]);
          gone := gone + 1;
        }
      }
    }

    /** A closed log takes no more records; what is on disk stays. */
    method Close()
      requires Valid()
      modifies this`open
      ensures Valid() && !open
    {
      open := false;
    }

    /**
     * Replay after a restart returns every whole record, unless one is too large to be read back or
     * the torn bytes are not at the very end.
     */
    method Replay() returns (res: Result<seq<Entry>>)
      requires Valid()
      ensures res == ReplaySegments(crc, files, base, |log|)
      ensures AllFit(log) && AtEnd(gap, base, log) ==> res == Ok(Flat(log))
      ensures IsReplayOf(res, crc, files, base, |log|)
      ensures AnyCorrupt(crc, files) ==> res.Err?
    {
      hide ReplaySegments;
      hide AnyCorrupt;
      hide IsReplayOf;
      res := ReplayAll(crc, files, base, |log|);
      if AllFit(log) && AtEnd(gap, base, log) {
        ReplayGapped(crc, base, log, gap);
      }
    }
  }

  /** Reads the segments in order; only the last may end in a torn record. */
  method ReplayAll(crc: Checksum, files: map<nat, Bytes>, ghost base: nat, ghost n: nat)
    returns (res: Result<seq<Entry>>)
    requires forall id :: id in files.Keys <==> base <= id < base + n
    ensures res == ReplaySegments(crc, files, base, n)
    ensures IsReplayOf(res, crc, files, base, n) && (AnyCorrupt(crc, files) ==> res.Err?)
  {
    hide IsReplayOf;
    hide AnyCorrupt;
    hide Replay;
    hide IsReplay;
    hide Corrupt;
    var ids := Ascending(files.Keys, base, n);
    var records := [];
    SegmentsAreExact(crc, files, base, n);
    ghost var whole := ReplaySegments(crc, files, base, n);
    AfterNothing(whole);
    for i := 0 to |ids|
      invariant whole == After(records, ReplaySegments(crc, files, base + i, n - i))
    {
      var segment := ReplaySegment(crc, files[ids[i]], i == |ids| - 1);
      SegmentsStep(crc, files, base + i, n - i, records, segment);
      if segment.Err? {
        return segment;
      }
      records := records + segment.value;
    }
    assert records + [] == records;
    res := Ok(records);
  }

  lemma SegmentsStep(crc: Checksum, files: map<nat, Bytes>, base: nat, n: nat, records: seq<Entry>,
                     first: Result<seq<Entry>>)
    requires n > 0 && base in files && first == WalRecord.Replay(crc, files[base], n == 1)
    ensures After(records, ReplaySegments(crc, files, base, n)) ==
            if first.Err? then first
            else After(records + first.value, ReplaySegments(crc, files, base + 1, n - 1))
  {
    if first.Ok? {
      AfterConcat(records, first.value, ReplaySegments(crc, files, base + 1, n - 1));
    }
  }

  /** Replaying segments base, base + 1, ...: every one but the last must end at a record boundary. */
  function ReplaySegments(crc: Checksum, files: map<nat, Bytes>, base: nat, n: nat): Result<seq<Entry>>
    decreases n
  {
    if n == 0 then Ok([]) else
    match WalRecord.Replay(crc, if base in files then files[base] else [], n == 1)
    case Err(e) => Err(e)
    case Ok(rs) => After(rs, ReplaySegments(crc, files, base + 1, n - 1))
  }

  /** Segment base + i reads as its part of the log; only the last may end in what a torn append has left. */
  ghost predicate SegmentReadsAs(crc: Checksum, files: map<nat, Bytes>, base: nat, parts: seq<seq<Entry>>, i: nat)
    requires i < |parts|
  {
    base + i in files && ReadsAs(crc, files[base + i], i == |parts| - 1, parts[i])
  }

  ghost predicate SegmentsReadAs(crc: Checksum, files: map<nat, Bytes>, base: nat, parts: seq<seq<Entry>>) {
    forall i :: 0 <= i < |parts| ==> SegmentReadsAs(crc, files, base, parts, i)
  }

  /** The n segments from `base` on hold these records, in the order of the segments. */
  ghost predicate HoldRecords(crc: Checksum, files: map<nat, Bytes>, base: nat, n: nat, rs: seq<Entry>) {
    exists parts :: |parts| == n && SegmentsReadAs(crc, files, base, parts) && Flat(parts) == rs
  }

  /** The result is the records that the segments hold, or an error if they hold no sequence of records. */
  ghost predicate IsReplayOf(res: Result<seq<Entry>>, crc: Checksum, files: map<nat, Bytes>, base: nat, n: nat) {
    forall rs :: res == Ok(rs) <==> HoldRecords(crc, files, base, n, rs)
  }

  ghost predicate AnyCorrupt(crc: Checksum, files: map<nat, Bytes>) {
    exists id :: id in files && Corrupt(crc, files[id])
  }

  lemma FlatSplit(parts: seq<seq<Entry>>)
    requires parts != []
    ensures Flat(parts) == parts[0] + Flat(parts[1..])
  {
    FlatFirst(parts, |parts|);
    assert parts[..|parts|] == parts && parts[1..][..|parts| - 1] == parts[1..];
  }

  lemma PartsTail(crc: Checksum, files: map<nat, Bytes>, base: nat, parts: seq<seq<Entry>>)
    requires parts != []
    ensures SegmentsReadAs(crc, files, base, parts) <==>
            && base in files && ReadsAs(crc, files[base], |parts| == 1, parts[0])
            && SegmentsReadAs(crc, files, base + 1, parts[1..])
  {
    hide ReadsAs;
    var rest, next := parts[1..], base + 1;
    forall i {:trigger SegmentReadsAs(crc, files, base, parts, i)} | 0 < i < |parts|
      ensures SegmentReadsAs(crc, files, next, rest, i - 1) == SegmentReadsAs(crc, files, base, parts, i)
    {
      assert next + (i - 1) == base + i;
    }
    assert SegmentReadsAs(crc, files, base, parts, 0) <==>
           base in files && ReadsAs(crc, files[base], |parts| == 1, parts[0]);
    hide SegmentReadsAs;
    if SegmentsReadAs(crc, files, base, parts) {
      forall i | 0 <= i < |rest| ensures SegmentReadsAs(crc, files, next, rest, i) {
        assert SegmentReadsAs(crc, files, base, parts, i + 1);
      }
    }
    if SegmentsReadAs(crc, files, next, rest) && SegmentReadsAs(crc, files, base, parts, 0) {
      forall i | 0 <= i < |parts| ensures SegmentReadsAs(crc, files, base, parts, i) {
        assert i > 0 ==> SegmentReadsAs(crc, files, next, rest, i - 1);
      }
    }
  }

  /** Replay over the segments yields exactly the records that they hold. */
  lemma {:induction false} SegmentsAcceptIff(crc: Checksum, files: map<nat, Bytes>, base: nat, n: nat, rs: seq<Entry>)
    requires forall id :: base <= id < base + n ==> id in files
    ensures ReplaySegments(crc, files, base, n) == Ok(rs) <==> HoldRecords(crc, files, base, n, rs)
  {
    if HoldRecords(crc, files, base, n, rs) {
      HeldIsRead(crc, files, base, n, rs);
    }
    if ReplaySegments(crc, files, base, n) == Ok(rs) {
      var parts := ReadIsHeld(crc, files, base, n, rs);
    }
  }

  lemma {:induction false} PartsAreRead(crc: Checksum, files: map<nat, Bytes>, base: nat, parts: seq<seq<Entry>>)
    requires SegmentsReadAs(crc, files, base, parts)
    ensures ReplaySegments(crc, files, base, |parts|) == Ok(Flat(parts))
    decreases |parts|
  {
    if parts != [] {
      PartsTail(crc, files, base, parts);
      ReplayAcceptsIff(crc, files[base], |parts| == 1, parts[0]);
      FlatSplit(parts);
      hide ReadsAs;
      hide Replay;
      hide Flat;
      PartsAreRead(crc, files, base + 1, parts[1..]);
    }
  }

  lemma HeldIsRead(crc: Checksum, files: map<nat, Bytes>, base: nat, n: nat, rs: seq<Entry>)
    requires HoldRecords(crc, files, base, n, rs)
    ensures ReplaySegments(crc, files, base, n) == Ok(rs)
  {
    hide ReplaySegments;
    hide SegmentsReadAs;
    var parts :| |parts| == n && SegmentsReadAs(crc, files, base, parts) && Flat(parts) == rs;
    PartsAreRead(crc, files, base, parts);
  }

  lemma {:induction false} ReadIsHeld(crc: Checksum, files: map<nat, Bytes>, base: nat, n: nat, rs: seq<Entry>)
    returns (parts: seq<seq<Entry>>)
    requires forall id :: base <= id < base + n ==> id in files
    requires ReplaySegments(crc, files, base, n) == Ok(rs)
    ensures |parts| == n && SegmentsReadAs(crc, files, base, parts) && Flat(parts) == rs
    decreases n
  {
    if n == 0 {
      parts := [];
    } else {
      var first := Replay(crc, files[base], n == 1).value;
      ReplayAcceptsIff(crc, files[base], n == 1, first);
      hide ReadsAs;
      hide Replay;
      hide Flat;
      var rest := ReadIsHeld(crc, files, base + 1, n - 1, ReplaySegments(crc, files, base + 1, n - 1).value);
      parts := [first] + rest;
      assert parts[1..] == rest;
      FlatSplit(parts);
      PartsTail(crc, files, base, parts);
    }
  }

  lemma {:induction false} SegmentRefused(crc: Checksum, files: map<nat, Bytes>, base: nat, n: nat, id: nat)
    requires base <= id < base + n && id in files && Replay(crc, files[id], id == base + n - 1).Err?
    ensures ReplaySegments(crc, files, base, n).Err?
    decreases n
  {
    hide Replay;
    if id > base {
      SegmentRefused(crc, files, base + 1, n - 1, id);
    }
  }

  lemma SegmentsAreExact(crc: Checksum, files: map<nat, Bytes>, base: nat, n: nat)
    requires forall id :: id in files.Keys <==> base <= id < base + n
    ensures IsReplayOf(ReplaySegments(crc, files, base, n), crc, files, base, n)
    ensures AnyCorrupt(crc, files) ==> ReplaySegments(crc, files, base, n).Err?
  {
    hide ReplaySegments;
    hide HoldRecords;
    hide Corrupt;
    hide ReadsAs;
    forall rs ensures ReplaySegments(crc, files, base, n) == Ok(rs) <==> HoldRecords(crc, files, base, n, rs) {
      SegmentsAcceptIff(crc, files, base, n, rs);
    }
    if id :| id in files && Corrupt(crc, files[id]) {
      ReplayIsExact(crc, files[id], id == base + n - 1);
      SegmentRefused(crc, files, base, n, id);
    }
  }

  ghost predicate AllFit(log: seq<seq<Entry>>) {
    forall i :: 0 <= i < |log| ==> forall r :: r in log[i] ==> Fits(r)
  }

  lemma ReplayWhole(crc: Checksum, rs: seq<Entry>)
    requires forall r :: r in rs ==> Fits(r)
    ensures Replay(crc, Frames(crc, rs), false) == Ok(rs)
  {
    ReplayFrames(crc, rs, [], false);
    assert Frames(crc, rs) + [] == Frames(crc, rs);
    assert rs + [] == rs;
  }

  /** Files base, base + 1, ... hold the log, except that the last has only `n` of its bytes. */
  ghost predicate CutFiles(files: map<nat, Bytes>, crc: Checksum, base: nat, log: seq<seq<Entry>>, n: nat)
    decreases |log|
  {
    && log != [] && base in files
    && if |log| == 1 then
         n <= |Frames(crc, log[0])| && files[base] == Frames(crc, log[0])[..n]
       else
         files[base] == Frames(crc, log[0]) && CutFiles(files, crc, base + 1, log[1..], n)
  }

  ghost function Recovered(log: seq<seq<Entry>>, n: nat): seq<Entry>
    requires log != []
  {
    Flat(log[..|log| - 1]) + log[|log| - 1][..WholeRecords(log[|log| - 1], n)]
  }

  lemma RecoveredFirst(log: seq<seq<Entry>>, n: nat)
    requires |log| > 1
    ensures Recovered(log, n) == log[0] + Recovered(log[1..], n)
  {
    var m := |log| - 1;
    FlatFirst(log, m);
    assert log[1..][..m - 1] == log[1..m];
  }

  lemma LastSegment(crc: Checksum, log: seq<seq<Entry>>, n: nat)
    requires |log| == 1 && AllFit(log) && n <= |Frames(crc, log[0])|
    ensures var res := Replay(crc, Frames(crc, log[0])[..n], true);
            res == Ok(Recovered(log, n)) && res.value + [] == res.value
  {
    TornTail(crc, log[0], n, true);
    hide Replay;
    hide Frames;
    hide WholeRecords;
    assert log[..0] == [];
    assert Recovered(log, n) == log[0][..WholeRecords(log[0], n)];
  }

  /**
   * However many bytes of the active segment a crash has kept, replay returns every record of the
   * sealed segments and exactly the records of the active one that are wholly on disk.
   */
  lemma {:induction false} ReplayAfterCrash(files: map<nat, Bytes>, crc: Checksum, base: nat, log: seq<seq<Entry>>,
                                            n: nat)
    requires CutFiles(files, crc, base, log, n) && AllFit(log)
    ensures ReplaySegments(crc, files, base, |log|) == Ok(Recovered(log, n))
    decreases |log|
  {
    hide Frames;
    hide Replay;
    if |log| == 1 {
      LastSegment(crc, log, n);
    } else {
      hide Recovered;
      ReplayWhole(crc, log[0]);
      ReplayAfterCrash(files, crc, base + 1, log[1..], n);
      RecoveredFirst(log, n);
    }
  }

  lemma {:induction false} WholeIsCut(crc: Checksum, base: nat, log: seq<seq<Entry>>, i: nat)
    requires i < |log|
    ensures CutFiles(FilesOf(crc, base, log), crc, base + i, log[i..], |Frames(crc, log[|log| - 1])|)
    decreases |log| - i
  {
    var rest := log[i..];
    FileHolds(crc, base, log, i);
    if i == |log| - 1 {
      assert Frames(crc, rest[0])[..|Frames(crc, rest[0])|] == Frames(crc, rest[0]);
    } else {
      WholeIsCut(crc, base, log, i + 1);
      assert rest[1..] == log[i + 1..];
    }
  }

  lemma RecoveredWhole(crc: Checksum, log: seq<seq<Entry>>)
    requires log != []
    ensures Recovered(log, |Frames(crc, log[|log| - 1])|) == Flat(log)
  {
    var last := log[|log| - 1];
    AllRecordsWhole(crc, last);
    assert last[..|last|] == last;
  }

  /** An intact log is read back in full. */
  lemma ReplayIntact(crc: Checksum, base: nat, log: seq<seq<Entry>>)
    requires log != [] && AllFit(log)
    ensures ReplaySegments(crc, FilesOf(crc, base, log), base, |log|) == Ok(Flat(log))
  {
    WholeIsCut(crc, base, log, 0);
    assert log[0..] == log;
    ReplayAfterCrash(FilesOf(crc, base, log), crc, base, log, |Frames(crc, log[|log| - 1])|);
    RecoveredWhole(crc, log);
  }

  lemma AllRecordsWhole(crc: Checksum, rs: seq<Entry>)
    ensures WholeRecords(rs, |Frames(crc, rs)|) == |rs|
  {
    var k := WholeRecords(rs, |Frames(crc, rs)|);
    WholeRecordsExact(crc, rs, |Frames(crc, rs)|);
    forall j | 0 < j <= |rs| ensures |Frames(crc, rs[..j])| <= |Frames(crc, rs)| {
      FramesPrefix(crc, rs, j);
    }
  }

  lemma FramesPrefix(crc: Checksum, rs: seq<Entry>, k: nat)
    requires k <= |rs|
    ensures |Frames(crc, rs[..k])| <= |Frames(crc, rs)|
  {
    FramesConcat(crc, rs[..k], rs[k..]);
    assert rs == rs[..k] + rs[k..];
  }

  // ----- torn bytes at the end of the log

  ghost predicate AtEnd(gap: Gap, base: nat, log: seq<seq<Entry>>) {
    gap.Gap? ==> log != [] && gap.segment == base + |log| - 1 && gap.at == |log[|log| - 1]|
  }

  ghost predicate WholeAt(files: map<nat, Bytes>, crc: Checksum, base: nat, log: seq<seq<Entry>>, j: nat) {
    j < |log| && base + j in files && files[base + j] == Frames(crc, log[j])
  }

  lemma {:induction false} CutFrom(files: map<nat, Bytes>, crc: Checksum, base: nat, log: seq<seq<Entry>>, n: nat,
                                   i: nat)
    requires i < |log| && n <= |Frames(crc, log[|log| - 1])|
    requires forall j :: 0 <= j < |log| - 1 ==> WholeAt(files, crc, base, log, j)
    requires base + |log| - 1 in files && files[base + |log| - 1] == Frames(crc, log[|log| - 1])[..n]
    ensures CutFiles(files, crc, base + i, log[i..], n)
    decreases |log| - i
  {
    assert log[i..][0] == log[i];
    if i < |log| - 1 {
      assert WholeAt(files, crc, base, log, i);
      CutFrom(files, crc, base, log, n, i + 1);
      assert log[i..][1..] == log[i + 1..];
    }
  }

  lemma TornIsCut(crc: Checksum, rs: seq<Entry>, torn: Entry, n: nat)
    requires n <= |Frame(crc, torn)|
    ensures |Frames(crc, rs)| + n <= |Frames(crc, rs + [torn])|
    ensures GappedFrames(crc, rs, |rs|, torn, n) == Frames(crc, rs + [torn])[..|Frames(crc, rs)| + n]
  {
    FramesAppend(crc, rs, torn);
    hide Frame;
    assert rs[..|rs|] == rs && rs[|rs|..] == [];
    assert Frames(crc, []) == [];
    hide Frames;
    assert (Frames(crc, rs) + Frame(crc, torn))[..|Frames(crc, rs)| + n] == Frames(crc, rs) + Frame(crc, torn)[..n];
  }

  lemma WholeBeforeTorn(crc: Checksum, rs: seq<Entry>, torn: Entry, n: nat)
    requires n < |Frame(crc, torn)|
    ensures WholeRecords(rs + [torn], |Frames(crc, rs)| + n) == |rs|
  {
    var all, m := rs + [torn], |Frames(crc, rs)| + n;
    FramesAppend(crc, rs, torn);
    WholeRecordsExact(crc, all, m);
    var k := WholeRecords(all, m);
    hide Frame;
    hide Frames;
    hide WholeRecords;
    assert all[..|all|] == all && all[..|rs|] == rs;
    forall j | 0 < j <= |rs| ensures |Frames(crc, all[..j])| <= |Frames(crc, rs)| {
      FramesPrefix(crc, rs, j);
      assert all[..j] == rs[..j];
    }
  }

  /** Torn bytes at the end of the last segment are read over, and every whole record is returned. */
  lemma ReplayGapped(crc: Checksum, base: nat, log: seq<seq<Entry>>, gap: Gap)
    requires log != [] && AllFit(log) && GapIn(crc, base, log, gap) && AtEnd(gap, base, log)
    ensures ReplaySegments(crc, FilesWith(crc, base, log, gap), base, |log|) == Ok(Flat(log))
  {
    hide Frames;
    hide Frame;
    hide Flat;
    hide Recovered;
    hide ReplaySegments;
    hide FilesOf;
    hide GappedFrames;
    hide CutFiles;
    hide AllFit;
    if gap.NoGap? {
      ReplayIntact(crc, base, log);
    } else {
      var m := |log| - 1;
      var rs := log[m];
      var log' := log[m := rs + [gap.torn]];
      GappedIsCut(crc, base, log, gap);
      ReplayAfterCrash(FilesWith(crc, base, log, gap), crc, base, log', |Frames(crc, rs)| + gap.n);
      RecoveredBeforeTorn(crc, log, gap.torn, gap.n);
    }
  }

  lemma RecoveredBeforeTorn(crc: Checksum, log: seq<seq<Entry>>, torn: Entry, n: nat)
    requires log != [] && n < |Frame(crc, torn)|
    ensures var m := |log| - 1;
            Recovered(log[m := log[m] + [torn]], |Frames(crc, log[m])| + n) == Flat(log)
  {
    var m := |log| - 1;
    WholeBeforeTorn(crc, log[m], torn, n);
    hide Frame;
    hide Frames;
    hide WholeRecords;
    assert log[m := log[m] + [torn]][..m] == log[..m] && (log[m] + [torn])[..|log[m]|] == log[m];
  }

  lemma FitsWithTorn(log: seq<seq<Entry>>, torn: Entry)
    requires log != [] && AllFit(log) && Fits(torn)
    ensures var m := |log| - 1; AllFit(log[m := log[m] + [torn]])
  {
    hide Fits;
  }

  lemma GappedFiles(crc: Checksum, base: nat, log: seq<seq<Entry>>, gap: Gap, log': seq<seq<Entry>>, j: nat)
    requires GapIn(crc, base, log, gap) && gap.Gap? && base + j != gap.segment
    requires j < |log| == |log'| && log'[j] == log[j]
    ensures WholeAt(FilesWith(crc, base, log, gap), crc, base, log', j)
  {
    FileHolds(crc, base, log, j);
    hide Frames;
    hide FilesOf;
    hide GappedFrames;
  }

  lemma GappedIsCut(crc: Checksum, base: nat, log: seq<seq<Entry>>, gap: Gap)
    requires log != [] && AllFit(log) && GapIn(crc, base, log, gap) && AtEnd(gap, base, log) && gap.Gap?
    ensures var m := |log| - 1;
            var log' := log[m := log[m] + [gap.torn]];
            CutFiles(FilesWith(crc, base, log, gap), crc, base, log', |Frames(crc, log[m])| + gap.n) && AllFit(log')
  {
    hide Frames;
    hide Frame;
    hide FilesOf;
    hide CutFiles;
    hide AllFit;
    hide WholeAt;
    var m := |log| - 1;
    var log' := log[m := log[m] + [gap.torn]];
    FitsWithTorn(log, gap.torn);
    TornIsCut(crc, log[m], gap.torn, gap.n);
    forall j | 0 <= j < m ensures WholeAt(FilesWith(crc, base, log, gap), crc, base, log', j) {
      GappedFiles(crc, base, log, gap, log', j);
    }
    CutFrom(FilesWith(crc, base, log, gap), crc, base, log', |Frames(crc, log[m])| + gap.n, 0);
    assert log'[0..] == log';
  }

  // ----- what a crash in the middle of an append leaves on disk

  /** A crash keeps the first `kept` bytes of the last record: all of it, none, or a torn part. */
  ghost predicate CrashLeaves(crc: Checksum, base: nat, log: seq<seq<Entry>>, kept: nat, disk: map<nat, Bytes>)
    requires log != [] && log[|log| - 1] != []
  {
    var id, last := base + |log| - 1, log[|log| - 1];
    var rs, r := last[..|last| - 1], last[|last| - 1];
    kept <= |Frame(crc, r)| && disk == FilesOf(crc, base, log)[id := Frames(crc, rs) + Frame(crc, r)[..kept]]
  }

  /** The directory after a crash that let `kept` bytes of an append reach the disk. */
  function CutAppend(files: map<nat, Bytes>, id: nat, max: nat, bytes: Bytes, kept: nat): map<nat, Bytes>
    requires id in files && kept <= |bytes|
  {
    if 0 < |files[id]| && |files[id]| + |bytes| > max then files[id + 1 := bytes[..kept]]
    else files[id := files[id] + bytes[..kept]]
  }

  /** Such a directory is what a crash leaves of the log with the record appended. */
  lemma CutAppendLeaves(crc: Checksum, base: nat, log: seq<seq<Entry>>, rotate: bool, r: Entry, kept: nat)
    requires log != [] && kept <= |Frame(crc, r)|
    ensures var files, id := FilesOf(crc, base, log), base + |log| - 1;
            && id in files
            && CrashLeaves(crc, base, Appended(log, rotate, r), kept,
                           if rotate then files[id + 1 := Frame(crc, r)[..kept]]
                           else files[id := files[id] + Frame(crc, r)[..kept]])
  {
    hide FilesOf;
    hide Frames;
    hide Frame;
    hide CrashLeaves;
    var files, id := FilesOf(crc, base, log), base + |log| - 1;
    FileHolds(crc, base, log, |log| - 1);
    if rotate {
      FilesRotate(crc, base, log, id + 1);
      CutLast(crc, base, log + [[]], r, kept);
      NoFrames(crc);
      SetTwice(files, id + 1, [], [] + Frame(crc, r)[..kept]);
      assert [] + Frame(crc, r)[..kept] == Frame(crc, r)[..kept];
      assert Appended(log + [[]], false, r) == Appended(log, true, r);
    } else {
      CutLast(crc, base, log, r, kept);
    }
  }

  lemma NoFrames(crc: Checksum)
    ensures Frames(crc, []) == []
  {}

  /** The append went to the last segment. */
  lemma CutLast(crc: Checksum, base: nat, log: seq<seq<Entry>>, r: Entry, kept: nat)
    requires log != [] && kept <= |Frame(crc, r)|
    ensures var files, id := FilesOf(crc, base, log), base + |log| - 1;
            CrashLeaves(crc, base, Appended(log, false, r), kept,
                        files[id := Frames(crc, log[|log| - 1]) + Frame(crc, r)[..kept]])
  {
    hide FilesOf;
    hide Frames;
    hide Frame;
    hide Appended;
    var files, id := FilesOf(crc, base, log), base + |log| - 1;
    FilesAppend(crc, base, log, id, r);
    LastAppended(log, r);
    SetTwice(files, id, files[id] + Frame(crc, r), Frames(crc, log[|log| - 1]) + Frame(crc, r)[..kept]);
  }

  lemma LastAppended(log: seq<seq<Entry>>, r: Entry)
    requires log != []
    ensures var last := Appended(log, false, r)[|log| - 1];
            |Appended(log, false, r)| == |log| && last == log[|log| - 1] + [r] && last[..|last| - 1] == log[|log| - 1]
  {}

  /** The log without its last record. */
  ghost function WithoutLast(log: seq<seq<Entry>>): seq<seq<Entry>>
    requires log != [] && log[|log| - 1] != []
  {
    var n := |log| - 1;
    log[n := log[n][..|log[n]| - 1]]
  }

  /** Whichever bytes survive, the disk holds a log: the whole one, or the one without the last record. */
  lemma CrashLeavesLog(crc: Checksum, base: nat, log: seq<seq<Entry>>, kept: nat, disk: map<nat, Bytes>)
    requires log != [] && log[|log| - 1] != [] && CrashLeaves(crc, base, log, kept, disk)
    ensures var last := log[|log| - 1];
            var r := last[|last| - 1];
            kept <= |Frame(crc, r)| &&
            if kept == |Frame(crc, r)| then disk == FilesOf(crc, base, log)
            else if kept == 0 then disk == FilesOf(crc, base, WithoutLast(log))
            else Fits(r) ==>
              var gap := Gap(base + |log| - 1, |last| - 1, r, kept);
              && GapIn(crc, base, WithoutLast(log), gap) && AtEnd(gap, base, WithoutLast(log))
              && disk == FilesWith(crc, base, WithoutLast(log), gap)
  {
    var n := |log| - 1;
    var last := log[n];
    var rs, r := last[..|last| - 1], last[|last| - 1];
    hide Frame;
    hide Frames;
    hide FilesOf;
    hide GappedFrames;
    assert last == rs + [r] && WithoutLast(log) == log[n := rs];
    var files, id := FilesOf(crc, base, log), base + n;
    LastFile(crc, base, log, rs, r);
    SplitFrame(crc, rs, r, kept);
    SetTwice(files, id, Frames(crc, rs), GappedFrames(crc, rs, |rs|, r, kept));
  }

  lemma LastFile(crc: Checksum, base: nat, log: seq<seq<Entry>>, rs: seq<Entry>, r: Entry)
    requires log != [] && log[|log| - 1] == rs + [r]
    ensures var files, id := FilesOf(crc, base, log), base + |log| - 1;
            && files[id := Frames(crc, rs) + Frame(crc, r)] == files
            && FilesOf(crc, base, log[|log| - 1 := rs]) == files[id := Frames(crc, rs)]
  {
    FramesAppend(crc, rs, r);
    FilesSetLast(crc, base, log, rs);
    FileHolds(crc, base, log, |log| - 1);
    hide FilesOf;
    hide Frame;
    hide Frames;
  }

  lemma SplitFrame(crc: Checksum, rs: seq<Entry>, r: Entry, kept: nat)
    requires kept <= |Frame(crc, r)|
    ensures var bytes := Frames(crc, rs) + Frame(crc, r)[..kept];
            && bytes == GappedFrames(crc, rs, |rs|, r, kept)
            && (kept == |Frame(crc, r)| ==> bytes == Frames(crc, rs) + Frame(crc, r))
            && (kept == 0 ==> bytes == Frames(crc, rs))
  {
    hide Frame;
    assert rs[..|rs|] == rs && rs[|rs|..] == [];
  }
}
