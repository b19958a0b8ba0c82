/** The record framing of the write-ahead log and the replay of one segment. */
module WalRecord {
  import opened Base
  import opened LittleEndian

  const HEADER_SIZE := 8
  const MAX_RECORD_SIZE := 0x400_0000
  const PAYLOAD_HEADER := 21

  function PayloadSize(r: Entry): nat {
    PAYLOAD_HEADER + |r.cell.value|
  }

  /** timestamp(8) + deleted flag(1) + value length(4) + seriesID(8) + value */
  function Payload(r: Entry): (p: Bytes)
    ensures |p| == PayloadSize(r)
  {
    Put64(Unsigned(r.key.timestamp)) + [if r.cell.deleted then 1 else 0]
    + Put32(Low32(|r.cell.value|)) + Put64(r.key.series) + r.cell.value
  }

  method EncodePayload(dst: array<byte>, at: nat, r: Entry)
    requires at + PayloadSize(r) == dst.Length
    modifies dst
    ensures dst[..] == old(dst[..at]) + Payload(r)
  {
    hide Put;
    ghost var pre := dst[..at];
    ghost var a, b := Put64(Unsigned(r.key.timestamp)), [if r.cell.deleted then 1 else 0];
    ghost var c, d := Put32(Low32(|r.cell.value|)), Put64(r.key.series);
    Store(dst, at, Unsigned(r.key.timestamp), 8);
    dst[at + 8] := if r.cell.deleted then 1 else 0;
    assert dst[..at + 9] == pre + a + b;
    Store(dst, at + 9, Low32(|r.cell.value|), 4);
    Store(dst, at + 13, r.key.series, 8);
    Copy(dst, at + 21, r.cell.value);
    assert dst[..] == dst[..at + 21 + |r.cell.value|];
    Regroup(pre, a, b, c, d, r.cell.value);
  }

  lemma Regroup(pre: Bytes, a: Bytes, b: Bytes, c: Bytes, d: Bytes, e: Bytes)
    ensures pre + a + b + c + d + e == pre + (a + b + c + d + e)
  {}

  function Deserialize(data: Bytes): Result<Entry> {
    if |data| < PAYLOAD_HEADER then Err("wal payload too short") else
    var timestamp := Signed(Get64(data[0..8]));
    var deleted := data[8] != 0;
    var valueLen := Get32(data[9..13]);
    var series := Get64(data[13..21]);
    if PAYLOAD_HEADER + valueLen > |data| then Err("wal payload truncated") else
    Ok(Entry(Key(series, timestamp), Cell(deleted, data[PAYLOAD_HEADER..PAYLOAD_HEADER + valueLen])))
  }

  lemma Cat5(a: Bytes, b: Bytes, c: Bytes, d: Bytes, e: Bytes)
    ensures var s := a + b + c + d + e;
            var i, j, k := |a| + |b|, |a| + |b| + |c|, |a| + |b| + |c| + |d|;
            s[0..|a|] == a && s[|a|..i] == b && s[i..j] == c && s[j..k] == d && s[k..] == e
  {}

  lemma PayloadParts(r: Entry)
    ensures var p := Payload(r);
            && p[0..8] == Put64(Unsigned(r.key.timestamp)) && p[8] == (if r.cell.deleted then 1 else 0)
            && p[9..13] == Put32(Low32(|r.cell.value|)) && p[13..21] == Put64(r.key.series)
            && p[PAYLOAD_HEADER..] == r.cell.value
  {
    hide Put64;
    hide Put32;
    Cat5(Put64(Unsigned(r.key.timestamp)), [if r.cell.deleted then 1 else 0], Put32(Low32(|r.cell.value|)),
         Put64(r.key.series), r.cell.value);
    assert Payload(r)[8..9] == [if r.cell.deleted then 1 else 0];
  }

  /** A payload decodes to its record exactly when the length field could hold the value's length. */
  lemma PayloadRoundTrip(r: Entry)
    ensures Deserialize(Payload(r)) == Ok(r) <==> |r.cell.value| < 0x1_0000_0000
  {
    PayloadParts(r);
    SignedUnsigned(r.key.timestamp);
    hide Put32;
    hide Put64;
    hide Payload;
    if |r.cell.value| < 0x1_0000_0000 {
      assert Payload(r)[PAYLOAD_HEADER..PAYLOAD_HEADER + |r.cell.value|] == r.cell.value;
    }
  }

  type Checksum = Bytes -> uint32

  /** crc32 of the payload, payload length, payload */
  function Frame(crc: Checksum, r: Entry): (f: Bytes)
    ensures |f| == HEADER_SIZE + PayloadSize(r)
  {
    Put32(crc(Payload(r))) + Put32(Low32(PayloadSize(r))) + Payload(r)
  }

  function Frames(crc: Checksum, rs: seq<Entry>): Bytes {
    if rs == [] then [] else Frame(crc, rs[0]) + Frames(crc, rs[1..])
  }

  /** One turn of replaySegment's loop: the end of the log, a refusal, or a record and its size. */
  datatype Turn = Stop | Fail(error: string) | Got(record: Entry, size: nat)

  function ReadRecord(crc: Checksum, data: Bytes, tolerate: bool): (t: Turn)
    ensures t.Got? ==> HEADER_SIZE + t.size <= |data|
  {
    if data == [] then Stop
    else if |data| < HEADER_SIZE then if tolerate then Stop else Fail("unexpected EOF")
    else
      var size := Get32(data[4..8]);
      if size > MAX_RECORD_SIZE then Fail("WAL record size exceeds maximum")
      else if |data| < HEADER_SIZE + size then if tolerate then Stop else Fail("unexpected EOF")
      else
        var payload := data[HEADER_SIZE..HEADER_SIZE + size];
        if crc(payload) != Get32(data[0..4]) then Fail("WAL checksum mismatch") else
        match Deserialize(payload)
        case Err(e) => Fail(e)
        case Ok(r) => Got(r, size)
  }

  function After(rs: seq<Entry>, rest: Result<seq<Entry>>): Result<seq<Entry>> {
    match rest
    case Err(e) => Err(e)
    case Ok(more) => Ok(rs + more)
  }

  /** What replaySegment makes of the bytes that are left to read. */
  function Replay(crc: Checksum, data: Bytes, tolerate: bool): Result<seq<Entry>>
    decreases |data|
  {
    match ReadRecord(crc, data, tolerate)
    case Stop => Ok([])
    case Fail(e) => Err(e)
    case Got(r, size) => After([r], Replay(crc, data[HEADER_SIZE + size..], tolerate))
  }

  lemma AfterNothing(rest: Result<seq<Entry>>)
    ensures After([], rest) == rest
  {
    assert rest.Ok? ==> [] + rest.value == rest.value;
  }

  lemma AfterAppend(rs: seq<Entry>, r: Entry, rest: Result<seq<Entry>>)
    ensures After(rs, After([r], rest)) == After(rs + [r], rest)
  {
    if rest.Ok? {
      assert rs + ([r] + rest.value) == rs + [r] + rest.value;
    }
  }

  // ----- torn tails

  predicate Fits(r: Entry) {
    PayloadSize(r) <= MAX_RECORD_SIZE
  }

  /** How many of the records lie wholly inside the first n bytes. */
  function WholeRecords(rs: seq<Entry>, n: nat): (k: nat)
    ensures k <= |rs|
  {
    if rs == [] || HEADER_SIZE + PayloadSize(rs[0]) > n then 0
    else 1 + WholeRecords(rs[1..], n - HEADER_SIZE - PayloadSize(rs[0]))
  }

  lemma {:induction false} WholeRecordsExact(crc: Checksum, rs: seq<Entry>, n: nat)
    ensures var k := WholeRecords(rs, n);
            && |Frames(crc, rs[..k])| <= n
            && (k < |rs| ==> n < |Frames(crc, rs[..k + 1])|)
  {
    if rs != [] && HEADER_SIZE + PayloadSize(rs[0]) <= n {
      WholeRecordsExact(crc, rs[1..], n - HEADER_SIZE - PayloadSize(rs[0]));
      var k := WholeRecords(rs, n);
      assert rs[..k][1..] == rs[1..][..k - 1];
      if k < |rs| {
        assert rs[..k + 1][1..] == rs[1..][..k];
      }
    } else if rs != [] {
      assert rs[..1][1..] == [];
    }
  }

  lemma Cat3(a: Bytes, b: Bytes, c: Bytes)
    ensures var s := a + b + c;
            s[0..|a|] == a && s[|a|..|a| + |b|] == b && s[|a| + |b|..|s|] == c
  {}

  lemma SliceOfPrefix(f: Bytes, data: Bytes, i: nat, j: nat)
    requires f <= data && i <= j <= |f|
    ensures data[i..j] == f[i..j]
  {}

  lemma FrameParts(crc: Checksum, r: Entry, data: Bytes)
    requires Fits(r) && Frame(crc, r) <= data
    ensures Get32(data[0..4]) == crc(Payload(r)) && Get32(data[4..8]) == PayloadSize(r)
    ensures data[HEADER_SIZE..HEADER_SIZE + PayloadSize(r)] == Payload(r)
  {
    var f := Frame(crc, r);
    Cat3(Put32(crc(Payload(r))), Put32(Low32(PayloadSize(r))), Payload(r));
    SliceOfPrefix(f, data, 0, 4);
    SliceOfPrefix(f, data, 4, 8);
    SliceOfPrefix(f, data, 8, |f|);
  }

  /** Reading a whole frame yields its record and goes on behind it. */
  lemma ReplayFrame(crc: Checksum, r: Entry, rest: Bytes, tolerate: bool)
    requires Fits(r)
    ensures Replay(crc, Frame(crc, r) + rest, tolerate) == After([r], Replay(crc, rest, tolerate))
  {
    var data := Frame(crc, r) + rest;
    FrameParts(crc, r, data);
    PayloadRoundTrip(r);
    assert data[HEADER_SIZE + PayloadSize(r)..] == rest;
  }

  /** A proper, non-empty part of a frame is tolerated or refused, never read as a record. */
  lemma ReplayTorn(crc: Checksum, r: Entry, n: nat, tolerate: bool)
    requires Fits(r) && 0 < n < |Frame(crc, r)|
    ensures var res := Replay(crc, Frame(crc, r)[..n], tolerate);
            if tolerate then res == Ok([]) else res.Err?
  {
    var f := Frame(crc, r);
    var data := f[..n];
    FrameParts(crc, r, f);
    if n >= HEADER_SIZE {
      assert data[4..8] == f[4..8];
    }
  }

  /** What replaying the first n bytes of `rs` must give. */
  ghost predicate ReplaysPrefix(crc: Checksum, rs: seq<Entry>, n: nat, tolerate: bool, res: Result<seq<Entry>>) {
    var k := WholeRecords(rs, n);
    if tolerate || n == |Frames(crc, rs[..k])| then res == Ok(rs[..k]) else res.Err?
  }

  lemma PrefixStep(crc: Checksum, rs: seq<Entry>, n: nat, tolerate: bool, res: Result<seq<Entry>>)
    requires rs != [] && |Frame(crc, rs[0])| <= n
    requires ReplaysPrefix(crc, rs[1..], n - |Frame(crc, rs[0])|, tolerate, res)
    ensures ReplaysPrefix(crc, rs, n, tolerate, After([rs[0]], res))
  {
    var k := WholeRecords(rs, n);
    assert rs[..k] == [rs[0]] + rs[1..][..k - 1];
    assert rs[..k][1..] == rs[1..][..k - 1];
  }

  /** The cut falls into the first frame, or there is none. */
  lemma TornFirst(crc: Checksum, rs: seq<Entry>, n: nat, tolerate: bool)
    requires n <= |Frames(crc, rs)| && (rs != [] ==> Fits(rs[0]) && n < |Frame(crc, rs[0])|)
    ensures ReplaysPrefix(crc, rs, n, tolerate, Replay(crc, Frames(crc, rs)[..n], tolerate))
  {
    hide Frame;
    hide ReadRecord;
    assert rs[..0] == [];
    if n > 0 {
      var f := Frame(crc, rs[0]);
      assert Frames(crc, rs)[..n] == f[..n];
      ReplayTorn(crc, rs[0], n, tolerate);
    } else {
      assert Frames(crc, rs)[..n] == [];
      NothingRead(crc, tolerate);
    }
  }

  lemma FramesFirst(crc: Checksum, rs: seq<Entry>)
    requires rs != []
    ensures Frames(crc, rs) == Frame(crc, rs[0]) + Frames(crc, rs[1..])
  {}

  lemma NothingRead(crc: Checksum, tolerate: bool)
    ensures Replay(crc, [], tolerate) == Ok([])
  {}

  /**
   * Torn tail: cut a segment anywhere, and tolerant replay returns exactly the records that lie
   * wholly before the cut, while strict replay succeeds exactly at record boundaries.
   */
  lemma {:induction false} TornTail(crc: Checksum, rs: seq<Entry>, n: nat, tolerate: bool)
    requires forall r :: r in rs ==> Fits(r)
    requires n <= |Frames(crc, rs)|
    ensures ReplaysPrefix(crc, rs, n, tolerate, Replay(crc, Frames(crc, rs)[..n], tolerate))
  {
    hide *;
    if rs == [] || n < |Frame(crc, rs[0])| {
      TornFirst(crc, rs, n, tolerate);
    } else {
      var f, rest := Frame(crc, rs[0]), Frames(crc, rs[1..]);
      FramesFirst(crc, rs);
      assert rs[0] in rs && forall r :: r in rs[1..] ==> r in rs;
      assert (f + rest)[..n] == f + rest[..n - |f|];
      TornTail(crc, rs[1..], n - |f|, tolerate);
      ReplayFrame(crc, rs[0], rest[..n - |f|], tolerate);
      PrefixStep(crc, rs, n, tolerate, Replay(crc, rest[..n - |f|], tolerate));
    }
  }

  lemma {:induction false} ReplayFrames(crc: Checksum, rs: seq<Entry>, rest: Bytes, tolerate: bool)
    requires forall r :: r in rs ==> Fits(r)
    ensures Replay(crc, Frames(crc, rs) + rest, tolerate) == After(rs, Replay(crc, rest, tolerate))
  {
    if rs == [] {
      assert Frames(crc, rs) + rest == rest;
      AfterNothing(Replay(crc, rest, tolerate));
    } else {
      ReplayFrames(crc, rs[1..], rest, tolerate);
      assert Frames(crc, rs) + rest == Frame(crc, rs[0]) + (Frames(crc, rs[1..]) + rest);
      ReplayFrame(crc, rs[0], Frames(crc, rs[1..]) + rest, tolerate);
      AfterConcat([rs[0]], rs[1..], Replay(crc, rest, tolerate));
      assert rs == [rs[0]] + rs[1..];
    }
  }

  lemma AfterConcat(a: seq<Entry>, b: seq<Entry>, rest: Result<seq<Entry>>)
    ensures After(a, After(b, rest)) == After(a + b, rest)
  {
    if rest.Ok? {
      assert a + (b + rest.value) == a + b + rest.value;
    }
  }

  lemma FramesConcat(crc: Checksum, a: seq<Entry>, b: seq<Entry>)
    ensures Frames(crc, a + b) == Frames(crc, a) + Frames(crc, b)
  {
    if a == [] {
      assert a + b == b;
    } else {
      assert (a + b)[1..] == a[1..] + b;
      FramesConcat(crc, a[1..], b);
    }
  }

  // ----- what replay accepts

  /** A framed record, byte by byte: checksum, length, and a payload that carries the record's fields. */
  ghost predicate RecordBytes(crc: Checksum, b: Bytes, r: Entry) {
    && 29 <= |b| <= 8 + 64 * 1024 * 1024
    && Get32(b[0..4]) == crc(b[8..]) && Get32(b[4..8]) == |b| - 8
    && (Get64(b[8..16]) - r.key.timestamp) % TWO_64 == 0
    && (r.cell.deleted <==> b[16] != 0)
    && Get64(b[21..29]) == r.key.series
    && 29 + Get32(b[17..21]) <= |b| && r.cell.value == b[29..29 + Get32(b[17..21])]
  }

  /** What is left of a record whose last bytes are missing. */
  predicate CutShort(b: Bytes) {
    || 0 < |b| < 8
    || (8 <= |b| < 8 + Get32(b[4..8]) && Get32(b[4..8]) <= 64 * 1024 * 1024)
  }

  /** Records one behind the other, and behind them nothing, or what a torn append has left. */
  ghost predicate ReadsAs(crc: Checksum, data: Bytes, tolerate: bool, rs: seq<Entry>)
    decreases |rs|
  {
    if rs == [] then data == [] || (tolerate && CutShort(data))
    else exists n {:trigger data[..n]} :: 0 <= n <= |data|
           && RecordBytes(crc, data[..n], rs[0]) && ReadsAs(crc, data[n..], tolerate, rs[1..])
  }

  /** Its length field says where a framed record ends. */
  lemma RecordLength(crc: Checksum, data: Bytes, n: nat, r: Entry)
    requires n <= |data| && RecordBytes(crc, data[..n], r)
    ensures 29 <= n && n == 8 + Get32(data[4..8])
  {
    assert data[..n][4..8] == data[4..8];
  }

  lemma PayloadSlices(b: Bytes, n: nat)
    requires |b| >= 29 + n
    ensures var p := b[8..];
            && p[0..8] == b[8..16] && p[8] == b[16] && p[9..13] == b[17..21] && p[13..21] == b[21..29]
            && p[21..21 + n] == b[29..29 + n]
  {}

  lemma SameTimestamp(u: uint64, t: int64)
    ensures (u - t) % TWO_64 == 0 <==> Signed(u) == t
  {}

  /** A turn reads the framed record in front, and only a framed record. */
  lemma TurnReads(crc: Checksum, b: Bytes, r: Entry)
    requires 8 <= |b| && |b| == 8 + Get32(b[4..8])
    ensures RecordBytes(crc, b, r) <==> ReadRecord(crc, b, true) == Got(r, |b| - 8)
    ensures RecordBytes(crc, b, r) <==> ReadRecord(crc, b, false) == Got(r, |b| - 8)
  {
    assert b[HEADER_SIZE..HEADER_SIZE + Get32(b[4..8])] == b[8..];
    if |b| >= 29 {
      PayloadSlices(b, if 29 + Get32(b[17..21]) <= |b| then Get32(b[17..21]) else 0);
      SameTimestamp(Get64(b[8..16]), r.key.timestamp);
    }
  }

  /** A turn looks at no byte behind the record. */
  lemma TurnInFront(crc: Checksum, data: Bytes, tolerate: bool, n: nat)
    requires 8 <= n <= |data| && n == 8 + Get32(data[4..8])
    ensures ReadRecord(crc, data, tolerate) == ReadRecord(crc, data[..n], tolerate)
  {
    var b := data[..n];
    assert b[4..8] == data[4..8] && b[0..4] == data[0..4] && b[8..n] == data[8..n];
  }

  lemma TurnStops(crc: Checksum, data: Bytes, tolerate: bool)
    ensures ReadRecord(crc, data, tolerate).Stop? <==> data == [] || (tolerate && CutShort(data))
  {}

  /**
   * Replay yields exactly the records whose bytes are there: it refuses a stored checksum that is not
   * the payload's, an excessive length, a payload that is too short, and missing bytes unless they may.
   */
  lemma ReplayAcceptsIff(crc: Checksum, data: Bytes, tolerate: bool, rs: seq<Entry>)
    ensures Replay(crc, data, tolerate) == Ok(rs) <==> ReadsAs(crc, data, tolerate, rs)
  {
    if ReadsAs(crc, data, tolerate, rs) {
      BytesAreRead(crc, data, tolerate, rs);
    }
    if Replay(crc, data, tolerate) == Ok(rs) {
      ReadIsThere(crc, data, tolerate, rs);
    }
  }

  /** The bytes of the first record, and what is behind them. */
  lemma FirstBytes(crc: Checksum, data: Bytes, tolerate: bool, rs: seq<Entry>) returns (n: nat)
    requires ReadsAs(crc, data, tolerate, rs) && rs != []
    ensures 8 <= n <= |data| && n == 8 + Get32(data[4..8])
    ensures RecordBytes(crc, data[..n], rs[0]) && ReadsAs(crc, data[n..], tolerate, rs[1..])
  {
    n :| 0 <= n <= |data| && RecordBytes(crc, data[..n], rs[0]) && ReadsAs(crc, data[n..], tolerate, rs[1..]);
    RecordLength(crc, data, n, rs[0]);
    hide ReadsAs;
    hide RecordBytes;
  }

  lemma {:induction false} BytesAreRead(crc: Checksum, data: Bytes, tolerate: bool, rs: seq<Entry>)
    requires ReadsAs(crc, data, tolerate, rs)
    ensures Replay(crc, data, tolerate) == Ok(rs)
    decreases |rs|
  {
    hide ReadRecord;
    hide RecordBytes;
    hide CutShort;
    if rs == [] {
      TurnStops(crc, data, tolerate);
    } else {
      var n := FirstBytes(crc, data, tolerate, rs);
      FirstRead(crc, data, tolerate, n, rs[0]);
      hide ReadsAs;
      BytesAreRead(crc, data[n..], tolerate, rs[1..]);
      assert rs == [rs[0]] + rs[1..];
    }
  }

  lemma {:induction false} ReadIsThere(crc: Checksum, data: Bytes, tolerate: bool, rs: seq<Entry>)
    requires Replay(crc, data, tolerate) == Ok(rs)
    ensures ReadsAs(crc, data, tolerate, rs)
    decreases |data|
  {
    hide ReadRecord;
    hide RecordBytes;
    hide CutShort;
    TurnStops(crc, data, tolerate);
    var t := ReadRecord(crc, data, tolerate);
    if t.Got? {
      var n := HEADER_SIZE + t.size;
      var rest := Replay(crc, data[n..], tolerate);
      assert rs == [t.record] + rest.value && rs[1..] == rest.value;
      SizeRead(crc, data, tolerate);
      FirstRead(crc, data, tolerate, n, rs[0]);
      ReadIsThere(crc, data[n..], tolerate, rs[1..]);
      assert RecordBytes(crc, data[..n], rs[0]);
    }
  }

  lemma SizeRead(crc: Checksum, data: Bytes, tolerate: bool)
    requires ReadRecord(crc, data, tolerate).Got?
    ensures 8 <= |data| && ReadRecord(crc, data, tolerate).size == Get32(data[4..8])
  {}

  lemma FirstRead(crc: Checksum, data: Bytes, tolerate: bool, n: nat, r: Entry)
    requires 8 <= n <= |data| && n == 8 + Get32(data[4..8])
    ensures RecordBytes(crc, data[..n], r) <==> ReadRecord(crc, data, tolerate) == Got(r, n - 8)
  {
    hide ReadRecord;
    hide RecordBytes;
    assert data[..n][4..8] == data[4..8];
    TurnInFront(crc, data, tolerate, n);
    TurnReads(crc, data[..n], r);
  }

  /** A whole record whose stored checksum is not that of its payload. */
  ghost predicate WrongChecksum(crc: Checksum, data: Bytes) {
    && 8 <= |data| && 8 + Get32(data[4..8]) <= |data| && Get32(data[4..8]) <= 64 * 1024 * 1024
    && crc(data[8..8 + Get32(data[4..8])]) != Get32(data[0..4])
  }

  /** However many good records come before it, a record with a wrong checksum fails the replay. */
  lemma ChecksumRefused(crc: Checksum, rs: seq<Entry>, data: Bytes, tolerate: bool)
    requires AllRecordsFit(rs) && WrongChecksum(crc, data)
    ensures Replay(crc, Frames(crc, rs) + data, tolerate).Err?
  {
    ReplayFrames(crc, rs, data, tolerate);
    hide Deserialize;
    hide Frames;
  }

  /** Somewhere behind good records there is one with a wrong checksum. */
  ghost predicate Corrupt(crc: Checksum, data: Bytes) {
    exists rs, rest :: AllRecordsFit(rs) && WrongChecksum(crc, rest) && data == Frames(crc, rs) + rest
  }

  /** The result is the records that the bytes read as, or an error if they do not read as any records. */
  ghost predicate IsReplay(res: Result<seq<Entry>>, crc: Checksum, data: Bytes, tolerate: bool) {
    forall rs :: res == Ok(rs) <==> ReadsAs(crc, data, tolerate, rs)
  }

  lemma ReplayIsExact(crc: Checksum, data: Bytes, tolerate: bool)
    ensures IsReplay(Replay(crc, data, tolerate), crc, data, tolerate)
    ensures Corrupt(crc, data) ==> Replay(crc, data, tolerate).Err?
  {
    hide Replay;
    hide ReadsAs;
    hide WrongChecksum;
    hide AllRecordsFit;
    forall rs ensures Replay(crc, data, tolerate) == Ok(rs) <==> ReadsAs(crc, data, tolerate, rs) {
      ReplayAcceptsIff(crc, data, tolerate, rs);
    }
    if rs, rest :| AllRecordsFit(rs) && WrongChecksum(crc, rest) && data == Frames(crc, rs) + rest {
      ChecksumRefused(crc, rs, rest, tolerate);
    }
  }

  method ReplaySegment(crc: Checksum, data: Bytes, tolerate: bool) returns (res: Result<seq<Entry>>)
    ensures res == Replay(crc, data, tolerate)
    ensures IsReplay(res, crc, data, tolerate)
    ensures Corrupt(crc, data) ==> res.Err?
  {
    hide ReadRecord;
    hide IsReplay;
    hide Corrupt;
    ReplayIsExact(crc, data, tolerate);
    var records, left := [], data;
    AfterNothing(Replay(crc, data, tolerate));
    while true
      invariant Replay(crc, data, tolerate) == After(records, Replay(crc, left, tolerate))
      decreases |left|
    {
      match ReadRecord(crc, left, tolerate) {
        case Stop =>
          assert records + [] == records;
          break;
        case Fail(e) =>
          return Err(e);
        case Got(record, size) =>
          AfterAppend(records, record, Replay(crc, left[HEADER_SIZE + size..], tolerate));
          records, left := records + [record], left[HEADER_SIZE + size..];
      }
    }
    res := Ok(records);
  }

  /** The bytes of a framed record. */
  lemma FrameBytes(crc: Checksum, r: Entry)
    ensures var f := Frame(crc, r);
            && |f| == 29 + |r.cell.value|
            && f[0..4] == Put32(crc(f[8..])) && f[4..8] == Put32(Low32(21 + |r.cell.value|))
            && f[8..16] == Put64(Unsigned(r.key.timestamp)) && f[16] == (if r.cell.deleted then 1 else 0)
            && f[17..21] == Put32(Low32(|r.cell.value|)) && f[21..29] == Put64(r.key.series) && f[29..] == r.cell.value
  {
    var f := Frame(crc, r);
    Cat3(Put32(crc(Payload(r))), Put32(Low32(PayloadSize(r))), Payload(r));
    PayloadParts(r);
    assert f[8..] == Payload(r);
    PayloadSlices(f, |r.cell.value|);
    hide Put32;
    hide Put64;
    hide Payload;
  }

  lemma OversizedFails(crc: Checksum, r: Entry, rest: Bytes, tolerate: bool)
    requires MAX_RECORD_SIZE < PayloadSize(r) < 0x1_0000_0000
    ensures Replay(crc, Frame(crc, r) + rest, tolerate).Err?
  {
    var f := Frame(crc, r);
    assert (f + rest)[4..8] == f[4..8] == Put32(PayloadSize(r));
  }

  /**
   * AppendRecord does not limit a record's size, replay does: a segment can be read back exactly
   * when every payload is within the limit.
   */
  lemma {:induction false} ReplaySucceedsIff(crc: Checksum, rs: seq<Entry>, tolerate: bool)
    requires forall r :: r in rs ==> PayloadSize(r) < 0x1_0000_0000
    ensures Replay(crc, Frames(crc, rs), tolerate).Ok?
            <==> forall r :: r in rs ==> 21 + |r.cell.value| <= 64 * 1024 * 1024
  {
    if rs != [] {
      assert rs == [rs[0]] + rs[1..] && rs[0] in rs;
      if Fits(rs[0]) {
        ReplayFrame(crc, rs[0], Frames(crc, rs[1..]), tolerate);
        ReplaySucceedsIff(crc, rs[1..], tolerate);
      } else {
        OversizedFails(crc, rs[0], Frames(crc, rs[1..]), tolerate);
      }
    }
  }

  /**
   * A torn record is tolerated but not cut off, and the segment is reopened for appending: records
   * acknowledged afterwards are silently lost while they fit into the gap of the torn payload.
   */
  lemma LostAfterTornTail(crc: Checksum, rs: seq<Entry>, torn: Entry, n: nat, later: seq<Entry>)
    requires (forall r :: r in rs ==> Fits(r)) && Fits(torn)
    requires HEADER_SIZE <= n && n + |Frames(crc, later)| < |Frame(crc, torn)|
    ensures Replay(crc, Frames(crc, rs) + (Frame(crc, torn)[..n] + Frames(crc, later)), true) == Ok(rs)
  {
    var f := Frame(crc, torn);
    var data := f[..n] + Frames(crc, later);
    FrameParts(crc, torn, f);
    assert data[4..8] == f[4..8];
    ReplayFrames(crc, rs, data, true);
    assert rs + [] == rs;
  }

  // ----- appending behind a torn record

  lemma PutZero(n: nat, i: nat)
    requires i < n
    ensures Put(0, n)[i] == 0
  {
    if i > 0 {
      PutZero(n - 1, i - 1);
    }
  }

  lemma LowByte(s: Bytes)
    requires s != []
    ensures Get(s) % 0x100 == s[0]
  {
    var rest := Get(s[1..]);
    assert Get(s) == s[0] + 0x100 * rest;
  }

  /** Byte 21 of a framed record is the lowest byte of its series. */
  lemma SeriesByte(crc: Checksum, data: Bytes, tolerate: bool)
    requires ReadRecord(crc, data, tolerate).Got?
    ensures |data| > 21 && ReadRecord(crc, data, tolerate).record.key.series % 0x100 == data[21]
  {
    var size := Get32(data[4..8]);
    SubSlice(data, HEADER_SIZE, HEADER_SIZE + size, 13, 21);
    LowByte(data[21..29]);
  }

  /** The record that a gap of less than a header hides. */
  const SMALL: Entry := Entry(Key(1, 0), Cell(false, []))

  lemma SmallZeroes(i: nat)
    requires i < 13
    ensures Payload(SMALL)[i] == 0
  {
    var p := Payload(SMALL);
    ZeroBytes();
    PayloadParts(SMALL);
    hide Payload;
    hide Put64;
    hide Put32;
    if i < 8 {
      assert p[0..8][i] == p[i];
    } else if i > 8 {
      assert p[9..13][i - 9] == p[i];
    }
  }

  lemma SmallIsHidden(crc: Checksum, torn: Bytes)
    requires 0 < |torn| < HEADER_SIZE
    ensures var t := ReadRecord(crc, torn + Frame(crc, SMALL), true); t.Got? ==> t.record != SMALL
  {
    var f := Frame(crc, SMALL);
    var data := torn + f;
    var p := Payload(SMALL);
    var i := 13 - |torn|;
    SmallZeroes(i);
    hide Put64;
    hide Put32;
    hide Payload;
    assert f[HEADER_SIZE..] == p;
    assert data[|torn|..] == f;
    assert data[21] == data[|torn|..][HEADER_SIZE + i] == f[HEADER_SIZE..][i];
    if ReadRecord(crc, data, true).Got? {
      SeriesByte(crc, data, true);
    }
  }

  lemma ZeroBytes()
    ensures forall i :: 0 <= i < 8 ==> Put64(0)[i] == 0
    ensures forall i :: 0 <= i < 4 ==> Put32(0)[i] == 0
  {
    forall i | 0 <= i < 8 ensures Put64(0)[i] == 0 {
      PutZero(8, i);
    }
    forall i | 0 <= i < 4 ensures Put32(0)[i] == 0 {
      PutZero(4, i);
    }
  }

  lemma SubSlice(s: Bytes, a: nat, b: nat, i: nat, j: nat)
    requires a <= b <= |s| && i <= j <= b - a
    ensures s[a..b][i..j] == s[a + i..a + j]
  {
    var l, r := s[a..b][i..j], s[a + i..a + j];
    assert |l| == |r| && forall x :: 0 <= x < |l| ==> l[x] == r[x];
  }

  lemma TornHeader(crc: Checksum, torn: Entry, n: nat, rest: Bytes)
    requires Fits(torn) && HEADER_SIZE <= n < |Frame(crc, torn)|
    ensures var data, p := Frame(crc, torn)[..n] + rest, Payload(torn);
            && Get32(data[4..8]) == PayloadSize(torn)
            && (PAYLOAD_HEADER + HEADER_SIZE <= n ==> data[8..16] == p[0..8] && data[21..29] == p[13..21])
  {
    var f := Frame(crc, torn);
    FrameParts(crc, torn, f);
    hide Frame;
    hide Payload;
    var data := f[..n] + rest;
    assert data[4..8] == f[4..8];
    if PAYLOAD_HEADER + HEADER_SIZE <= n {
      assert data[8..16] == f[8..16] && data[21..29] == f[21..29];
      SubSlice(f, HEADER_SIZE, HEADER_SIZE + PayloadSize(torn), 0, 8);
      SubSlice(f, HEADER_SIZE, HEADER_SIZE + PayloadSize(torn), 13, 21);
    }
  }

  /** The torn header decides how much is read: never enough for a longer record. */
  lemma LongerIsHidden(crc: Checksum, torn: Entry, n: nat, w: Entry)
    requires Fits(torn) && HEADER_SIZE <= n < |Frame(crc, torn)| && PayloadSize(w) > PayloadSize(torn)
    ensures var t := ReadRecord(crc, Frame(crc, torn)[..n] + Frame(crc, w), true); t.Got? ==> t.record != w
  {
    TornHeader(crc, torn, n, Frame(crc, w));
    hide Frame;
  }

  /** Where the torn payload's header is whole, its key is what is read. */
  lemma OtherKeyIsHidden(crc: Checksum, torn: Entry, n: nat, w: Entry)
    requires Fits(torn) && HEADER_SIZE <= n < |Frame(crc, torn)| && w.key != torn.key
    requires n >= PAYLOAD_HEADER + HEADER_SIZE || n + |Frame(crc, w)| < |Frame(crc, torn)|
    ensures var t := ReadRecord(crc, Frame(crc, torn)[..n] + Frame(crc, w), true); t.Got? ==> t.record != w
  {
    TornHeader(crc, torn, n, Frame(crc, w));
    hide Frame;
    hide Payload;
    hide Put64;
    hide Put32;
    var size := PayloadSize(torn);
    var data := Frame(crc, torn)[..n] + Frame(crc, w);
    if n >= PAYLOAD_HEADER + HEADER_SIZE && |data| >= HEADER_SIZE + size {
      PayloadParts(torn);
      SignedUnsigned(torn.key.timestamp);
      SubSlice(data, HEADER_SIZE, HEADER_SIZE + size, 0, 8);
      SubSlice(data, HEADER_SIZE, HEADER_SIZE + size, 13, 21);
    }
  }

  /** Some record that fits, appended behind the torn bytes, is not read back. */
  lemma HiddenRecord(crc: Checksum, torn: Entry, n: nat) returns (w: Entry)
    requires Fits(torn) && 0 < n < |Frame(crc, torn)|
    ensures Fits(w)
    ensures var t := ReadRecord(crc, Frame(crc, torn)[..n] + Frame(crc, w), true); t.Got? ==> t.record != w
  {
    hide ReadRecord;
    if n < HEADER_SIZE {
      w := SMALL;
      SmallIsHidden(crc, Frame(crc, torn)[..n]);
    } else if PayloadSize(torn) < MAX_RECORD_SIZE {
      w := Entry(torn.key, Cell(false, torn.cell.value + [0]));
      LongerIsHidden(crc, torn, n, w);
    } else {
      w := Entry(Key(if torn.key.series == 0 then 1 else 0, 0), Cell(false, []));
      OtherKeyIsHidden(crc, torn, n, w);
    }
  }

  lemma ReplayOne(crc: Checksum, data: Bytes, w: Entry)
    requires Replay(crc, data, true) == Ok([w])
    ensures var t := ReadRecord(crc, data, true); t.Got? && t.record == w
  {
    hide ReadRecord;
    var t := ReadRecord(crc, data, true);
    if t.Got? {
      var rest := Replay(crc, data[HEADER_SIZE + t.size..], true);
      assert ([t.record] + rest.value)[0] == t.record;
    }
  }

  ghost predicate AllRecordsFit(rs: seq<Entry>) {
    forall r :: r in rs ==> Fits(r)
  }

  /** Whatever fitting records are appended behind the bytes, replay returns them behind `rs`. */
  ghost predicate SafeToAppend(crc: Checksum, bytes: Bytes, rs: seq<Entry>) {
    forall later :: AllRecordsFit(later) ==> Replay(crc, bytes + Frames(crc, later), true) == Ok(rs + later)
  }

  lemma WholeIsSafe(crc: Checksum, rs: seq<Entry>)
    requires AllRecordsFit(rs)
    ensures SafeToAppend(crc, Frames(crc, rs), rs)
  {
    forall later | AllRecordsFit(later)
      ensures Replay(crc, Frames(crc, rs) + Frames(crc, later), true) == Ok(rs + later)
    {
      ReplayFrames(crc, rs, Frames(crc, later), true);
      ReplayFrames(crc, later, [], true);
      assert Frames(crc, later) + [] == Frames(crc, later);
      assert later + [] == later;
    }
  }

  /**
   * Replay never cuts a torn record off, and the segment is reopened for appending: this is safe if
   * and only if the crash has left nothing of the record, or all of it.
   */
  lemma AppendAfterTornTailIff(crc: Checksum, rs: seq<Entry>, torn: Entry, n: nat)
    requires AllRecordsFit(rs) && Fits(torn) && n <= |Frame(crc, torn)|
    ensures var whole := n == |Frame(crc, torn)|;
            SafeToAppend(crc, Frames(crc, rs) + Frame(crc, torn)[..n], if whole then rs + [torn] else rs)
            <==> n == 0 || whole
  {
    hide Frame;
    hide Replay;
    hide Fits;
    var f := Frame(crc, torn);
    if n == 0 {
      WholeIsSafe(crc, rs);
      assert Frames(crc, rs) + f[..0] == Frames(crc, rs);
    } else if n == |f| {
      WholeIsSafe(crc, rs + [torn]);
      FramesConcat(crc, rs, [torn]);
      assert Frames(crc, [torn]) == f + [] == f[..n];
    } else {
      UnsafeBehindTorn(crc, rs, torn, n);
    }
  }

  lemma SameBehind(front: seq<Entry>, a: seq<Entry>, b: seq<Entry>)
    ensures front + a == front + b <==> a == b
  {
    assert (front + a)[|front|..] == a && (front + b)[|front|..] == b;
  }

  lemma UnsafeBehindTorn(crc: Checksum, rs: seq<Entry>, torn: Entry, n: nat)
    requires AllRecordsFit(rs) && Fits(torn) && 0 < n < |Frame(crc, torn)|
    ensures !SafeToAppend(crc, Frames(crc, rs) + Frame(crc, torn)[..n], rs)
  {
    hide Frame;
    hide Replay;
    hide ReadRecord;
    var part := Frame(crc, torn)[..n];
    var w := HiddenRecord(crc, torn, n);
    assert Frames(crc, [w]) == Frame(crc, w) + Frames(crc, [w][1..]) == Frame(crc, w);
    var rest := Replay(crc, part + Frame(crc, w), true);
    assert rest != Ok([w]) by {
      if rest == Ok([w]) {
        ReplayOne(crc, part + Frame(crc, w), w);
      }
    }
    ReplayFrames(crc, rs, part + Frame(crc, w), true);
    assert Frames(crc, rs) + part + Frame(crc, w) == Frames(crc, rs) + (part + Frame(crc, w));
    if rest.Ok? {
      SameBehind(rs, rest.value, [w]);
    }
    assert AllRecordsFit([w]) && Replay(crc, Frames(crc, rs) + part + Frames(crc, [w]), true) != Ok(rs + [w]);
  }
}
