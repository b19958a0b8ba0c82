/** The write-ahead log as a sequence of segments, each a sequence of records. */
module SegmentLog {
  import opened Base

  ghost function Flat(log: seq<seq<Entry>>): seq<Entry> {
    if log == [] then [] else Flat(log[..|log| - 1]) + log[|log| - 1]
  }

  lemma {:induction false} FlatConcat(a: seq<seq<Entry>>, b: seq<seq<Entry>>)
    ensures Flat(a + b) == Flat(a) + Flat(b)
  {
    if b == [] {
      assert a + b == a;
    } else {
      var n := |b| - 1;
      assert (a + b)[..|a + b| - 1] == a + b[..n];
      FlatConcat(a, b[..n]);
    }
  }

  /** A record goes to the end of the last segment, which a rotation has just started or not. */
  ghost function Appended(log: seq<seq<Entry>>, rotate: bool, r: Entry): seq<seq<Entry>>
    requires log != []
  {
    var l := if rotate then log + [[]] else log;
    l[|l| - 1 := l[|l| - 1] + [r]]
  }

  /** Appending to the last segment appends to the whole log and leaves the sealed segments alone. */
  lemma FlatAppend(log: seq<seq<Entry>>, op: Entry)
    requires log != []
    ensures var n := |log| - 1; Flat(log[n := log[n] + [op]]) == Flat(log) + [op]
    ensures var n := |log| - 1; forall j :: 0 <= j <= n ==> log[n := log[n] + [op]][..j] == log[..j]
  {
    var n := |log| - 1;
    var log' := log[n := log[n] + [op]];
    assert log'[..n] == log[..n];
  }

  lemma FlatRotate(log: seq<seq<Entry>>)
    ensures Flat(log + [[]]) == Flat(log)
    ensures forall j :: 0 <= j <= |log| ==> (log + [[]])[..j] == log[..j]
  {
    assert (log + [[]])[..|log|] == log;
  }

  lemma FlatFirst(log: seq<seq<Entry>>, j: nat)
    requires 0 < j <= |log|
    ensures Flat(log[..j]) == log[0] + Flat(log[1..][..j - 1])
  {
    assert log[..j] == [log[0]] + log[1..][..j - 1];
    FlatConcat([log[0]], log[1..][..j - 1]);
    assert Flat([log[0]]) == Flat([]) + log[0];
  }

  lemma FlatDropLast(log: seq<seq<Entry>>)
    requires log != [] && log[|log| - 1] != []
    ensures var n := |log| - 1;
            Flat(log[n := log[n][..|log[n]| - 1]]) == Flat(log)[..|Flat(log)| - 1]
  {
    var n := |log| - 1;
    var log' := log[n := log[n][..|log[n]| - 1]];
    assert log'[..n] == log[..n];
  }
}
