/** The abstract database: the map obtained by folding the history of writes. */
module History {
  import opened Base

  ghost function Fold(h: seq<Entry>): Contents {
    if h == [] then map[] else
    var op := h[|h| - 1];
    Fold(h[..|h| - 1])[op.key := op.cell]
  }

  ghost function Find(m: Contents, k: Key): Option<Cell> {
    if k in m then Some(m[k]) else None
  }

  /** A tombstone and an absent key look the same to a caller that asks for a value. */
  ghost function Live(c: Option<Cell>): Option<Bytes> {
    if c.Some? && !c.value.deleted then Some(c.value.value) else None
  }

  lemma {:induction false} FoldConcat(a: seq<Entry>, b: seq<Entry>)
    ensures Fold(a + b) == Fold(a) + Fold(b)
  {
    if b == [] {
      assert a + b == a;
    } else {
      var n := |b| - 1;
      assert (a + b)[..|a + b| - 1] == a + b[..n];
      FoldConcat(a, b[..n]);
    }
  }

  /** Writing the middle part a second time changes nothing. */
  lemma OverlapAbsorbed(a: Contents, b: Contents, c: Contents)
    ensures (a + b) + (b + c) == a + (b + c)
  {}

  /** Replaying a suffix that overlaps an already stored prefix rebuilds the whole history. */
  lemma FoldOverlap(h: seq<Entry>, s: nat, p: nat)
    requires s <= p <= |h|
    ensures Fold(h[..p]) + Fold(h[s..]) == Fold(h)
  {
    var a, b, c := h[..s], h[s..p], h[p..];
    assert h[..p] == a + b;
    assert h[s..] == b + c;
    assert h == a + (b + c);
    FoldConcat(a, b);
    FoldConcat(b, c);
    FoldConcat(a, b + c);
    OverlapAbsorbed(Fold(a), Fold(b), Fold(c));
  }
}
