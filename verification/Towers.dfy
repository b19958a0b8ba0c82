/** The shape of a skiplist as a sequence of tower heights, with the list head at index 0. */
module Towers {
  /** The first index behind `i` whose tower reaches level `l`, or the end. */
  ghost function NextTall(h: seq<nat>, i: nat, l: nat): (j: nat)
    requires i < |h|
    ensures i < j <= |h| && (j < |h| ==> h[j] > l)
    ensures forall m :: i < m < j ==> h[m] <= l
    decreases |h| - i
  {
    if i + 1 == |h| || h[i + 1] > l then i + 1 else NextTall(h, i + 1, l)
  }

  lemma NextTallIs(h: seq<nat>, i: nat, l: nat, j: nat)
    requires i < |h| && i < j <= |h| && (j < |h| ==> h[j] > l)
    requires forall m :: i < m < j ==> h[m] <= l
    ensures NextTall(h, i, l) == j
  {
    var n := NextTall(h, i, l);
    assert forall m :: i < m < n ==> h[m] <= l;
  }

  ghost function PutIn(h: seq<nat>, q: nat, r: nat): seq<nat>
    requires q <= |h|
  {
    h[..q] + [r] + h[q..]
  }

  /** Seen from before the new tower: it is next at the levels it reaches. */
  lemma NextFromBefore(h: seq<nat>, q: nat, r: nat, i: nat, l: nat)
    requires i < q <= |h|
    ensures var j := NextTall(h, i, l);
            NextTall(PutIn(h, q, r), i, l) == if j < q then j else if r > l then q else j + 1
  {
    var h', j := PutIn(h, q, r), NextTall(h, i, l);
    if j < q {
      assert forall m :: i < m <= j ==> h'[m] == h[m];
      NextTallIs(h', i, l, j);
    } else if r > l {
      assert forall m :: i < m < q ==> h'[m] == h[m];
      NextTallIs(h', i, l, q);
    } else {
      assert j < |h| ==> h'[j + 1] == h[j];
      assert forall m :: i < m < j + 1 ==> h'[m] == if m == q then r else h[if m < q then m else m - 1];
      NextTallIs(h', i, l, j + 1);
    }
  }

  /** Seen from behind the new tower: nothing changes but the numbering. */
  lemma NextFromBehind(h: seq<nat>, q: nat, r: nat, i: nat, l: nat)
    requires q <= i < |h|
    ensures NextTall(PutIn(h, q, r), i + 1, l) == NextTall(h, i, l) + 1
  {
    var h', j := PutIn(h, q, r), NextTall(h, i, l);
    assert forall m :: q <= m < |h| ==> h'[m + 1] == h[m];
    assert forall m :: i + 1 < m < j + 1 ==> h'[m] == h[m - 1];
    NextTallIs(h', i + 1, l, j + 1);
  }

  /** The new tower takes over the successors of its predecessors. */
  lemma NextFromNew(h: seq<nat>, q: nat, r: nat, u: nat, l: nat)
    requires u < q <= |h| && NextTall(h, u, l) >= q
    ensures NextTall(PutIn(h, q, r), q, l) == NextTall(h, u, l) + 1
  {
    var h', j := PutIn(h, q, r), NextTall(h, u, l);
    assert forall m :: q <= m < |h| ==> h'[m + 1] == h[m];
    assert forall m :: q < m < j + 1 ==> h'[m] == h[m - 1];
    NextTallIs(h', q, l, j + 1);
  }

  /** At each level only one tower in front of `q` has its successor at or behind `q`. */
  lemma OnePredecessor(h: seq<nat>, q: nat, u: nat, i: nat, l: nat)
    requires u < q <= |h| && i < q && h[u] > l && h[i] > l
    requires NextTall(h, u, l) >= q && NextTall(h, i, l) >= q
    ensures i == u
  {}
}
