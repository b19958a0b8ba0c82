/** Strictly sorted entry sequences as maps: lookup, insertion and update. */
module SortedEntries {
  import opened Base
  import opened History

  /** First match of a linear search. */
  function Search(es: seq<Entry>, k: Key): Option<Cell> {
    if es == [] then None
    else if es[0].key == k then Some(es[0].cell)
    else Search(es[1..], k)
  }

  ghost predicate HasKey(es: seq<Entry>, k: Key) {
    exists i :: 0 <= i < |es| && es[i].key == k
  }

  lemma {:induction false} FoldHas(es: seq<Entry>, k: Key)
    ensures k in Fold(es) <==> HasKey(es, k)
  {
    if es != [] {
      var n := |es| - 1;
      FoldHas(es[..n], k);
      if i :| 0 <= i < n && es[i].key == k {
        assert es[..n][i].key == k;
      }
      if HasKey(es[..n], k) {
        var i :| 0 <= i < n && es[..n][i].key == k;
        assert es[i].key == k;
      }
      assert es[n].key == k ==> HasKey(es, k);
    }
  }

  lemma {:induction false} FoldAt(es: seq<Entry>, i: nat)
    requires Sorted(es) && i < |es|
    ensures es[i].key in Fold(es) && Fold(es)[es[i].key] == es[i].cell
  {
    var n := |es| - 1;
    if i < n {
      FoldAt(es[..n], i);
      assert es[..n][i] == es[i] && Less(es[i].key, es[n].key);
    }
  }

  lemma {:induction false} SearchAt(es: seq<Entry>, i: nat)
    requires Sorted(es) && i < |es|
    ensures Search(es, es[i].key) == Some(es[i].cell)
  {
    if i > 0 {
      assert Less(es[0].key, es[i].key);
      SearchAt(es[1..], i - 1);
    }
  }

  /** In any order of the entries the first one of the key decides. */
  lemma {:induction false} SearchIsFirst(es: seq<Entry>, i: nat)
    requires i < |es| && forall j :: 0 <= j < i ==> es[j].key != es[i].key
    ensures Search(es, es[i].key) == Some(es[i].cell)
  {
    if i > 0 {
      assert es[0].key != es[i].key;
      assert forall j :: 0 <= j < i - 1 ==> es[1..][j] == es[j + 1];
      SearchIsFirst(es[1..], i - 1);
    }
  }

  lemma {:induction false} SearchMiss(es: seq<Entry>, k: Key)
    requires !HasKey(es, k)
    ensures Search(es, k) == None
  {
    if es != [] {
      assert es[0].key != k;
      forall i | 0 <= i < |es| - 1 ensures es[1..][i].key != k {
        assert es[1..][i] == es[i + 1];
      }
      SearchMiss(es[1..], k);
    }
  }

  /** A linear search of sorted entries is a lookup in the map they fold to. */
  lemma SearchIsFind(es: seq<Entry>, k: Key)
    requires Sorted(es)
    ensures Search(es, k) == Find(Fold(es), k)
  {
    FoldHas(es, k);
    if HasKey(es, k) {
      var i :| 0 <= i < |es| && es[i].key == k;
      FoldAt(es, i);
      SearchAt(es, i);
    } else {
      SearchMiss(es, k);
    }
  }

  lemma UpdateSorted(es: seq<Entry>, p: nat, e: Entry)
    requires Sorted(es) && p < |es| && es[p].key == e.key
    ensures Sorted(es[p := e]) && Fold(es[p := e]) == Fold(es)[e.key := e.cell]
  {
    var es' := es[p := e];
    assert Sorted(es');
    forall k ensures Find(Fold(es'), k) == Find(Fold(es)[e.key := e.cell], k) {
      FoldHas(es, k);
      FoldHas(es', k);
      if i :| 0 <= i < |es| && es[i].key == k {
        FoldAt(es, i);
        FoldAt(es', i);
        assert es'[i].key == k;
      }
    }
    SameFinds(Fold(es'), Fold(es)[e.key := e.cell]);
  }

  lemma SameFinds(a: Contents, b: Contents)
    requires forall k :: Find(a, k) == Find(b, k)
    ensures a == b
  {
    forall k ensures k in a <==> k in b {
      assert Find(a, k) == Find(b, k);
    }
    forall k | k in a ensures a[k] == b[k] {
      assert Find(a, k) == Find(b, k);
    }
  }

  lemma InsertStaysSorted(es: seq<Entry>, p: nat, e: Entry)
    requires Sorted(es) && p <= |es|
    requires p > 0 ==> Less(es[p - 1].key, e.key)
    requires p < |es| ==> Less(e.key, es[p].key)
    ensures Sorted(es[..p] + [e] + es[p..])
  {
    forall i | 0 <= i < |es| ensures if i < p then Less(es[i].key, e.key) else Less(e.key, es[i].key) {
      if i < p - 1 { assert Less(es[i].key, es[p - 1].key); }
      if i > p { assert Less(es[p].key, es[i].key); }
    }
  }

  /** Where the entries of `es` are once `e` has been put in at `p`. */
  lemma InsertShifts(es: seq<Entry>, p: nat, e: Entry, k: Key)
    requires p <= |es|
    ensures var es' := es[..p] + [e] + es[p..];
            && es'[p] == e
            && (forall i :: 0 <= i < |es| ==> es[i] == es'[if i < p then i else i + 1])
            && (HasKey(es', k) <==> k == e.key || HasKey(es, k))
  {
    var es' := es[..p] + [e] + es[p..];
    if HasKey(es', k) && k != e.key {
      var i :| 0 <= i < |es'| && es'[i].key == k;
      assert es'[i] == es[if i < p then i else i - 1];
    }
    if HasKey(es, k) {
      var i :| 0 <= i < |es| && es[i].key == k;
      assert es'[if i < p then i else i + 1].key == k;
    }
  }

  lemma InsertSorted(es: seq<Entry>, p: nat, e: Entry)
    requires Sorted(es) && p <= |es|
    requires p > 0 ==> Less(es[p - 1].key, e.key)
    requires p < |es| ==> Less(e.key, es[p].key)
    ensures Sorted(es[..p] + [e] + es[p..]) && Fold(es[..p] + [e] + es[p..]) == Fold(es)[e.key := e.cell]
  {
    InsertStaysSorted(es, p, e);
    var es' := es[..p] + [e] + es[p..];
    forall k ensures Find(Fold(es'), k) == Find(Fold(es)[e.key := e.cell], k) {
      hide Sorted;
      InsertShifts(es, p, e, k);
      FoldHas(es, k);
      FoldHas(es', k);
      if k == e.key {
        FoldAt(es', p);
      } else if i :| 0 <= i < |es| && es[i].key == k {
        FoldAt(es, i);
        FoldAt(es', if i < p then i else i + 1);
      }
    }
    SameFinds(Fold(es'), Fold(es)[e.key := e.cell]);
  }
}
