/** Tables indexed by generation: for each key, the highest generation that holds it wins. */
module Generations {
  import opened Base
  import opened History

  type Tables = map<nat, Contents>

  ghost predicate IsTop(ts: Tables, k: Key, g: nat) {
    g in ts && k in ts[g] && forall g' :: g' in ts && k in ts[g'] ==> g' <= g
  }

  ghost function Newest(ts: Tables, k: Key): Option<Cell> {
    if exists g :: IsTop(ts, k, g) then
      var g :| IsTop(ts, k, g);
      Some(ts[g][k])
    else None
  }

  lemma TopCell(ts: Tables, k: Key, g: nat)
    requires IsTop(ts, k, g)
    ensures Newest(ts, k) == Some(ts[g][k])
  {}

  lemma {:induction false} TopExists(ts: Tables, k: Key, g: nat) returns (top: nat)
    requires g in ts && k in ts[g]
    ensures IsTop(ts, k, top)
    decreases ts.Keys
  {
    if g' :| g' in ts && k in ts[g'] && g' > g {
      var rest := map x | x in ts && x != g :: ts[x];
      assert rest.Keys == ts.Keys - {g};
      top := TopExists(rest, k, g');
      assert forall x :: x in ts && k in ts[x] && x != g ==> x in rest && k in rest[x];
      assert g' in rest && k in rest[g'];
    } else {
      top := g;
    }
  }

  /** Newest is None exactly for the keys no table holds. */
  lemma NewestNone(ts: Tables, k: Key)
    ensures Newest(ts, k) == None <==> forall g :: g in ts ==> k !in ts[g]
  {
    if g :| g in ts && k in ts[g] {
      var top := TopExists(ts, k, g);
      TopCell(ts, k, top);
    }
  }

  /** Both views show the same value, or no value, under every key. */
  ghost predicate SameLive(a: Tables, b: Tables) {
    forall k :: Live(Newest(a, k)) == Live(Newest(b, k))
  }

  ghost predicate ShowsLive(ts: Tables, m: Contents) {
    forall k :: Live(Newest(ts, k)) == Live(Find(m, k))
  }

  /** The table a compaction writes: per key the newest cell, less the tombstones when it is major. */
  ghost function Merge(ts: Tables, major: bool): Contents {
    map g, k | g in ts && k in ts[g] && Newest(ts, k).Some? && !(major && Newest(ts, k).value.deleted)
      :: k := Newest(ts, k).value
  }

  ghost function Restrict(ts: Tables, gens: set<nat>): Tables {
    map g | g in ts && g in gens :: ts[g]
  }
}
