/**
 * The whole-registry snapshot published on a refresh request:
 * `json.dumps(robots, sort_keys=True)` (scripts/script5.py, line 110) writes
 * the registry as one object whose members appear in increasing id order.
 */
module Snapshots {
  import opened Records
  import Mirror

  /** Some element of a non-empty set. */
  lemma Pick<T>(s: set<T>) returns (x: T)
    requires s != {}
    ensures x in s
  {
    x :| x in s;
  }

  /** Some element of a set other than `x`, which is not its only element. */
  lemma PickOther<T>(s: set<T>, x: T) returns (y: T)
    requires s != {x}
    requires x in s
    ensures y in s && y != x
  {
    y :| y in s && y != x;
  }

  /** A non-empty finite set of ids has a least element. */
  lemma {:induction false} LeastIdExists(ids: set<int>)
    requires ids != {}
    ensures exists m :: m in ids && forall k :: k in ids ==> m <= k
    decreases |ids|
  {
    var x := Pick(ids);
    if ids == {x} {
      assert forall k :: k in ids ==> k == x;
    } else {
      var y := PickOther(ids, x);
      var rest := ids - {x};
      assert y in rest;
      LeastIdExists(rest);
      var m :| m in rest && forall k :: k in rest ==> m <= k;
      var least := if x < m then x else m;
      forall k | k in ids
        ensures least <= k
      {
        if k != x {
          assert k in rest;
        }
      }
      assert least in ids;
    }
  }

  function LeastId(ids: set<int>): (m: int)
    requires ids != {}
    ensures m in ids && forall k :: k in ids ==> m <= k
  {
    LeastIdExists(ids);
    var m :| m in ids && forall k :: k in ids ==> m <= k;
    m
  }

  predicate StrictlyIncreasing(s: seq<int>) {
    forall i, j :: 0 <= i < j < |s| ==> s[i] < s[j]
  }

  /** The ids of a set, each once, in increasing order. */
  function SortedIds(ids: set<int>): (s: seq<int>)
    ensures StrictlyIncreasing(s)
    ensures forall k :: k in s <==> k in ids
    ensures |s| == |ids|
    decreases |ids|
  {
    if ids == {} then []
    else
      var m := LeastId(ids);
      var rest := SortedIds(ids - {m});
      assert forall k :: k in rest ==> m < k;
      [m] + rest
  }

  /** Each listed id paired with its record. */
  function EntriesFor(ids: seq<int>, reg: Registry): (es: seq<Entry>)
    requires forall i :: 0 <= i < |ids| ==> ids[i] in reg
    ensures |es| == |ids|
    ensures forall i :: 0 <= i < |es| ==> es[i] == (ids[i], reg[ids[i]])
  {
    if |ids| == 0 then [] else [(ids[0], reg[ids[0]])] + EntriesFor(ids[1..], reg)
  }

  /**
   * Pairing the sorted ids of the registry with their records lists every
   * robot once, under its own id, in increasing id order.
   */
  lemma EntriesOfSortedIds(reg: Registry, ids: seq<int>, es: seq<Entry>)
    requires StrictlyIncreasing(ids)
    requires forall k :: k in ids <==> k in reg
    requires |ids| == |reg.Keys|
    requires forall i :: 0 <= i < |ids| ==> ids[i] in reg
    requires |es| == |ids|
    requires forall i :: 0 <= i < |es| ==> es[i] == (ids[i], reg[ids[i]])
    ensures Mirror.IdsIncreasing(es)
    ensures |es| == |reg|
    ensures forall i :: 0 <= i < |es| ==> es[i].0 in reg && es[i].1 == reg[es[i].0]
    ensures forall k :: k in reg ==> exists i :: 0 <= i < |es| && es[i].0 == k
  {
    assert |reg| == |reg.Keys|;
    forall k | k in reg
      ensures exists i :: 0 <= i < |es| && es[i].0 == k
    {
      var i :| 0 <= i < |ids| && ids[i] == k;
      assert es[i].0 == k;
    }
  }

  /** The members of the snapshot object: every registered robot under its id, ordered by id. */
  function SnapshotEntries(reg: Registry): (es: seq<Entry>)
    ensures Mirror.IdsIncreasing(es)
    ensures |es| == |reg|
    ensures forall i :: 0 <= i < |es| ==> es[i].0 in reg && es[i].1 == reg[es[i].0]
    ensures forall k :: k in reg ==> exists i :: 0 <= i < |es| && es[i].0 == k
  {
    var ids := SortedIds(reg.Keys);
    assert forall i :: 0 <= i < |ids| ==> ids[i] in ids;
    var es := EntriesFor(ids, reg);
    EntriesOfSortedIds(reg, ids, es);
    es
  }

  /** A subscriber that takes a snapshot holds exactly the registry it was made from. */
  lemma SnapshotRestoresRegistry(reg: Registry, view: Registry)
    ensures Mirror.Apply(view, Snapshot(SnapshotEntries(reg))) == reg
  {
    var es := SnapshotEntries(reg);
    SameMapFromEntries(reg, es);
  }

  lemma SameMapFromEntries(reg: Registry, es: seq<Entry>)
    requires Mirror.IdsIncreasing(es)
    requires forall i :: 0 <= i < |es| ==> es[i].0 in reg && es[i].1 == reg[es[i].0]
    requires forall k :: k in reg ==> exists i :: 0 <= i < |es| && es[i].0 == k
    ensures Mirror.EntriesToMap(es) == reg
  {
    var m := Mirror.EntriesToMap(es);
    Mirror.EntriesToMapLookup(es);
    forall k | k in reg
      ensures k in m && m[k] == reg[k]
    {
      var i :| 0 <= i < |es| && es[i].0 == k;
    }
    forall k | k in m
      ensures k in reg
    {
      var i :| 0 <= i < |es| && es[i].0 == k;
    }
  }
}
