/**
 * A subscriber's copy of the registry, rebuilt only from published events.
 * It is the reference against which the tracker's publication policy is
 * judged: whatever the tracker stores, a subscriber applying the events in
 * order must hold the same.
 */
module Mirror {
  import opened Records

  /** Writes each record of an update list under its own id, in list order. */
  function ApplyBatch(view: Registry, batch: seq<Robot>): Registry
    decreases |batch|
  {
    if |batch| == 0 then view
    else ApplyBatch(view[batch[0].id := batch[0]], batch[1..])
  }

  /** The id-keyed object a snapshot carries, as a map (a later member wins). */
  function EntriesToMap(es: seq<Entry>): Registry
    decreases |es|
  {
    if |es| == 0 then map[]
    else EntriesToMap(es[..|es| - 1])[es[|es| - 1].0 := es[|es| - 1].1]
  }

  /** A subscriber's copy after receiving one event. A snapshot replaces the copy. */
  function Apply(view: Registry, e: Event): Registry {
    match e
    case Created(r) => view[r.id := r]
    case Updated(batch) => ApplyBatch(view, batch)
    case Snapshot(es) => EntriesToMap(es)
  }

  /** A subscriber's copy after receiving `events` in order. */
  function ApplyAll(view: Registry, events: seq<Event>): Registry
    decreases |events|
  {
    if |events| == 0 then view
    else Apply(ApplyAll(view, events[..|events| - 1]), events[|events| - 1])
  }

  /** Ids of a snapshot whose members are in strictly increasing id order. */
  predicate IdsIncreasing(es: seq<Entry>) {
    forall i, j :: 0 <= i < j < |es| ==> es[i].0 < es[j].0
  }

  /**
   * With distinct ids, the map a snapshot describes holds every member under
   * its id and nothing else.
   */
  lemma {:induction false} EntriesToMapLookup(es: seq<Entry>)
    requires IdsIncreasing(es)
    ensures forall i :: 0 <= i < |es| ==> es[i].0 in EntriesToMap(es) && EntriesToMap(es)[es[i].0] == es[i].1
    ensures forall k :: k in EntriesToMap(es) ==> exists i :: 0 <= i < |es| && es[i].0 == k
  {
    if |es| > 0 {
      var init := es[..|es| - 1];
      var m := EntriesToMap(es);
      assert IdsIncreasing(init);
      EntriesToMapLookup(init);
      forall i | 0 <= i < |es|
        ensures es[i].0 in m && m[es[i].0] == es[i].1
      {
        if i < |es| - 1 {
          assert init[i] == es[i];
          assert es[i].0 < es[|es| - 1].0;
        }
      }
      forall k | k in m
        ensures exists i :: 0 <= i < |es| && es[i].0 == k
      {
        if k != es[|es| - 1].0 {
          assert k in EntriesToMap(init);
          var i :| 0 <= i < |init| && init[i].0 == k;
          assert es[i].0 == k;
        }
      }
    }
  }
}
