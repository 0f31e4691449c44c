/**
 * The older consolidation (domain/redirectdefinition/
 * consolidateredirectdefinitions.go): the result keeps the new definitions
 * that still have a target, and the caller's map of old definitions loses
 * every entry the result does not have. Go maps are references, so the old
 * map is an object here whose entries the method changes in place.
 */
module LegacyConsolidate {
  import opened Store

  /** A Go map of definitions, shared between the caller and the callee. */
  class Definitions {
    var entries: map<Source, RedirectDefinition>

    constructor (entries: map<Source, RedirectDefinition>)
      ensures this.entries == entries
    {
      this.entries := entries;
    }
  }

  /** The new definitions that still have a target. */
  function Kept(newDefs: map<Source, RedirectDefinition>): (r: map<Source, RedirectDefinition>)
    ensures forall k :: k in r <==> k in newDefs && newDefs[k].target != ""
    ensures forall k | k in r :: r[k] == newDefs[k] && r[k].target != ""
  {
    map k | k in newDefs && newDefs[k].target != "" :: newDefs[k]
  }

  /** The old definitions whose key the result still has. */
  function Pruned(oldDefs: map<Source, RedirectDefinition>, kept: map<Source, RedirectDefinition>): (r: map<Source, RedirectDefinition>)
    ensures r.Keys == oldDefs.Keys * kept.Keys
    ensures forall k | k in r :: r[k] == oldDefs[k]
  {
    map k | k in oldDefs && k in kept :: oldDefs[k]
  }

  /** The first loop of ConsolidateRedirectDefinitions: copy the new definitions that have a target. */
  method CopyTargeted(newDefs: map<Source, RedirectDefinition>) returns (consolidated: map<Source, RedirectDefinition>)
    ensures consolidated == Kept(newDefs)
  {
    consolidated := map[];
    var remaining := newDefs.Keys;
    while remaining != {}
      invariant remaining <= newDefs.Keys
      invariant consolidated == map k | k in newDefs.Keys - remaining && newDefs[k].target != "" :: newDefs[k]
      decreases remaining
    {
      var id :| id in remaining;
      if newDefs[id].target != "" {
        consolidated := consolidated[id := newDefs[id]];
      }
      remaining := remaining - {id};
    }
  }

  /** The second loop: delete from the caller's map every key the result lacks. */
  method DeleteMissing(oldDefs: Definitions, consolidated: map<Source, RedirectDefinition>)
    modifies oldDefs
    ensures oldDefs.entries == Pruned(old(oldDefs.entries), consolidated)
  {
    var remaining := oldDefs.entries.Keys;
    while remaining != {}
      invariant remaining <= old(oldDefs.entries).Keys
      invariant oldDefs.entries == map k | k in old(oldDefs.entries) && (k in remaining || k in consolidated) :: old(oldDefs.entries)[k]
      decreases remaining
    {
      var id :| id in remaining;
      if id !in consolidated {
        oldDefs.entries := map k | k in oldDefs.entries && k != id :: oldDefs.entries[k];
      }
      remaining := remaining - {id};
    }
  }

  /**
   * ConsolidateRedirectDefinitions: the copy, then the deletions from the
   * caller's map. The error it returns is always nil, so none is modelled.
   */
  method ConsolidateRedirectDefinitions(oldDefs: Definitions, newDefs: map<Source, RedirectDefinition>)
    returns (consolidated: map<Source, RedirectDefinition>)
    modifies oldDefs
    ensures consolidated == Kept(newDefs)
    ensures oldDefs.entries == Pruned(old(oldDefs.entries), consolidated)
    ensures oldDefs.entries.Keys <= consolidated.Keys
  {
    consolidated := CopyTargeted(newDefs);
    DeleteMissing(oldDefs, consolidated);
  }

  /**
   * Consolidating again with the same new definitions changes nothing more:
   * the result is the same and the old map, already pruned, stays as it is.
   */
  lemma ConsolidationSettles(oldDefs: map<Source, RedirectDefinition>, newDefs: map<Source, RedirectDefinition>)
    ensures Pruned(Pruned(oldDefs, Kept(newDefs)), Kept(newDefs)) == Pruned(oldDefs, Kept(newDefs))
    ensures Kept(Kept(newDefs)) == Kept(newDefs)
  {
  }

  function Def(id: EntityID, source: Source, target: Target): RedirectDefinition
  {
    RedirectDefinition(id, "", source, target, 0, false, false, "", "", false)
  }

  /**
   * Old {1, 2} and new {1 without a target, 3}: the result is {3} alone, and
   * the old map ends up empty, since neither 1 nor 2 is in the result.
   */
  lemma DroppedAndReplacedDefinitions()
    ensures var oldDefs := map["1" := Def("1", "damen", "heren"), "2" := Def("2", "kinder", "kids")];
            var newDefs := map["1" := Def("1", "damen", ""), "3" := Def("3", "tachen", "new-tachen")];
      Kept(newDefs) == map["3" := Def("3", "tachen", "new-tachen")] &&
      Pruned(oldDefs, Kept(newDefs)) == map[]
  {
    var newDefs := map["1" := Def("1", "damen", ""), "3" := Def("3", "tachen", "new-tachen")];
    assert Kept(newDefs).Keys == {"3"};
  }
}
