/**
 * Consolidation of newly derived redirects with the redirects currently
 * stored for one dimension (utils/consolidateredirectdefinitions.go).
 *
 * The Go code works on pointers: the map by source shares its records with
 * `current`, the upsert list holds pointers into both, and a record appended
 * early can be re-pointed later. The model therefore keeps the state as
 * values (`State`: the new definitions and the redirects by source) and the
 * upsert list as references (`Ref`) into that state; `Deref` reads a
 * reference against the final state, which is what the caller sees.
 */
module Consolidation {
  import opened Wrappers
  import opened Store
  import opened Content
  import opened Collections
  import Cycles

  /** A pointer the upsert list holds: the i-th new definition, or the current redirect at a source. */
  datatype Ref = NewDef(index: nat) | Existing(source: Source)

  /** What the consolidation mutates: the new definitions, and the current redirects by source. */
  datatype State = State(news: seq<RedirectDefinition>, index: Index)

  /** The record a reference denotes in a state. */
  function Deref(st: State, r: Ref): (d: Option<RedirectDefinition>)
    ensures d.Some? <==> (r.NewDef? && r.index < |st.news|) || (r.Existing? && r.source in st.index)
  {
    match r
    case NewDef(i) => if i < |st.news| then Some(st.news[i]) else None
    case Existing(s) => if s in st.index then Some(st.index[s]) else None
  }

  /** The sources of the redirects that point at `s`. */
  function PointingAt(index: Index, s: Source): set<Source>
  {
    set k | k in index && index[k].target == s
  }

  /** The indices of the new definitions a list of references holds, in order. */
  function NewIndices(refs: seq<Ref>): seq<nat>
  {
    if refs == [] then []
    else
      var last := refs[|refs| - 1];
      NewIndices(refs[..|refs| - 1]) + if last.NewDef? then [last.index] else []
  }

  /** The sources of the current redirects a list of references holds, in order. */
  function ExistingSources(refs: seq<Ref>): seq<Source>
  {
    if refs == [] then []
    else
      var last := refs[|refs| - 1];
      ExistingSources(refs[..|refs| - 1]) + if last.Existing? then [last.source] else []
  }

  lemma {:induction false} ProjectionsOfConcat(a: seq<Ref>, b: seq<Ref>)
    ensures NewIndices(a + b) == NewIndices(a) + NewIndices(b)
    ensures ExistingSources(a + b) == ExistingSources(a) + ExistingSources(b)
  {
    if b == [] {
      assert a + b == a;
    } else {
      var b' := b[..|b| - 1];
      assert (a + b)[..|a + b| - 1] == a + b';
      assert (a + b)[|a + b| - 1] == b[|b| - 1];
      ProjectionsOfConcat(a, b');
    }
  }

  /** Every reference is one of the two kinds. */
  lemma {:induction false} ProjectionsCover(refs: seq<Ref>)
    ensures |NewIndices(refs)| + |ExistingSources(refs)| == |refs|
  {
    if refs != [] {
      ProjectionsCover(refs[..|refs| - 1]);
    }
  }

  /** The indices 0, 1, ..., n - 1. */
  function Upto(n: nat): (r: seq<nat>)
    ensures |r| == n && forall j | 0 <= j < n :: r[j] == j
  {
    if n == 0 then [] else Upto(n - 1) + [n - 1]
  }

  /** The redirects pointing at `s`, and the one at `s`, now point at `t`; nothing else changes. */
  function Retarget(index: Index, s: Source, t: Target): Index
  {
    map k | k in index :: if index[k].target == s || k == s then index[k].(target := t) else index[k]
  }

  /** A new definition takes over the current redirect at its source when that one is automatic. */
  predicate TakesOver(index: Index, nd: RedirectDefinition)
  {
    nd.source in index && index[nd.source].IsAutomatic()
  }

  /** How the current redirects change when a new definition is handled. */
  function IndexStep(index: Index, nd: RedirectDefinition): (r: Index)
    ensures r.Keys == index.Keys
  {
    if TakesOver(index, nd) then Retarget(index, nd.source, nd.target) else index
  }

  /** Step 2 for the i-th new definition: mark it stale on a cycle, and propagate its target. */
  function Step(st: State, i: nat): (r: State)
    requires i < |st.news|
    ensures |r.news| == |st.news| && r.index.Keys == st.index.Keys
  {
    var nd := st.news[i];
    var news := if Cycles.Cyclic(nd.source, nd.target, st.index) then st.news[i := nd.(stale := true)] else st.news;
    State(news, IndexStep(st.index, nd))
  }

  /**
   * The sources of the current redirects step 2 appends to the upsert list
   * for `nd`: when `nd` takes over, those pointing at its source and the one
   * at its source.
   */
  function Chained(index: Index, nd: RedirectDefinition): set<Source>
  {
    if TakesOver(index, nd) then PointingAt(index, nd.source) + {nd.source} else {}
  }

  /** The current redirects after step 2 has handled the first `n` new definitions. */
  function IndexAfter(news: seq<RedirectDefinition>, index: Index, n: nat): (r: Index)
    requires n <= |news|
    ensures r.Keys == index.Keys
  {
    if n == 0 then index else IndexStep(IndexAfter(news, index, n - 1), news[n - 1])
  }

  /** A new definition as step 2 upserts it, given the current redirects when it is handled. */
  function Marked(nd: RedirectDefinition, index: Index): RedirectDefinition
  {
    if Cycles.Cyclic(nd.source, nd.target, index) then nd.(stale := true) else nd
  }

  /** The new definitions after step 2 has handled the first `n` of them. */
  function MarkedAfter(news: seq<RedirectDefinition>, index: Index, n: nat): (r: seq<RedirectDefinition>)
    requires n <= |news|
    ensures |r| == |news|
  {
    if n == 0 then news else MarkedAfter(news, index, n - 1)[n - 1 := Marked(news[n - 1], IndexAfter(news, index, n - 1))]
  }

  /** The state after step 2 has handled the first `n` new definitions. */
  function After(news: seq<RedirectDefinition>, index: Index, n: nat): (r: State)
    requires n <= |news|
    ensures |r.news| == |news| && r.index.Keys == index.Keys
  {
    State(MarkedAfter(news, index, n), IndexAfter(news, index, n))
  }

  /** The sources of the current redirects on the upsert list after the first `n` new definitions. */
  function ChainedAfter(news: seq<RedirectDefinition>, index: Index, n: nat): set<Source>
    requires n <= |news|
  {
    if n == 0 then {} else ChainedAfter(news, index, n - 1) + Chained(IndexAfter(news, index, n - 1), news[n - 1])
  }

  /** The URIs of the pages of the new content tree. */
  function Uris(nodeMap: map<string, RepoNode>): set<string>
  {
    set k | k in nodeMap :: nodeMap[k].uri
  }

  /** Step 3: the automatic redirects whose target is no page any more. */
  function Doomed(index: Index, uris: set<string>): set<Source>
  {
    set k | k in index && index[k].IsAutomatic() && index[k].target !in uris
  }

  /** The map during the propagation loop: the redirects at `done` that pointed at `s` point at `t`. */
  function Repointed(index: Index, s: Source, t: Target, done: set<Source>): Index
  {
    map k | k in index :: if k in done && index[k].target == s then index[k].(target := t) else index[k]
  }

  lemma RepointedStep(index: Index, s: Source, t: Target, done: set<Source>, k: Source)
    requires k in index && k !in done
    ensures k in Repointed(index, s, t, done) && Repointed(index, s, t, done)[k] == index[k]
    ensures Repointed(index, s, t, done + {k}) ==
      if index[k].target == s then Repointed(index, s, t, done)[k := index[k].(target := t)] else Repointed(index, s, t, done)
  {
  }

  lemma RepointedAll(index: Index, s: Source, t: Target)
    requires s in index
    ensures var r := Repointed(index, s, t, index.Keys); r[s := r[s].(target := t)] == Retarget(index, s, t)
  {
  }

  /** The propagation loop's invariant once it has visited the sources in `done`. */
  ghost predicate PropagatedOver(index: Index, s: Source, t: Target, done: set<Source>, index': Index, chained: seq<Source>)
  {
    index' == Repointed(index, s, t, done) && Distinct(chained) && Elements(chained) == PointingAt(index, s) * done
  }

  /** One visit of the propagation loop keeps its invariant. */
  lemma PropagateVisit(index: Index, s: Source, t: Target, done: set<Source>, k: Source, index': Index, chained: seq<Source>)
    requires k in index && k !in done && PropagatedOver(index, s, t, done, index', chained)
    ensures k in index' && index'[k] == index[k]
    ensures index[k].target == s ==>
      PropagatedOver(index, s, t, done + {k}, index'[k := index[k].(target := t)], chained + [k])
    ensures index[k].target != s ==> PropagatedOver(index, s, t, done + {k}, index', chained)
  {
    RepointedStep(index, s, t, done, k);
    assert Elements(chained + [k]) == Elements(chained) + {k};
  }

  /**
   * The propagation loop (lines 47-57): every current redirect pointing at
   * `s` is re-pointed at `t`; `chained` lists their sources in the order
   * they are appended to the upsert list.
   */
  method PropagateTarget(index: Index, s: Source, t: Target) returns (index': Index, chained: seq<Source>)
    ensures index' == Repointed(index, s, t, index.Keys)
    ensures Distinct(chained) && Elements(chained) == PointingAt(index, s)
  {
    index', chained := index, [];
    var remaining := index.Keys;
    ghost var done: set<Source> := {};
    while remaining != {}
      invariant remaining == index.Keys - done && done <= index.Keys
      invariant PropagatedOver(index, s, t, done, index', chained)
      decreases remaining
    {
      var k :| k in remaining;
      PropagateVisit(index, s, t, done, k, index', chained);
      if index'[k].target == s {
        index' := index'[k := index'[k].(target := t)];
        chained := chained + [k];
      }
      remaining := remaining - {k};
      done := done + {k};
    }
    assert done == index.Keys;
    assert PointingAt(index, s) * done == PointingAt(index, s);
  }

  /** References to the current redirects at `sources`, in order. */
  function ExistingRefs(sources: seq<Source>): (r: seq<Ref>)
    ensures NewIndices(r) == [] && ExistingSources(r) == sources
  {
    if sources == [] then []
    else
      var r := ExistingRefs(sources[..|sources| - 1]) + [Existing(sources[|sources| - 1])];
      assert r[..|r| - 1] == ExistingRefs(sources[..|sources| - 1]);
      r
  }

  /** Step 2 for one new definition (lines 31-68). */
  method ConsolidateOne(st: State, i: nat) returns (st': State, refs: seq<Ref>)
    requires i < |st.news|
    ensures st' == Step(st, i)
    ensures NewIndices(refs) == [i] && Elements(ExistingSources(refs)) == Chained(st.index, st.news[i])
  {
    var nd := st.news[i];
    var news, index := st.news, st.index;
    var cyclic := Cycles.HasCycle(nd.source, nd.target, index);
    if cyclic {
      news := news[i := nd.(stale := true)];
    }
    refs := [NewDef(i)];
    if nd.source in index && index[nd.source].redirectionType == RedirectionTypeAutomatic {
      var chained;
      index, chained := PropagateTarget(index, nd.source, nd.target);
      ProjectionsOfConcat(refs, ExistingRefs(chained));
      refs := refs + ExistingRefs(chained);
      index := index[nd.source := index[nd.source].(target := nd.target)];
      ProjectionsOfConcat(refs, [Existing(nd.source)]);
      refs := refs + [Existing(nd.source)];
      RepointedAll(st.index, nd.source, nd.target);
    }
    st' := State(news, index);
  }

  /** Step 3, first loop (lines 71-74): the URIs of the new tree's pages. */
  method AvailableTargets(nodeMap: map<string, RepoNode>) returns (uris: set<string>)
    ensures uris == Uris(nodeMap)
  {
    uris := {};
    var remaining := nodeMap.Keys;
    while remaining != {}
      invariant remaining <= nodeMap.Keys
      invariant uris == set k | k in nodeMap.Keys - remaining :: nodeMap[k].uri
      decreases remaining
    {
      var k :| k in remaining;
      uris := uris + {nodeMap[k].uri};
      remaining := remaining - {k};
    }
  }

  /** Step 3, second loop (lines 76-92): the IDs of the redirects to delete, in visiting order. */
  method DeletionCandidates(index: Index, uris: set<string>) returns (ids: seq<EntityID>, ghost doomed: seq<Source>)
    ensures Distinct(doomed) && Elements(doomed) == Doomed(index, uris)
    ensures |ids| == |doomed| && forall j | 0 <= j < |doomed| :: doomed[j] in index && ids[j] == index[doomed[j]].id
  {
    ids, doomed := [], [];
    var remaining := index.Keys;
    while remaining != {}
      invariant remaining <= index.Keys
      invariant Distinct(doomed) && Elements(doomed) == Doomed(index, uris) - remaining
      invariant |ids| == |doomed| && forall j | 0 <= j < |doomed| :: doomed[j] in index && ids[j] == index[doomed[j]].id
      decreases remaining
    {
      var k :| k in remaining;
      if index[k].IsAutomatic() && index[k].target !in uris {
        ids, doomed := ids + [index[k].id], doomed + [k];
        assert Elements(doomed) == Elements(doomed[..|doomed| - 1]) + {k};
      }
      remaining := remaining - {k};
    }
  }

  /** The invariant of step 2's loop after the first `i` new definitions. */
  ghost predicate ConsolidatedUpTo(news: seq<RedirectDefinition>, current: Index, i: nat, st: State, upserts: seq<Ref>)
    requires i <= |news|
  {
    st == After(news, current, i) &&
    NewIndices(upserts) == Upto(i) &&
    Elements(ExistingSources(upserts)) == ChainedAfter(news, current, i)
  }

  /** Handling the i-th new definition keeps step 2's loop invariant. */
  lemma ConsolidatedStep(news: seq<RedirectDefinition>, current: Index, i: nat, st: State, upserts: seq<Ref>, next: State, refs: seq<Ref>)
    requires i < |news| && ConsolidatedUpTo(news, current, i, st, upserts)
    requires next == Step(st, i)
    requires NewIndices(refs) == [i] && Elements(ExistingSources(refs)) == Chained(st.index, st.news[i])
    ensures ConsolidatedUpTo(news, current, i + 1, next, upserts + refs)
  {
    MarkedKeepsLater(news, current, i, i);
    AfterStep(news, current, i);
    ProjectionsOfConcat(upserts, refs);
  }

  /**
   * ConsolidateRedirectDefinitions (lines 15-95) on one dimension's current
   * redirects. It returns the final state, the upsert list as references into
   * it, and the IDs of the redirects to delete (`doomed` are their sources,
   * in the order the IDs were collected).
   */
  method ConsolidateRedirectDefinitions(newDefinitions: seq<RedirectDefinition>, current: Index, newNodeMap: map<string, RepoNode>)
    returns (final: State, upserts: seq<Ref>, deletedIDs: seq<EntityID>, ghost doomed: seq<Source>)
    requires KeyedBySource(current)
    ensures final == After(newDefinitions, current, |newDefinitions|)
    ensures NewIndices(upserts) == Upto(|newDefinitions|)
    ensures Elements(ExistingSources(upserts)) == ChainedAfter(newDefinitions, current, |newDefinitions|)
    ensures Distinct(doomed) && Elements(doomed) == Doomed(final.index, Uris(newNodeMap))
    ensures |deletedIDs| == |doomed|
    ensures forall j | 0 <= j < |doomed| :: doomed[j] in final.index && deletedIDs[j] == final.index[doomed[j]].id
  {
    // Step 1: `current` is already the map by source.
    final := State(newDefinitions, current);
    upserts := [];
    // Step 2
    for i := 0 to |newDefinitions|
      invariant ConsolidatedUpTo(newDefinitions, current, i, final, upserts)
    {
      var next, refs := ConsolidateOne(final, i);
      ConsolidatedStep(newDefinitions, current, i, final, upserts, next, refs);
      final, upserts := next, upserts + refs;
    }
    // Step 3
    var uris := AvailableTargets(newNodeMap);
    deletedIDs, doomed := DeletionCandidates(final.index, uris);
  }

  /** Step 2 only ever writes the definition it is handling: later ones are still as given. */
  lemma {:induction false} MarkedKeepsLater(news: seq<RedirectDefinition>, index: Index, n: nat, i: nat)
    requires n <= i < |news|
    ensures MarkedAfter(news, index, n)[i] == news[i]
  {
    if n > 0 {
      MarkedKeepsLater(news, index, n - 1, i);
    }
  }

  /** Handling one more new definition is one `Step`. */
  lemma AfterStep(news: seq<RedirectDefinition>, index: Index, n: nat)
    requires n < |news|
    ensures After(news, index, n + 1) == Step(After(news, index, n), n)
  {
    MarkedKeepsLater(news, index, n, n);
  }

  /**
   * A new definition is upserted as given, except that it is marked stale
   * exactly when it closes a cycle over the redirects as they stand when it
   * is handled.
   */
  lemma {:induction false} StaleIffCyclic(news: seq<RedirectDefinition>, index: Index, n: nat, i: nat)
    requires i < n <= |news|
    ensures MarkedAfter(news, index, n)[i] ==
      news[i].(stale := news[i].stale || Cycles.Cyclic(news[i].source, news[i].target, IndexAfter(news, index, i)))
  {
    if n > i + 1 {
      StaleIffCyclic(news, index, n - 1, i);
    }
  }

  /** When handling the j-th new definition puts the current redirect at `k` on the upsert list. */
  predicate ChainsAt(news: seq<RedirectDefinition>, index: Index, j: nat, k: Source)
    requires j < |news|
  {
    var ix := IndexAfter(news, index, j);
    TakesOver(ix, news[j]) && (k == news[j].source || k in PointingAt(ix, news[j].source))
  }

  lemma ChainedAfterStep(news: seq<RedirectDefinition>, index: Index, n: nat, k: Source)
    requires 0 < n <= |news|
    ensures k in ChainedAfter(news, index, n) <==> k in ChainedAfter(news, index, n - 1) || ChainsAt(news, index, n - 1, k)
  {
    var ix := IndexAfter(news, index, n - 1);
    assert k in Chained(ix, news[n - 1]) <==> ChainsAt(news, index, n - 1, k);
  }

  /**
   * A current redirect is upserted exactly when some new definition took over
   * an automatic redirect at a source it pointed at, or at its own source.
   */
  lemma {:induction false} ChainedAfterIff(news: seq<RedirectDefinition>, index: Index, n: nat, k: Source)
    requires n <= |news|
    ensures k in ChainedAfter(news, index, n) <==> exists j | 0 <= j < n :: ChainsAt(news, index, j, k)
  {
    if n > 0 {
      ChainedAfterIff(news, index, n - 1, k);
      ChainedAfterStep(news, index, n, k);
      if k in ChainedAfter(news, index, n) {
        if k in ChainedAfter(news, index, n - 1) {
          var j :| 0 <= j < n - 1 && ChainsAt(news, index, j, k);
          assert 0 <= j < n && ChainsAt(news, index, j, k);
        } else {
          assert ChainsAt(news, index, n - 1, k);
        }
      }
      if exists j | 0 <= j < n :: ChainsAt(news, index, j, k) {
        var j :| 0 <= j < n && ChainsAt(news, index, j, k);
        if j < n - 1 {
          assert exists j' | 0 <= j' < n - 1 :: ChainsAt(news, index, j', k);
        }
      }
    }
  }

  /** Consolidation only ever changes the targets of current redirects, never their other fields. */
  lemma {:induction false} OnlyTargetsChange(news: seq<RedirectDefinition>, index: Index, n: nat, k: Source)
    requires n <= |news| && k in index
    ensures IndexAfter(news, index, n)[k] == index[k].(target := IndexAfter(news, index, n)[k].target)
  {
    if n > 0 {
      OnlyTargetsChange(news, index, n - 1, k);
    }
  }

  /** One step re-points a current redirect exactly when the new definition chains it. */
  lemma StepTarget(ix: Index, nd: RedirectDefinition, k: Source)
    requires k in ix
    ensures IndexStep(ix, nd)[k].target ==
      if TakesOver(ix, nd) && (k == nd.source || k in PointingAt(ix, nd.source)) then nd.target else ix[k].target
  {
  }

  /**
   * A current redirect changes target only by propagation: when some new
   * definition takes over an automatic redirect at a source it points at
   * (or at its own source), and then it points where that definition does.
   */
  lemma {:induction false} RetargetedByTakeover(news: seq<RedirectDefinition>, index: Index, n: nat, k: Source)
    requires n <= |news| && k in index
    ensures IndexAfter(news, index, n)[k].target == index[k].target ||
      exists j | 0 <= j < n :: ChainsAt(news, index, j, k) && IndexAfter(news, index, n)[k].target == news[j].target
  {
    if n > 0 {
      var ix := IndexAfter(news, index, n - 1);
      var after := IndexAfter(news, index, n)[k].target;
      StepTarget(ix, news[n - 1], k);
      if !ChainsAt(news, index, n - 1, k) {
        RetargetedByTakeover(news, index, n - 1, k);
        if after != index[k].target {
          var j :| 0 <= j < n - 1 && ChainsAt(news, index, j, k) && ix[k].target == news[j].target;
          assert 0 <= j < n;
        }
      }
    }
  }

  /** Only automatic redirects are deleted, and manual ones are kept whatever they point at. */
  lemma DoomedAreAutomatic(index: Index, uris: set<string>, k: Source)
    requires k in Doomed(index, uris)
    ensures index[k].IsAutomatic() && index[k].target !in uris
  {
  }

  /** Every reference designates a record of `st`. */
  predicate Designate(refs: seq<Ref>, st: State)
  {
    forall p | 0 <= p < |refs| :: Deref(st, refs[p]).Some?
  }

  /** The records the references designate in the final state: what the caller hands to the store. */
  function Resolve(refs: seq<Ref>, st: State): (r: seq<RedirectDefinition>)
    requires Designate(refs, st)
    ensures |r| == |refs|
  {
    seq(|refs|, p requires 0 <= p < |refs| => Deref(st, refs[p]).value)
  }

  /** The ids of the redirects at `sources`, in order. */
  function IdsOf(sources: seq<Source>, index: Index): (ids: seq<EntityID>)
    requires forall s | s in sources :: s in index
    ensures |ids| == |sources|
  {
    seq(|sources|, j requires 0 <= j < |sources| => index[sources[j]].id)
  }

  /** Only current redirects are ever chained. */
  lemma {:induction false} ChainedAfterInIndex(news: seq<RedirectDefinition>, index: Index, n: nat)
    requires n <= |news|
    ensures ChainedAfter(news, index, n) <= index.Keys
  {
    if n > 0 {
      ChainedAfterInIndex(news, index, n - 1);
    }
  }

  /** References whose indices and sources lie within a state designate records of it. */
  lemma {:induction false} ProjectionsDesignate(refs: seq<Ref>, st: State)
    requires forall i | i in NewIndices(refs) :: i < |st.news|
    requires forall s | s in ExistingSources(refs) :: s in st.index
    ensures Designate(refs, st)
  {
    if refs != [] {
      var prefix := refs[..|refs| - 1];
      var last := refs[|refs| - 1];
      assert NewIndices(refs) == NewIndices(prefix) + if last.NewDef? then [last.index] else [];
      assert ExistingSources(refs) == ExistingSources(prefix) + if last.Existing? then [last.source] else [];
      assert forall i | i in NewIndices(prefix) :: i in NewIndices(refs);
      assert forall s | s in ExistingSources(prefix) :: s in ExistingSources(refs);
      ProjectionsDesignate(prefix, st);
      if last.NewDef? {
        assert last.index in NewIndices(refs);
      } else {
        assert last.source in ExistingSources(refs);
      }
      forall p | 0 <= p < |refs|
        ensures Deref(st, refs[p]).Some?
      {
        if p < |prefix| {
          assert refs[p] == prefix[p];
        }
      }
    }
  }

  /** Step 2 reads a new definition's source and target only, never its other fields. */
  lemma {:induction false} IndexAfterSeesPlacementOnly(news: seq<RedirectDefinition>, news': seq<RedirectDefinition>, index: Index, n: nat)
    requires n <= |news| && n <= |news'|
    requires forall j | 0 <= j < n :: news'[j].source == news[j].source && news'[j].target == news[j].target
    ensures IndexAfter(news', index, n) == IndexAfter(news, index, n)
  {
    if n > 0 {
      IndexAfterSeesPlacementOnly(news, news', index, n - 1);
    }
  }


  function Def(id: EntityID, source: Source, target: Target, automatic: bool): RedirectDefinition
  {
    RedirectDefinition(id, "", source, target, RedirectCodePermanent, true, true,
      if automatic then RedirectionTypeAutomatic else RedirectionTypeManual, "de", false)
  }

  /**
   * An existing chain /a -> /b is not re-pointed when a new redirect /b -> /c
   * arrives: /b is not the source of a current redirect, so nothing is taken
   * over, and /a is deleted once /b is no page.
   */
  lemma UpstreamOfNewSourceIsDeletedNotRetargeted()
    ensures var current := map["/a" := Def("1", "/a", "/b", true)];
      var news := [Def("2", "/b", "/c", true)];
      var final := After(news, current, 1);
      final.index == current &&
      ChainedAfter(news, current, 1) == {} &&
      Doomed(final.index, {"/c"}) == {"/a"}
  {
    var current := map["/a" := Def("1", "/a", "/b", true)];
    var news := [Def("2", "/b", "/c", true)];
    assert !TakesOver(current, news[0]);
    assert Doomed(current, {"/c"}) == {"/a"};
  }

  /**
   * When a new redirect /b -> /c takes over the automatic /b -> /old, the
   * upstream /a -> /b is re-pointed at /c too, and both current redirects
   * are upserted with the new one.
   */
  lemma TakeoverRetargetsUpstream()
    ensures var current := map["/a" := Def("1", "/a", "/b", true), "/b" := Def("2", "/b", "/old", true)];
      var news := [Def("3", "/b", "/c", true)];
      var final := After(news, current, 1);
      final.index["/a"].target == "/c" && final.index["/b"].target == "/c" &&
      ChainedAfter(news, current, 1) == {"/a", "/b"} &&
      Doomed(final.index, {"/c"}) == {}
  {
    var current := map["/a" := Def("1", "/a", "/b", true), "/b" := Def("2", "/b", "/old", true)];
    var news := [Def("3", "/b", "/c", true)];
    assert TakesOver(current, news[0]);
    assert PointingAt(current, "/b") == {"/a"};
  }

  /**
   * Propagation can leave a self-redirect that is not marked stale: with
   * /a -> /b and /b -> /x automatic, a new /b -> /a is stale, but the
   * re-pointed /a -> /a keeps `stale` false.
   */
  lemma PropagationCanCreateUnmarkedSelfRedirect()
    ensures var current := map["/a" := Def("1", "/a", "/b", true), "/b" := Def("2", "/b", "/x", true)];
      var news := [Def("3", "/b", "/a", true)];
      var final := After(news, current, 1);
      final.news[0].stale &&
      final.index["/a"].source == "/a" && final.index["/a"].target == "/a" && !final.index["/a"].stale
  {
    var current := map["/a" := Def("1", "/a", "/b", true), "/b" := Def("2", "/b", "/x", true)];
    var news := [Def("3", "/b", "/a", true)];
    assert Cycles.CycleSearch("/b", "/b", current, {"/a"});
    assert Cycles.Cyclic("/b", "/a", current);
  }

  /** A re-pointed redirect can be both upserted and deleted when its new target is no page. */
  lemma UpsertedRedirectCanAlsoBeDeleted()
    ensures var current := map["/x" := Def("1", "/x", "/y", true)];
      var news := [Def("2", "/x", "/z", true)];
      var final := After(news, current, 1);
      "/x" in ChainedAfter(news, current, 1) && "/x" in Doomed(final.index, {})
  {
    var current := map["/x" := Def("1", "/x", "/y", true)];
    var news := [Def("2", "/x", "/z", true)];
    assert TakesOver(current, news[0]);
  }
}
