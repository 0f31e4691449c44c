/**
 * The flattening pass (flattening.go): every redirect of a dimension is
 * re-pointed at the end of its chain, so that a live redirect is a single hop.
 *
 * `ResolveSearch` is the resolver's loop, one iteration per call. On an
 * acyclic index (one whose sources can be ranked so that every hop goes down)
 * the pass is proved to compute `Flattened`, whatever order the map iteration
 * takes, and a second pass changes nothing.
 */
module Flattening {
  import opened Wrappers
  import opened Store
  import Cycles
  import Backend
  import opened Collections

  /** The resolver's loop: follow non-empty targets until a dead end or a target seen before. */
  function ResolveSearch(target: string, m: Index, visited: set<string>): string
    decreases m.Keys - visited
  {
    if target !in m || m[target].target == "" then target
    else if target in visited then target
    else ResolveSearch(m[target].target, m, visited + {target})
  }

  /** The target resolveFinalTarget returns for `target`. */
  function FinalTarget(target: string, m: Index): string
  {
    ResolveSearch(target, m, {})
  }

  /** resolveFinalTarget: the loop, remembering the sources it has passed through. */
  method ResolveFinalTarget(target: string, m: Index) returns (final: string)
    ensures final == FinalTarget(target, m)
  {
    var visited: set<string> := {};
    var t := target;
    while true
      invariant ResolveSearch(t, m, visited) == FinalTarget(target, m)
      decreases m.Keys - visited
    {
      if t !in m || m[t].target == "" {
        return t;
      }
      if t in visited {
        return t;
      }
      visited := visited + {t};
      t := m[t].target;
    }
  }

  /** Resolution never produces an empty target from a non-empty one. */
  lemma {:induction false} ResolveSearchNonEmpty(target: string, m: Index, visited: set<string>)
    requires target != ""
    ensures ResolveSearch(target, m, visited) != ""
    decreases m.Keys - visited
  {
    if target in m && m[target].target != "" && target !in visited {
      ResolveSearchNonEmpty(m[target].target, m, visited + {target});
    }
  }

  // ---- acyclic indexes --------------------------------------------------

  /** Every hop the resolver can take goes strictly down `rank`. */
  ghost predicate Ranked(m: Index, rank: map<string, nat>)
  {
    m.Keys <= rank.Keys &&
    forall s | s in m && m[s].target != "" && m[s].target in m :: rank[m[s].target] < rank[s]
  }

  /** No chain of the index loops. */
  ghost predicate Acyclic(m: Index)
  {
    exists rank: map<string, nat> :: Ranked(m, rank)
  }

  ghost function Height(m: Index, rank: map<string, nat>, t: string): nat
    requires Ranked(m, rank)
  {
    if t in m then rank[t] + 1 else 0
  }

  /** The end of the chain from `t` in an acyclic index. */
  ghost function ChainEnd(m: Index, rank: map<string, nat>, t: string): string
    requires Ranked(m, rank)
    decreases Height(m, rank, t)
  {
    if t !in m || m[t].target == "" then t else ChainEnd(m, rank, m[t].target)
  }

  /** On an acyclic index the resolver reaches the end of the chain. */
  lemma {:induction false} ResolveIsChainEnd(m: Index, rank: map<string, nat>, t: string, visited: set<string>)
    requires Ranked(m, rank) && visited <= m.Keys
    requires t in m ==> forall v | v in visited :: rank[t] < rank[v]
    ensures ResolveSearch(t, m, visited) == ChainEnd(m, rank, t)
    decreases Height(m, rank, t)
  {
    if t in m && m[t].target != "" {
      assert t !in visited;
      ResolveIsChainEnd(m, rank, m[t].target, visited + {t});
    }
  }

  lemma FinalTargetIsChainEnd(m: Index, rank: map<string, nat>, t: string)
    requires Ranked(m, rank)
    ensures FinalTarget(t, m) == ChainEnd(m, rank, t)
  {
    ResolveIsChainEnd(m, rank, t, {});
  }

  /** The end of a chain is a dead end, below the start, and not empty unless the start was. */
  lemma {:induction false} ChainEndFacts(m: Index, rank: map<string, nat>, t: string)
    requires Ranked(m, rank)
    ensures var r := ChainEnd(m, rank, t);
      (r !in m || m[r].target == "") &&
      (t in m && r in m ==> rank[r] <= rank[t]) &&
      (t !in m ==> r == t) &&
      (t != "" ==> r != "")
    decreases Height(m, rank, t)
  {
    if t in m && m[t].target != "" {
      ChainEndFacts(m, rank, m[t].target);
    }
  }

  /** Re-pointing one redirect at the end of its chain. */
  ghost function Repoint(m: Index, rank: map<string, nat>, u: Source): Index
    requires Ranked(m, rank) && u in m
  {
    m[u := m[u].(target := ChainEnd(m, rank, m[u].target))]
  }

  /** Re-pointing one redirect keeps the index acyclic. */
  lemma RepointRanked(m: Index, rank: map<string, nat>, u: Source)
    requires Ranked(m, rank) && u in m && "" !in m
    ensures Ranked(Repoint(m, rank, u), rank)
  {
    ChainEndFacts(m, rank, m[u].target);
  }

  /** Re-pointing one redirect changes the end of no chain. */
  lemma {:induction false} RepointKeepsChainEnds(m: Index, rank: map<string, nat>, u: Source, x: string)
    requires Ranked(m, rank) && u in m && "" !in m
    ensures Ranked(Repoint(m, rank, u), rank)
    ensures ChainEnd(Repoint(m, rank, u), rank, x) == ChainEnd(m, rank, x)
    decreases Height(m, rank, x)
  {
    RepointRanked(m, rank, u);
    var m' := Repoint(m, rank, u);
    if x in m && x != u && m[x].target != "" {
      RepointKeepsChainEnds(m, rank, u, m[x].target);
    } else if x == u {
      var t := m[u].target;
      ChainEndFacts(m, rank, t);
      if t != "" {
        var r := ChainEnd(m, rank, t);
        assert r != u;
        assert ChainEnd(m', rank, u) == ChainEnd(m', rank, r);
      }
    }
  }

  /** The index after the redirects in `done` have been re-pointed at the ends of their chains. */
  function Partial(m: Index, done: set<Source>): (r: Index)
    ensures r.Keys == m.Keys
  {
    map s | s in m :: if s in done then m[s].(target := FinalTarget(m[s].target, m)) else m[s]
  }

  /** The index after every redirect has been re-pointed at the end of its chain. */
  function Flattened(m: Index): Index
  {
    Partial(m, m.Keys)
  }

  /** Re-pointing any set of redirects keeps the index acyclic and every chain's end. */
  lemma {:induction false} PartialKeepsChainEnds(m: Index, rank: map<string, nat>, done: set<Source>)
    requires Ranked(m, rank) && "" !in m
    ensures Ranked(Partial(m, done), rank)
    ensures forall x :: ChainEnd(Partial(m, done), rank, x) == ChainEnd(m, rank, x)
    decreases done
  {
    if done == {} {
      assert Partial(m, done) == m;
    } else {
      var u :| u in done;
      var rest := done - {u};
      PartialKeepsChainEnds(m, rank, rest);
      var p := Partial(m, rest);
      if u !in m {
        assert Partial(m, done) == p;
      } else {
        assert done == rest + {u};
        PartialAddsRepoint(m, rank, rest, u);
        RepointRanked(p, rank, u);
        forall x
          ensures ChainEnd(Partial(m, done), rank, x) == ChainEnd(m, rank, x)
        {
          RepointKeepsChainEnds(p, rank, u, x);
        }
      }
    }
  }

  /** Re-pointing one more redirect of the original index is one Repoint step. */
  lemma PartialAddsRepoint(m: Index, rank: map<string, nat>, rest: set<Source>, u: Source)
    requires Ranked(m, rank) && u in m && u !in rest
    requires Ranked(Partial(m, rest), rank)
    requires ChainEnd(Partial(m, rest), rank, m[u].target) == ChainEnd(m, rank, m[u].target)
    ensures Partial(m, rest + {u}) == Repoint(Partial(m, rest), rank, u)
  {
    FinalTargetIsChainEnd(m, rank, m[u].target);
    var p := Partial(m, rest);
    var q := Partial(m, rest + {u});
    assert p[u] == m[u];
    PartialOthers(m, rest, u);
    UpdateOne(q, p, u, m[u].(target := ChainEnd(m, rank, m[u].target)));
  }

  /** Adding `u` to the re-pointed set leaves every other entry as it was. */
  lemma PartialOthers(m: Index, rest: set<Source>, u: Source)
    ensures forall s | s in m && s != u :: Partial(m, rest + {u})[s] == Partial(m, rest)[s]
  {
  }

  /** A map that agrees with `p` except at `u`, where it holds `v`, is `p` updated at `u`. */
  lemma UpdateOne<K, V>(q: map<K, V>, p: map<K, V>, u: K, v: V)
    requires q.Keys == p.Keys && u in q && q[u] == v
    requires forall s | s in q && s != u :: q[s] == p[s]
    ensures q == p[u := v]
  {
  }

  /**
   * One dimension's pass when the map iteration visits the sources in
   * `order`: the rewritten index, and the redirects that changed, in the order
   * they changed.
   */
  function FlattenInOrder(m: Index, order: seq<Source>): (r: (Index, seq<RedirectDefinition>))
    ensures r.0.Keys == m.Keys
    ensures |r.1| <= |order|
  {
    if order == [] then (m, [])
    else
      var prev := FlattenInOrder(m, order[..|order| - 1]);
      var s := order[|order| - 1];
      if s in prev.0 && FinalTarget(prev.0[s].target, prev.0) != prev.0[s].target then
        var d := prev.0[s].(target := FinalTarget(prev.0[s].target, prev.0));
        (prev.0[s := d], prev.1 + [d])
      else prev
  }

  /** Whether the pass re-points the redirect at `s`, judged on the index before the pass. */
  predicate Moves(m: Index, s: Source)
  {
    s in m && FinalTarget(m[s].target, m) != m[s].target
  }

  /** The redirects of `order` that the pass re-points, as they end up. */
  function ChangedIn(m: Index, order: seq<Source>): seq<RedirectDefinition>
  {
    if order == [] then []
    else
      var s := order[|order| - 1];
      ChangedIn(m, order[..|order| - 1]) + (if Moves(m, s) then [Flattened(m)[s]] else [])
  }

  /**
   * On an acyclic index, a pass in any order leaves the visited redirects
   * re-pointed at the ends of their chains, judged on the index before the
   * pass: the in-place rewrites do not disturb the redirects visited later.
   */
  lemma {:induction false} FlattenInOrderOnAcyclic(m: Index, rank: map<string, nat>, order: seq<Source>)
    requires Ranked(m, rank) && "" !in m && Distinct(order)
    ensures FlattenInOrder(m, order) == (Partial(m, Elements(order)), ChangedIn(m, order))
  {
    if order == [] {
      assert Elements(order) == {};
      assert Partial(m, {}) == m;
    } else {
      var prefix := order[..|order| - 1];
      var s := order[|order| - 1];
      LastApart(order);
      FlattenInOrderOnAcyclic(m, rank, prefix);
      var done := Elements(prefix);
      var p := Partial(m, done);
      PartialSnoc(m, done, s);
      if s in m {
        PassSeesOriginal(m, rank, done, s);
        var e := m[s].(target := FinalTarget(m[s].target, m));
        assert Flattened(m)[s] == e;
        if Moves(m, s) {
          assert FlattenInOrder(m, order) == (p[s := e], ChangedIn(m, prefix) + [e]);
          assert ChangedIn(m, order) == ChangedIn(m, prefix) + [e];
        } else {
          assert FlattenInOrder(m, order) == FlattenInOrder(m, prefix);
          assert ChangedIn(m, order) == ChangedIn(m, prefix) + [];
          assert ChangedIn(m, order) == ChangedIn(m, prefix);
          assert p[s := e] == p;
        }
      } else {
        assert !Moves(m, s);
        assert FlattenInOrder(m, order) == FlattenInOrder(m, prefix);
        assert ChangedIn(m, order) == ChangedIn(m, prefix) + [];
        assert ChangedIn(m, order) == ChangedIn(m, prefix);
        assert Partial(m, Elements(order)) == p;
      }
    }
  }

  /**
   * A redirect not yet visited still has its original entry, and its chain
   * still ends where it did before any redirect was re-pointed.
   */
  lemma PassSeesOriginal(m: Index, rank: map<string, nat>, done: set<Source>, s: Source)
    requires Ranked(m, rank) && "" !in m && s in m && s !in done
    ensures Partial(m, done)[s] == m[s]
    ensures FinalTarget(m[s].target, Partial(m, done)) == FinalTarget(m[s].target, m)
  {
    var p := Partial(m, done);
    PartialKeepsChainEnds(m, rank, done);
    FinalTargetIsChainEnd(p, rank, m[s].target);
    FinalTargetIsChainEnd(m, rank, m[s].target);
  }

  /** Re-pointing one more source: its entry, if it has one, moves to the end of its chain. */
  lemma PartialSnoc(m: Index, done: set<Source>, s: Source)
    requires s !in done
    ensures Partial(m, done + {s}) ==
      if s in m then Partial(m, done)[s := m[s].(target := FinalTarget(m[s].target, m))] else Partial(m, done)
  {
    PartialOthers(m, done, s);
    if s in m {
      UpdateOne(Partial(m, done + {s}), Partial(m, done), s, m[s].(target := FinalTarget(m[s].target, m)));
    } else {
      SameEntries(Partial(m, done + {s}), Partial(m, done));
    }
  }

  /** Two maps with the same keys and the same entries are equal. */
  lemma SameEntries<K, V>(q: map<K, V>, p: map<K, V>)
    requires q.Keys == p.Keys && forall k | k in q :: q[k] == p[k]
    ensures q == p
  {
  }

  /** An index every one of whose redirects already points at the end of its chain. */
  predicate Flat(m: Index)
  {
    forall s | s in m :: FinalTarget(m[s].target, m) == m[s].target
  }

  /** A pass over a flat index changes nothing and reports nothing. */
  lemma {:induction false} FlatIsFixedPoint(m: Index, order: seq<Source>)
    requires Flat(m)
    ensures FlattenInOrder(m, order) == (m, [])
  {
    if order != [] {
      FlatIsFixedPoint(m, order[..|order| - 1]);
    }
  }

  /** Flattening an acyclic index yields a flat, still acyclic index. */
  lemma FlattenedIsFlat(m: Index, rank: map<string, nat>)
    requires Ranked(m, rank) && "" !in m
    ensures Ranked(Flattened(m), rank) && "" !in Flattened(m)
    ensures Flat(Flattened(m))
  {
    var f := Flattened(m);
    PartialKeepsChainEnds(m, rank, m.Keys);
    forall s | s in f
      ensures FinalTarget(f[s].target, f) == f[s].target
    {
      FinalTargetIsChainEnd(m, rank, m[s].target);
      ChainEndFacts(m, rank, m[s].target);
      FinalTargetIsChainEnd(f, rank, f[s].target);
      var r := f[s].target;
      assert ChainEnd(f, rank, r) == ChainEnd(m, rank, r);
    }
  }

  /**
   * The pass over an acyclic index computes `Flattened` in any iteration
   * order, and a second pass, again in any order, changes and reports nothing.
   */
  lemma FlattenIsOrderIndependentAndIdempotent(m: Index, order: seq<Source>, again: seq<Source>)
    requires Acyclic(m) && "" !in m
    requires Distinct(order) && Elements(order) == m.Keys
    ensures FlattenInOrder(m, order).0 == Flattened(m)
    ensures FlattenInOrder(Flattened(m), again) == (Flattened(m), [])
  {
    var rank :| Ranked(m, rank);
    FlattenInOrderOnAcyclic(m, rank, order);
    FlattenedIsFlat(m, rank);
    FlattenIsFixedPointOf(m, again);
  }

  lemma FlattenIsFixedPointOf(m: Index, again: seq<Source>)
    requires Flat(Flattened(m))
    ensures FlattenInOrder(Flattened(m), again) == (Flattened(m), [])
  {
    FlatIsFixedPoint(Flattened(m), again);
  }

  /** HasCycle's search, on an acyclic index, from a target below the source. */
  lemma {:induction false} RankedSearchFindsNoCycle(m: Index, rank: map<string, nat>, s: Source, t: string, visited: set<string>)
    requires Ranked(m, rank) && s in m && visited <= m.Keys
    requires t in m ==> rank[t] < rank[s] && forall v | v in visited :: rank[t] < rank[v]
    ensures !Cycles.CycleSearch(s, t, m, visited)
    decreases Height(m, rank, t)
  {
    if t != "" && t in m && m[t].target != "" {
      RankedSearchFindsNoCycle(m, rank, s, m[t].target, visited + {t});
    }
  }

  /** On an acyclic index, HasCycle reports none of the existing redirects as a cycle. */
  lemma AcyclicHasNoCycles(m: Index, s: Source)
    requires Acyclic(m) && s in m
    ensures !Cycles.Cyclic(s, m[s].target, m)
  {
    var rank :| Ranked(m, rank);
    if m[s].target != "" {
      RankedSearchFindsNoCycle(m, rank, s, m[s].target, {});
    }
  }

  /** The sources a pass re-points. */
  function MovedSources(m: Index): set<Source>
  {
    set s | s in m.Keys && Moves(m, s)
  }

  /** The pass reports the re-pointed redirects, one per moved source, in visiting order. */
  lemma {:induction false} ChangedInFollowsMoved(m: Index, order: seq<Source>)
    ensures |ChangedIn(m, order)| == |Filter(order, MovedSources(m))|
  {
    if order != [] {
      ChangedInFollowsMoved(m, order[..|order| - 1]);
    }
  }

  /** A pass in an order without repetitions reports each re-pointed redirect exactly once. */
  lemma ChangedInCount(m: Index, order: seq<Source>)
    requires Distinct(order)
    ensures |ChangedIn(m, order)| == |MovedSources(m) * Elements(order)|
  {
    ChangedInFollowsMoved(m, order);
    FilterCount(order, MovedSources(m));
  }

  function Def(source: string, target: string, redirectionType: string): RedirectDefinition
  {
    RedirectDefinition("", "", source, target, RedirectCodePermanent, true, true,
      redirectionType, "global", false)
  }

  /** The chain /a -> /b -> /c -> /final of the flattening tests. */
  function SimpleChain(): Index
  {
    map["/a" := Def("/a", "/b", RedirectionTypeAutomatic),
        "/b" := Def("/b", "/c", RedirectionTypeManual),
        "/c" := Def("/c", "/final", RedirectionTypeAutomatic)]
  }

  /**
   * One pass over the chain /a -> /b -> /c -> /final points all three
   * redirects at /final and reports two of them: /c pointed there already.
   */
  lemma SimpleChainFlattensWithTwoChanges(order: seq<Source>)
    requires Distinct(order) && Elements(order) == {"/a", "/b", "/c"}
    ensures var r := FlattenInOrder(SimpleChain(), order);
      (forall s | s in r.0 :: r.0[s].target == "/final") && |r.1| == 2
  {
    var m := SimpleChain();
    var rank := SimpleChainRanked();
    FlattenInOrderOnAcyclic(m, rank, order);
    assert Partial(m, Elements(order)) == Flattened(m);
    SimpleChainMoves();
    ChangedInCount(m, order);
    assert MovedSources(m) * Elements(order) == MovedSources(m);
  }

  /** The index of the "two flatten" test: /a -> /b -> /f, and /c -> /e. */
  function TwoFlattenChains(): Index
  {
    map["/a" := Def("/a", "/b", RedirectionTypeAutomatic),
        "/b" := Def("/b", "/f", RedirectionTypeManual),
        "/c" := Def("/c", "/e", RedirectionTypeAutomatic)]
  }

  /**
   * One pass over /a -> /b -> /f and /c -> /e re-points /a at /f and
   * reports that redirect alone: /b and /c already end their chains.
   */
  lemma TwoFlattenChangesOne(order: seq<Source>)
    requires Distinct(order) && Elements(order) == {"/a", "/b", "/c"}
    ensures var r := FlattenInOrder(TwoFlattenChains(), order);
      r.0["/a"].target == "/f" && r.0["/b"].target == "/f" && r.0["/c"].target == "/e" && |r.1| == 1
  {
    var m := TwoFlattenChains();
    var rank := TwoFlattenRanked();
    FlattenInOrderOnAcyclic(m, rank, order);
    assert Partial(m, Elements(order)) == Flattened(m);
    TwoFlattenMoves();
    ChangedInCount(m, order);
    assert MovedSources(m) * Elements(order) == MovedSources(m);
  }

  lemma TwoFlattenRanked() returns (rank: map<string, nat>)
    ensures Ranked(TwoFlattenChains(), rank) && "" !in TwoFlattenChains() && TwoFlattenChains().Keys == {"/a", "/b", "/c"}
  {
    rank := map["/a" := 2, "/b" := 1, "/c" := 1];
  }

  lemma TwoFlattenMoves()
    ensures MovedSources(TwoFlattenChains()) == {"/a"}
    ensures var f := Flattened(TwoFlattenChains());
      f["/a"].target == "/f" && f["/b"].target == "/f" && f["/c"].target == "/e"
  {
    var m := TwoFlattenChains();
    assert ResolveSearch("/f", m, {"/b"}) == "/f";
    assert {} + {"/b"} == {"/b"};
    assert FinalTarget("/b", m) == "/f";
    assert FinalTarget("/f", m) == "/f";
    assert FinalTarget("/e", m) == "/e";
    assert MovedSources(m) == {"/a"};
  }

  /** The index of the "multiple sources" test: /a and /b both point at /c -> /final. */
  function SharedTargetChains(): Index
  {
    map["/a" := Def("/a", "/c", RedirectionTypeAutomatic),
        "/b" := Def("/b", "/c", RedirectionTypeManual),
        "/c" := Def("/c", "/final", RedirectionTypeAutomatic)]
  }

  /** One pass points /a, /b and /c at /final and reports two redirects: /c pointed there already. */
  lemma SharedTargetChangesTwo(order: seq<Source>)
    requires Distinct(order) && Elements(order) == {"/a", "/b", "/c"}
    ensures var r := FlattenInOrder(SharedTargetChains(), order);
      r.0["/a"].target == "/final" && r.0["/b"].target == "/final" && r.0["/c"].target == "/final" && |r.1| == 2
  {
    var m := SharedTargetChains();
    var rank := SharedTargetRanked();
    FlattenInOrderOnAcyclic(m, rank, order);
    assert Partial(m, Elements(order)) == Flattened(m);
    SharedTargetMoves();
    ChangedInCount(m, order);
    assert MovedSources(m) * Elements(order) == MovedSources(m);
  }

  lemma SharedTargetRanked() returns (rank: map<string, nat>)
    ensures Ranked(SharedTargetChains(), rank) && "" !in SharedTargetChains() && SharedTargetChains().Keys == {"/a", "/b", "/c"}
  {
    rank := map["/a" := 2, "/b" := 2, "/c" := 1];
  }

  lemma SharedTargetMoves()
    ensures MovedSources(SharedTargetChains()) == {"/a", "/b"}
    ensures forall s | s in Flattened(SharedTargetChains()) :: Flattened(SharedTargetChains())[s].target == "/final"
  {
    var m := SharedTargetChains();
    assert ResolveSearch("/final", m, {"/c"}) == "/final";
    assert {} + {"/c"} == {"/c"};
    assert FinalTarget("/c", m) == "/final";
    assert FinalTarget("/final", m) == "/final";
    assert MovedSources(m) == {"/a", "/b"};
  }

  /**
   * A redirect stored under the empty source makes the pass depend on the
   * iteration order, although no chain loops: with /a -> "", "" -> /x and
   * /b -> /a, visiting /a before /b re-points /b at /x, and visiting /b
   * first leaves it at /a, since /a still has an empty target then.
   */
  lemma EmptySourceMakesOrderMatter()
    ensures var m := map["/a" := Def("/a", "", RedirectionTypeManual), "" := Def("", "/x", RedirectionTypeManual),
                         "/b" := Def("/b", "/a", RedirectionTypeManual)];
      Ranked(m, map["/a" := 0, "" := 0, "/b" := 1]) &&
      FlattenInOrder(m, ["", "/a", "/b"]).0["/b"].target == "/x" &&
      FlattenInOrder(m, ["", "/b", "/a"]).0["/b"].target == "/a"
  {
    var m := map["/a" := Def("/a", "", RedirectionTypeManual), "" := Def("", "/x", RedirectionTypeManual),
                 "/b" := Def("/b", "/a", RedirectionTypeManual)];
    assert FinalTarget("/x", m) == "/x";
    assert FlattenInOrder(m, [""]) == (m, []) by {
      assert [""][..0] == [];
    }
    assert ResolveSearch("/x", m, {""}) == "/x";
    assert {} + {""} == {""};
    assert FinalTarget("", m) == "/x";
    var m1 := m["/a" := m["/a"].(target := "/x")];
    assert ["", "/a"][..1] == [""];
    assert FlattenInOrder(m, ["", "/a"]).0 == m1;
    assert ResolveSearch("/x", m1, {"/a"}) == "/x";
    assert {} + {"/a"} == {"/a"};
    assert FinalTarget("/a", m1) == "/x";
    assert ["", "/a", "/b"][..2] == ["", "/a"];
    assert FinalTarget("/a", m) == "/a";
    assert ["", "/b"][..1] == [""];
    assert FlattenInOrder(m, ["", "/b"]).0 == m;
    assert ["", "/b", "/a"][..2] == ["", "/b"];
  }

  lemma SimpleChainRanked() returns (rank: map<string, nat>)
    ensures Ranked(SimpleChain(), rank) && "" !in SimpleChain() && SimpleChain().Keys == {"/a", "/b", "/c"}
  {
    rank := map["/a" := 3, "/b" := 2, "/c" := 1];
  }

  lemma SimpleChainMoves()
    ensures MovedSources(SimpleChain()) == {"/a", "/b"}
    ensures forall s | s in Flattened(SimpleChain()) :: Flattened(SimpleChain())[s].target == "/final"
  {
    var m := SimpleChain();
    assert FinalTarget("/final", m) == "/final";
    assert ResolveSearch("/final", m, {"/b", "/c"}) == "/final";
    assert {"/b"} + {"/c"} == {"/b", "/c"};
    assert ResolveSearch("/c", m, {"/b"}) == "/final";
    assert {} + {"/b"} == {"/b"};
    assert FinalTarget("/b", m) == "/final";
    assert ResolveSearch("/final", m, {"/c"}) == "/final";
    assert {} + {"/c"} == {"/c"};
    assert FinalTarget("/c", m) == "/final";
    assert MovedSources(m) == {"/a", "/b"};
  }

  /**
   * flattenRedirects over one dimension: each redirect, in map-iteration
   * order, is resolved against the dimension's index as rewritten so far and
   * re-pointed when that changes its target.
   */
  method FlattenDimension(m: Index) returns (m': Index, changed: seq<RedirectDefinition>, ghost order: seq<Source>)
    ensures Distinct(order) && Elements(order) == m.Keys
    ensures (m', changed) == FlattenInOrder(m, order)
  {
    m', changed, order := m, [], [];
    var remaining := m.Keys;
    while remaining != {}
      invariant Distinct(order) && remaining !! Elements(order)
      invariant remaining + Elements(order) == m.Keys
      invariant (m', changed) == FlattenInOrder(m, order)
      decreases remaining
    {
      var s :| s in remaining;
      var final := ResolveFinalTarget(m'[s].target, m');
      if final != m'[s].target {
        m' := m'[s := m'[s].(target := final)];
        changed := changed + [m'[s]];
      }
      remaining := remaining - {s};
      FlattenInOrderSnoc(m, order, s);
      DistinctSnoc(order, s);
      order := order + [s];
    }
  }

  /** Visiting one more source is one step of the pass, taken on the index as rewritten so far. */
  lemma FlattenInOrderSnoc(m: Index, order: seq<Source>, s: Source)
    ensures var prev := FlattenInOrder(m, order);
      FlattenInOrder(m, order + [s]) ==
        if s in prev.0 && FinalTarget(prev.0[s].target, prev.0) != prev.0[s].target then
          (prev.0[s := prev.0[s].(target := FinalTarget(prev.0[s].target, prev.0))],
           prev.1 + [prev.0[s].(target := FinalTarget(prev.0[s].target, prev.0))])
        else prev
  {
    assert (order + [s])[..|order|] == order;
  }

  /** The whole store after the pass, each dimension visited in its own order. */
  function FlattenStore(all: map<Dimension, Index>, orders: map<Dimension, seq<Source>>): map<Dimension, Index>
  {
    map d | d in all :: if d in orders then FlattenInOrder(all[d], orders[d]).0 else all[d]
  }

  /** The redirects the pass reports, dimension after dimension in the order `dims`. */
  function ChangedAcross(all: map<Dimension, Index>, dims: seq<Dimension>, orders: map<Dimension, seq<Source>>): seq<RedirectDefinition>
  {
    if dims == [] then []
    else
      var d := dims[|dims| - 1];
      ChangedAcross(all, dims[..|dims| - 1], orders) +
        (if d in all && d in orders then FlattenInOrder(all[d], orders[d]).1 else [])
  }

  /** What a dimension not yet visited is given as its order does not matter to the earlier ones. */
  lemma {:induction false} ChangedAcrossFrame(all: map<Dimension, Index>, dims: seq<Dimension>, orders: map<Dimension, seq<Source>>, d: Dimension, o: seq<Source>)
    requires d !in dims
    ensures ChangedAcross(all, dims, orders[d := o]) == ChangedAcross(all, dims, orders)
  {
    if dims != [] {
      ChangedAcrossFrame(all, dims[..|dims| - 1], orders, d, o);
    }
  }

  lemma ChangedAcrossStep(all: map<Dimension, Index>, dims: seq<Dimension>, orders: map<Dimension, seq<Source>>, d: Dimension, o: seq<Source>)
    requires d !in dims && d in all
    ensures ChangedAcross(all, dims + [d], orders[d := o]) == ChangedAcross(all, dims, orders) + FlattenInOrder(all[d], o).1
  {
    ChangedAcrossFrame(all, dims, orders, d, o);
    assert (dims + [d])[..|dims|] == dims;
  }

  /** Orders that visit every redirect of every dimension once. */
  ghost predicate CoveringOrders(all: map<Dimension, Index>, orders: map<Dimension, seq<Source>>)
  {
    all.Keys <= orders.Keys &&
    forall d | d in all :: Distinct(orders[d]) && Elements(orders[d]) == all[d].Keys
  }

  /** Each dimension that has an order is visited once per redirect. */
  ghost predicate OrdersCover(all: map<Dimension, Index>, orders: map<Dimension, seq<Source>>)
  {
    forall d | d in orders :: d in all && Distinct(orders[d]) && Elements(orders[d]) == all[d].Keys
  }

  /** Everything the flattenRedirects loop keeps, once `remaining` dimensions are still to do. */
  ghost predicate FlattenLoop(all: map<Dimension, Index>, remaining: set<Dimension>, dims: seq<Dimension>,
                              orders: map<Dimension, seq<Source>>, flattened: seq<RedirectDefinition>)
  {
    Distinct(dims) && remaining !! Elements(dims) && remaining + Elements(dims) == all.Keys &&
    orders.Keys == Elements(dims) && OrdersCover(all, orders) &&
    flattened == ChangedAcross(all, dims, orders)
  }

  lemma FlattenStep(all: map<Dimension, Index>, remaining: set<Dimension>, dims: seq<Dimension>,
                    orders: map<Dimension, seq<Source>>, flattened: seq<RedirectDefinition>,
                    d: Dimension, order: seq<Source>, changed: seq<RedirectDefinition>)
    requires FlattenLoop(all, remaining, dims, orders, flattened) && d in remaining
    requires Distinct(order) && Elements(order) == all[d].Keys && changed == FlattenInOrder(all[d], order).1
    ensures FlattenLoop(all, remaining - {d}, dims + [d], orders[d := order], flattened + changed)
  {
    ChangedAcrossStep(all, dims, orders, d, order);
    DistinctSnoc(dims, d);
    OrdersCoverStep(all, orders, d, order);
  }

  lemma OrdersCoverStep(all: map<Dimension, Index>, orders: map<Dimension, seq<Source>>, d: Dimension, order: seq<Source>)
    requires OrdersCover(all, orders) && d in all
    requires Distinct(order) && Elements(order) == all[d].Keys
    ensures OrdersCover(all, orders[d := order]) && orders[d := order].Keys == orders.Keys + {d}
  {
  }

  lemma FlattenDone(all: map<Dimension, Index>, dims: seq<Dimension>,
                    orders: map<Dimension, seq<Source>>, flattened: seq<RedirectDefinition>)
    requires FlattenLoop(all, {}, dims, orders, flattened)
    ensures Distinct(dims) && Elements(dims) == all.Keys
    ensures CoveringOrders(all, orders)
  {
  }

  /**
   * flattenRedirects: every dimension in map-iteration order, each resolved
   * against its own index only. The rewritten indexes are not returned: the
   * caller only writes back the reported redirects.
   */
  method FlattenRedirects(all: map<Dimension, Index>)
    returns (flattened: seq<RedirectDefinition>,
             ghost dims: seq<Dimension>, ghost orders: map<Dimension, seq<Source>>)
    ensures Distinct(dims) && Elements(dims) == all.Keys
    ensures CoveringOrders(all, orders)
    ensures flattened == ChangedAcross(all, dims, orders)
  {
    flattened, dims, orders := [], [], map[];
    var remaining := all.Keys;
    while remaining != {}
      invariant FlattenLoop(all, remaining, dims, orders, flattened)
      decreases remaining
    {
      var d :| d in remaining;
      var _, changed, order := FlattenDimension(all[d]);
      FlattenStep(all, remaining, dims, orders, flattened, d, order, changed);
      orders := orders[d := order];
      flattened := flattened + changed;
      remaining := remaining - {d};
      dims := dims + [d];
    }
    FlattenDone(all, dims, orders, flattened);
  }

  /** A pass over a store whose dimensions are all flat reports nothing. */
  lemma {:induction false} FlatStoreReportsNothing(all: map<Dimension, Index>, dims: seq<Dimension>, orders: map<Dimension, seq<Source>>)
    requires forall d | d in all :: Flat(all[d])
    ensures ChangedAcross(all, dims, orders) == []
  {
    if dims != [] {
      FlatStoreReportsNothing(all, dims[..|dims| - 1], orders);
      var d := dims[|dims| - 1];
      if d in all && d in orders {
        FlatIsFixedPoint(all[d], orders[d]);
      }
    }
  }

  /**
   * Over a store whose dimensions are acyclic, a second flattening pass, in
   * any iteration order, reports no redirect: running the pass twice in a row
   * writes nothing the second time.
   */
  lemma FlattenStoreIdempotent(all: map<Dimension, Index>, orders: map<Dimension, seq<Source>>,
                               dims2: seq<Dimension>, orders2: map<Dimension, seq<Source>>)
    requires forall d | d in all :: Acyclic(all[d]) && "" !in all[d]
    requires CoveringOrders(all, orders)
    ensures forall d | d in all :: FlattenStore(all, orders)[d] == Flattened(all[d])
    ensures ChangedAcross(FlattenStore(all, orders), dims2, orders2) == []
  {
    var after := FlattenStore(all, orders);
    forall d | d in all
      ensures after[d] == Flattened(all[d]) && Flat(after[d])
    {
      var rank :| Ranked(all[d], rank);
      FlattenInOrderOnAcyclic(all[d], rank, orders[d]);
      FlattenedIsFlat(all[d], rank);
    }
    FlatStoreReportsNothing(after, dims2, orders2);
  }

  /**
   * applyFlattening: reads the active redirects, flattens them and writes back
   * only the changed ones; nothing is written when nothing changed, and a read
   * or write failure is returned.
   */
  method ApplyFlattening(repo: Backend.Backend)
    returns (err: Option<string>, ghost flattened: seq<RedirectDefinition>)
    modifies repo
    ensures repo.failing == old(repo.failing)
    ensures Backend.FindAllOp in repo.failing ==>
      err == Some(Backend.StoreUnavailable) && repo.calls == old(repo.calls) + [Backend.FindAll(true)]
    ensures Backend.FindAllOp in repo.failing || flattened == [] ==> repo.redirects == old(repo.redirects)
    ensures flattened != [] ==>
      repo.redirects == if Backend.UpsertManyOp in repo.failing then old(repo.redirects)
                        else Backend.Upserted(old(repo.redirects), flattened)
    ensures Backend.FindAllOp !in repo.failing ==>
      (exists dims, orders ::
        var active := Backend.Selected(old(repo.redirects), true);
        Distinct(dims) && Elements(dims) == active.Keys && CoveringOrders(active, orders) &&
        flattened == ChangedAcross(active, dims, orders)) &&
      (flattened == [] ==> err == None && repo.calls == old(repo.calls) + [Backend.FindAll(true)]) &&
      (flattened != [] ==>
        repo.calls == old(repo.calls) + [Backend.FindAll(true), Backend.UpsertMany(flattened)] &&
        err == (if Backend.UpsertManyOp in repo.failing then Some(Backend.StoreUnavailable) else None))
  {
    flattened := [];
    var all := repo.FindAll(true);
    if all.Err? {
      return Some(all.error), flattened;
    }
    var changed, dims, orders := FlattenRedirects(all.value);
    flattened := changed;
    if |changed| == 0 {
      return None, flattened;
    }
    err := repo.UpsertMany(changed);
    assert repo.calls == old(repo.calls) + [Backend.FindAll(true)] + [Backend.UpsertMany(flattened)];
  }
}
