/**
 * Deriving automatic redirects from two versions of the content tree
 * (utils/autocreateredirectdefinitions.go): pages are matched by id, and a
 * page whose URI changed yields a permanent redirect from its old URI to its
 * new one.
 */
module AutoCreate {
  import opened Wrappers
  import opened Store
  import opened Content
  import opened Collections

  /** The error returned when either tree is missing or empty. */
  const NilArguments: string := "calling auto create difference with nil arguments"

  /**
   * CreateFlatRepoNodeMap on a tree: every page ends up under its id; a key
   * the tree does not use keeps what `nodeMap` held.
   */
  method AddTree(n: RepoNode, nodeMap: map<string, RepoNode>) returns (r: map<string, RepoNode>)
    ensures r.Keys == nodeMap.Keys + Ids(n)
    ensures forall k | k in r :: if k in Ids(n) then r[k].id == k && InTree(r[k], n) else r[k] == nodeMap[k]
    decreases n
  {
    r := nodeMap[n.id := n];
    var remaining := n.nodes.Keys;
    ghost var done: set<string> := {};
    AddedRoot(n, nodeMap);
    while remaining != {}
      invariant remaining + done == n.nodes.Keys && remaining !! done
      invariant Added(n, nodeMap, {n.id} + ChildIds(n, done), r)
      decreases remaining
    {
      var c :| c in remaining;
      var child := n.nodes[c];
      ghost var before := r;
      r := AddTree(child, r);
      AddedChild(n, nodeMap, {n.id} + ChildIds(n, done), c, Ids(child), before, r);
      ChildIdsAdd(n, done, c);
      remaining := remaining - {c};
      done := done + {c};
    }
    assert done == n.nodes.Keys;
  }

  /** The root alone, filed under its id, starts the walk. */
  lemma AddedRoot(n: RepoNode, nodeMap: map<string, RepoNode>)
    ensures Added(n, nodeMap, {n.id} + ChildIds(n, {}), nodeMap[n.id := n])
  {
    assert ChildIds(n, {}) == {};
  }

  /** `r` is `nodeMap` with every page of `n` whose id is in `ids` filed under its id. */
  ghost predicate Added(n: RepoNode, nodeMap: map<string, RepoNode>, ids: set<string>, r: map<string, RepoNode>)
  {
    r.Keys == nodeMap.Keys + ids &&
    forall k | k in r :: if k in ids then r[k].id == k && InTree(r[k], n) else r[k] == nodeMap[k]
  }

  /** Filing the pages of one more child, whose ids are `childIds`, keeps Added with those ids added. */
  lemma AddedChild(n: RepoNode, nodeMap: map<string, RepoNode>, ids: set<string>, c: string, childIds: set<string>,
                   before: map<string, RepoNode>, r: map<string, RepoNode>)
    requires c in n.nodes
    requires Added(n, nodeMap, ids, before)
    requires r.Keys == before.Keys + childIds
    requires forall k | k in r :: if k in childIds then r[k].id == k && InTree(r[k], n.nodes[c]) else r[k] == before[k]
    ensures Added(n, nodeMap, ids + childIds, r)
  {
    forall k | k in r && k in childIds
      ensures InTree(r[k], n)
    {
      InChildIsInTree(r[k], n, c);
    }
  }

  /** The ids below one more child are that child's ids. */
  lemma ChildIdsAdd(n: RepoNode, done: set<string>, c: string)
    requires c in n.nodes
    ensures ChildIds(n, done + {c}) == ChildIds(n, done) + Ids(n.nodes[c])
  {
  }

  /** CreateFlatRepoNodeMap: a missing tree leaves the map as it was. */
  method CreateFlatRepoNodeMap(node: Option<RepoNode>, nodeMap: map<string, RepoNode>) returns (r: map<string, RepoNode>)
    ensures node.None? ==> r == nodeMap
    ensures node.Some? ==> r.Keys == nodeMap.Keys + Ids(node.value)
    ensures node.Some? ==> forall k | k in r ::
      if k in Ids(node.value) then r[k].id == k && InTree(r[k], node.value) else r[k] == nodeMap[k]
    ensures nodeMap == map[] ==> FlatMapOf(node, r)
  {
    if node.None? {
      return nodeMap;
    }
    r := AddTree(node.value, nodeMap);
  }

  /** `m` is what CreateFlatRepoNodeMap makes of `node` starting from an empty map. */
  ghost predicate FlatMapOf(node: Option<RepoNode>, m: map<string, RepoNode>)
  {
    match node
    case None => m == map[]
    case Some(n) => m.Keys == Ids(n) && forall k | k in m :: m[k].id == k && InTree(m[k], n)
  }

  /** A flat map is empty exactly when there is no tree: a tree holds at least its root. */
  lemma FlatMapEmptyIffNoTree(node: Option<RepoNode>, m: map<string, RepoNode>)
    requires FlatMapOf(node, m)
    ensures |m| == 0 <==> node.None?
  {
    if node.Some? {
      assert node.value.id in m;
    }
  }

  /** The ids of the pages present in both maps under different URIs. */
  function Moved(oldMap: map<string, RepoNode>, newMap: map<string, RepoNode>): set<string>
  {
    set id | id in newMap && id in oldMap && oldMap[id].uri != newMap[id].uri
  }

  /** The redirect derived for a moved page. */
  function MoveRedirect(oldMap: map<string, RepoNode>, newMap: map<string, RepoNode>, id: string,
                        dimension: Dimension, entityId: EntityID): RedirectDefinition
    requires id in oldMap && id in newMap
  {
    RedirectDefinition(entityId, id, oldMap[id].uri, newMap[id].uri, RedirectCodePermanent,
      true, true, RedirectionTypeAutomatic, dimension, false)
  }

  /**
   * AutoCreateRedirectDefinitions: fails when either map is empty; otherwise
   * one redirect per moved page, in map-iteration order `order`. `freshIds`
   * stands for the entity-id generator: the j-th redirect takes `freshIds(j)`.
   */
  method AutoCreateRedirectDefinitions(oldMap: map<string, RepoNode>, newMap: map<string, RepoNode>,
                                       dimension: Dimension, freshIds: nat -> EntityID)
    returns (r: Result<seq<RedirectDefinition>, string>, ghost order: seq<string>)
    ensures r.Err? <==> |oldMap| == 0 || |newMap| == 0
    ensures r.Err? ==> r.error == NilArguments
    ensures r.Ok? ==>
      Distinct(order) && Elements(order) == Moved(oldMap, newMap) &&
      |r.value| == |order| &&
      forall j | 0 <= j < |order| ::
        order[j] in oldMap && order[j] in newMap &&
        r.value[j] == MoveRedirect(oldMap, newMap, order[j], dimension, freshIds(j))
  {
    order := [];
    if |oldMap| == 0 || |newMap| == 0 {
      return Err(NilArguments), order;
    }
    var redirects: seq<RedirectDefinition> := [];
    var remaining := newMap.Keys;
    while remaining != {}
      invariant remaining <= newMap.Keys
      invariant Distinct(order)
      invariant Elements(order) == Moved(oldMap, newMap) - remaining
      invariant |redirects| == |order|
      invariant forall j | 0 <= j < |order| ::
        order[j] in oldMap && order[j] in newMap &&
        redirects[j] == MoveRedirect(oldMap, newMap, order[j], dimension, freshIds(j))
      decreases remaining
    {
      var id :| id in remaining;
      if id in oldMap && oldMap[id].uri != newMap[id].uri {
        redirects := redirects + [MoveRedirect(oldMap, newMap, id, dimension, freshIds(|redirects|))];
        assert Elements(order + [id]) == Elements(order) + {id};
        order := order + [id];
        assert Moved(oldMap, newMap) - (remaining - {id}) == Moved(oldMap, newMap) - remaining + {id};
      } else {
        assert Moved(oldMap, newMap) - (remaining - {id}) == Moved(oldMap, newMap) - remaining;
      }
      remaining := remaining - {id};
    }
    return Ok(redirects), order;
  }

  /** A map-iteration order with each moved page once yields one redirect per moved page. */
  lemma CountOfDerivedRedirects(oldMap: map<string, RepoNode>, newMap: map<string, RepoNode>, order: seq<string>)
    requires Distinct(order) && Elements(order) == Moved(oldMap, newMap)
    ensures |order| == |Moved(oldMap, newMap)|
  {
    DistinctCard(order);
  }

  function Page(id: string, uri: string): RepoNode
  {
    RepoNode(id, uri, map[])
  }

  /** The flat map of the old tree of the "cover all" test (the pages' children are irrelevant to `Moved`). */
  function CoverAllOld(): map<string, RepoNode>
  {
    map["1" := Page("1", "/main"), "2" := Page("2", "/main/herren"),
        "3" := Page("3", "/main/damen/kleidung"), "4" := Page("4", "/main/damen/kleidung/schuhe"),
        "5" := Page("5", "/main/damen/kleidung/roecke"), "6" := Page("6", "/main/kinder"),
        "7" := Page("7", "/main/kinder/schuhe"), "8" := Page("8", "/main/sport")]
  }

  /** The flat map of the new tree of the "cover all" test: 5 and 8 deleted, 4, 6 and 7 moved. */
  function CoverAllNew(): map<string, RepoNode>
  {
    map["1" := Page("1", "/main"), "2" := Page("2", "/main/herren"),
        "7" := Page("7", "/main/herren/schuhe"), "3" := Page("3", "/main/damen/kleidung"),
        "4" := Page("4", "/main/damen/kleidung/schuhe-new"), "6" := Page("6", "/main/kinder-new")]
  }

  /** Deleted pages yield nothing; the three moved pages yield three redirects. */
  lemma CoverAllMovesThreePages()
    ensures Moved(CoverAllOld(), CoverAllNew()) == {"4", "6", "7"}
    ensures |Moved(CoverAllOld(), CoverAllNew())| == 3
  {
    var o, n := CoverAllOld(), CoverAllNew();
    assert n.Keys == {"1", "2", "3", "4", "6", "7"};
    assert o["4"].uri != n["4"].uri && o["6"].uri != n["6"].uri && o["7"].uri != n["7"].uri;
    assert o["1"].uri == n["1"].uri && o["2"].uri == n["2"].uri && o["3"].uri == n["3"].uri;
  }

  /**
   * The trees of the "two renamed leaves" test: /main with /main/herren and
   * /main/damen/kleidung, whose leaves 4 and 5 are at `uri4` and `uri5`.
   */
  function LeavesTree(uri4: string, uri5: string): RepoNode
  {
    RepoNode("1", "/main", map["2" := Page("2", "/main/herren"),
      "3" := RepoNode("3", "/main/damen/kleidung", map["4" := Page("4", uri4), "5" := Page("5", uri5)])])
  }

  /** Every page of the test's tree is one of its five pages. */
  lemma LeavesTreePages(uri4: string, uri5: string, x: RepoNode)
    requires InTree(x, LeavesTree(uri4, uri5))
    ensures x.id in {"1", "2", "3", "4", "5"}
    ensures x.id == "1" ==> x.uri == "/main"
    ensures x.id == "2" ==> x.uri == "/main/herren"
    ensures x.id == "3" ==> x.uri == "/main/damen/kleidung"
    ensures x.id == "4" ==> x.uri == uri4
    ensures x.id == "5" ==> x.uri == uri5
  {
    var t := LeavesTree(uri4, uri5);
    var n3 := t.nodes["3"];
    if x != t {
      var k :| k in t.nodes && InTree(x, t.nodes[k]);
      if k == "3" && x != n3 {
        var j :| j in n3.nodes && InTree(x, n3.nodes[j]);
        assert x == n3.nodes[j];
      } else if k == "2" {
        assert x == t.nodes["2"];
      }
    }
  }

  /** Pages 4 and 5 are in the test's tree. */
  lemma LeavesTreeIds(uri4: string, uri5: string)
    ensures "4" in Ids(LeavesTree(uri4, uri5)) && "5" in Ids(LeavesTree(uri4, uri5))
  {
    var t := LeavesTree(uri4, uri5);
    var n3 := t.nodes["3"];
    assert "4" in Ids(n3.nodes["4"]) && "5" in Ids(n3.nodes["5"]);
    assert "4" in ChildIds(n3, n3.nodes.Keys) && "5" in ChildIds(n3, n3.nodes.Keys);
    assert "4" in Ids(n3) && "5" in Ids(n3);
    assert "4" in ChildIds(t, t.nodes.Keys) && "5" in ChildIds(t, t.nodes.Keys);
  }

  /** Flattening two versions of the tree: exactly the leaves whose URI changed have moved. */
  lemma LeavesMoved(u4: string, u5: string, v4: string, v5: string,
                    oldMap: map<string, RepoNode>, newMap: map<string, RepoNode>)
    requires FlatMapOf(Some(LeavesTree(u4, u5)), oldMap) && FlatMapOf(Some(LeavesTree(v4, v5)), newMap)
    requires u4 != v4 && u5 != v5
    ensures Moved(oldMap, newMap) == {"4", "5"}
  {
    LeavesTreeIds(u4, u5);
    LeavesTreeIds(v4, v5);
    forall id | id in oldMap && id in newMap
      ensures oldMap[id].uri != newMap[id].uri <==> id == "4" || id == "5"
    {
      LeavesTreePages(u4, u5, oldMap[id]);
      LeavesTreePages(v4, v5, newMap[id]);
    }
    assert "4" in oldMap && "4" in newMap && "5" in oldMap && "5" in newMap;
  }

  /**
   * The "two renamed leaves" test: whatever CreateFlatRepoNodeMap makes of
   * its two trees, exactly pages 4 and 5 moved, so two redirects are derived.
   */
  lemma TwoRenamedLeavesMoveTwo(oldMap: map<string, RepoNode>, newMap: map<string, RepoNode>)
    requires FlatMapOf(Some(LeavesTree("/main/damen/kleidung/schuhe", "/main/damen/kleidung/schuhe-1")), oldMap)
    requires FlatMapOf(Some(LeavesTree("/main/damen/kleidung/schuhe-new", "/main/damen/kleidung/schuhe-1-new")), newMap)
    ensures Moved(oldMap, newMap) == {"4", "5"}
    ensures |Moved(oldMap, newMap)| == 2
  {
    LeavesMoved("/main/damen/kleidung/schuhe", "/main/damen/kleidung/schuhe-1",
                "/main/damen/kleidung/schuhe-new", "/main/damen/kleidung/schuhe-1-new", oldMap, newMap);
  }

  /**
   * Two trees made of one empty page each are not "missing": they flatten to
   * one-entry maps and yield no redirect, where absent trees are an error.
   */
  lemma EmptyRootsMoveNothing()
    ensures var flat := map["" := RepoNode("", "", map[])];
      |flat| != 0 && Moved(flat, flat) == {}
  {
  }
}
