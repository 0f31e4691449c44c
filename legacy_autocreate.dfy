/**
 * The older automatic redirects (domain/redirectdefinition/
 * autocreateredirectdefinitions.go): the old and the new page tree are walked
 * together, child by child under the same key; a page whose URI changed
 * yields a redirect from its old URI to its new one, a child missing under
 * its new parent is looked up by id anywhere in the new tree, and a parent
 * that lost children emits tombstones (an empty target).
 *
 * Go visits a map's entries in no fixed order. The walk is given that
 * order as `order`, which lists the keys of every map of children it is
 * applied to; the properties below hold for every such order.
 */
module LegacyAutoCreate {
  import opened Wrappers
  import opened Store
  import opened Content
  import opened Collections

  const NilError: string := "calling auto create difference with nil arg"

  /** The order in which a map of child pages is visited. */
  type Order = map<string, RepoNode> -> seq<string>

  /** `order` lists the keys of every map of children, each once. */
  ghost predicate ValidOrder(order: Order)
  {
    forall m: map<string, RepoNode> :: Elements(order(m)) == m.Keys && Distinct(order(m))
  }

  /** The definition the walk appends: only a source and a target. */
  function Pair(source: string, target: string): RedirectDefinition
  {
    RedirectDefinition("", "", source, target, 0, false, false, "", "", false)
  }

  /** Some redirect of `acc` starts at `uri`. */
  predicate SourceIn(acc: seq<RedirectDefinition>, uri: string)
  {
    exists i | 0 <= i < |acc| :: acc[i].source == uri
  }

  // ---------------------------------------------------------------------------
  // FindNodeById and GetAllNodes

  /** FindNodeById: the root if it has the id, else the first hit among its children's subtrees. */
  function FindById(root: RepoNode, id: string, order: Order): Option<RepoNode>
    decreases root, 1
  {
    if root.id == id then Some(root) else FindInChildren(root, order(root.nodes), id, order)
  }

  function FindInChildren(root: RepoNode, keys: seq<string>, id: string, order: Order): Option<RepoNode>
    decreases root, 0, |keys|
  {
    if keys == [] then None
    else
      var hit := if keys[0] in root.nodes then FindById(root.nodes[keys[0]], id, order) else None;
      if hit.Some? then hit else FindInChildren(root, keys[1..], id, order)
  }

  /**
   * A page that is found has the id and lies in the tree; nothing is found
   * exactly when no page of the tree has the id.
   */
  lemma {:induction false} FindByIdMeaning(root: RepoNode, id: string, order: Order)
    requires ValidOrder(order)
    ensures FindById(root, id, order).Some? ==> FindById(root, id, order).value.id == id && InTree(FindById(root, id, order).value, root)
    ensures FindById(root, id, order).None? <==> id !in Ids(root)
    decreases root, 1
  {
    if root.id != id {
      var keys := order(root.nodes);
      FindInChildrenMeaning(root, keys, id, order);
      assert Elements(keys) == root.nodes.Keys;
      if id in Ids(root) {
        assert id in ChildIds(root, root.nodes.Keys);
        var k :| k in root.nodes && id in Ids(root.nodes[k]);
        assert k in Elements(keys);
      }
    }
  }

  lemma {:induction false} FindInChildrenMeaning(root: RepoNode, keys: seq<string>, id: string, order: Order)
    requires ValidOrder(order)
    ensures FindInChildren(root, keys, id, order).Some? ==>
      FindInChildren(root, keys, id, order).value.id == id && InTree(FindInChildren(root, keys, id, order).value, root)
    ensures FindInChildren(root, keys, id, order).None? <==>
      forall k | k in keys && k in root.nodes :: id !in Ids(root.nodes[k])
    decreases root, 0, |keys|
  {
    if keys != [] {
      FindInChildrenMeaning(root, keys[1..], id, order);
      if keys[0] in root.nodes {
        FindByIdMeaning(root.nodes[keys[0]], id, order);
        var hit := FindById(root.nodes[keys[0]], id, order);
        if hit.Some? {
          InChildIsInTree(hit.value, root, keys[0]);
        }
      }
      assert forall k | k in keys :: k == keys[0] || k in keys[1..];
    }
  }

  /** FindNodeById, with the loop over the children that returns at the first hit. */
  method FindNodeById(root: RepoNode, id: string, order: Order) returns (found: Option<RepoNode>)
    decreases root
    ensures found == FindById(root, id, order)
  {
    if root.id == id {
      return Some(root);
    }
    var keys := order(root.nodes);
    var i := 0;
    while i < |keys|
      invariant i <= |keys|
      invariant FindInChildren(root, keys, id, order) == FindInChildren(root, keys[i..], id, order)
    {
      assert keys[i..][1..] == keys[i + 1..];
      if keys[i] in root.nodes {
        var hit := FindNodeById(root.nodes[keys[i]], id, order);
        if hit.Some? {
          return hit;
        }
      }
      i := i + 1;
    }
    return None;
  }

  /** GetAllNodes for a page: `list`, then the page, then the pages below each child in turn. */
  function AllNodes(node: RepoNode, order: Order, list: seq<RepoNode>): seq<RepoNode>
    decreases node, 1
  {
    ChildrenNodes(node, order(node.nodes), order, list + [node])
  }

  function ChildrenNodes(node: RepoNode, keys: seq<string>, order: Order, list: seq<RepoNode>): seq<RepoNode>
    decreases node, 0, |keys|
  {
    if keys == [] then list
    else ChildrenNodes(node, keys[1..], order, if keys[0] in node.nodes then AllNodes(node.nodes[keys[0]], order, list) else list)
  }

  /** GetAllNodes keeps the list it was given in front and adds exactly the pages of the tree. */
  lemma {:induction false} AllNodesMeaning(node: RepoNode, order: Order, list: seq<RepoNode>)
    requires ValidOrder(order)
    ensures |AllNodes(node, order, list)| > |list| && AllNodes(node, order, list)[..|list|] == list
    ensures AllNodes(node, order, list)[|list|] == node
    ensures forall x :: x in AllNodes(node, order, list) <==> x in list || InTree(x, node)
    decreases node, 1
  {
    var keys := order(node.nodes);
    ChildrenNodesMeaning(node, keys, order, list + [node]);
    assert Elements(keys) == node.nodes.Keys;
    assert (list + [node])[..|list|] == list;
    forall x | InTree(x, node)
      ensures x == node || exists k | k in keys && k in node.nodes :: InTree(x, node.nodes[k])
    {
      if x != node {
        var k :| k in node.nodes && InTree(x, node.nodes[k]);
        assert k in Elements(keys);
      }
    }
    forall x | x in AllNodes(node, order, list) && x !in list
      ensures InTree(x, node)
    {
      if x != node {
        var k :| k in keys && k in node.nodes && InTree(x, node.nodes[k]);
        InChildIsInTree(x, node, k);
      }
    }
  }

  lemma {:induction false} ChildrenNodesMeaning(node: RepoNode, keys: seq<string>, order: Order, list: seq<RepoNode>)
    requires ValidOrder(order)
    ensures |ChildrenNodes(node, keys, order, list)| >= |list| && ChildrenNodes(node, keys, order, list)[..|list|] == list
    ensures forall x :: x in ChildrenNodes(node, keys, order, list) <==>
      x in list || exists k | k in keys && k in node.nodes :: InTree(x, node.nodes[k])
    decreases node, 0, |keys|
  {
    if keys != [] {
      var next := if keys[0] in node.nodes then AllNodes(node.nodes[keys[0]], order, list) else list;
      if keys[0] in node.nodes {
        AllNodesMeaning(node.nodes[keys[0]], order, list);
      }
      ChildrenNodesMeaning(node, keys[1..], order, next);
      assert next[..|list|] == list;
      assert forall k | k in keys :: k == keys[0] || k in keys[1..];
    }
  }

  /** GetAllNodes for one page, with the loop over its children. */
  method AddAllNodes(node: RepoNode, order: Order, list: seq<RepoNode>) returns (nodesList: seq<RepoNode>)
    decreases node
    ensures nodesList == AllNodes(node, order, list)
  {
    nodesList := list + [node];
    var keys := order(node.nodes);
    ghost var start := nodesList;
    var i := 0;
    while i < |keys|
      invariant i <= |keys|
      invariant ChildrenNodes(node, keys, order, start) == ChildrenNodes(node, keys[i..], order, nodesList)
    {
      assert keys[i..][1..] == keys[i + 1..];
      if keys[i] in node.nodes {
        nodesList := AddAllNodes(node.nodes[keys[i]], order, nodesList);
      }
      i := i + 1;
    }
  }

  /** GetAllNodes: a nil page adds nothing. */
  method GetAllNodes(node: Option<RepoNode>, order: Order, list: seq<RepoNode>) returns (nodesList: seq<RepoNode>)
    ensures nodesList == if node.None? then list else AllNodes(node.value, order, list)
  {
    if node.None? {
      return list;
    }
    nodesList := AddAllNodes(node.value, order, list);
  }

  // ---------------------------------------------------------------------------
  // The walk, as written

  /**
   * generateRedirects on a pair of pages, appending to `acc`: the redirect
   * for the pair, those of the paired children, then the tombstones when
   * the new page has fewer children.
   */
  function Generated(oldNode: RepoNode, newNode: RepoNode, newTree: RepoNode, order: Order, acc: seq<RedirectDefinition>): seq<RedirectDefinition>
    decreases oldNode, 1
  {
    var moved := if oldNode.uri != newNode.uri then acc + [Pair(oldNode.uri, newNode.uri)] else acc;
    var paired := GeneratedChildren(oldNode, newNode, newTree, order, order(oldNode.nodes), moved);
    if |newNode.nodes| < |oldNode.nodes| then Tombstones(oldNode, newNode, order(oldNode.nodes), false, paired) else paired
  }

  /** The first loop: each old child against the new child under its key, or against its id's page in the new tree. */
  function GeneratedChildren(oldNode: RepoNode, newNode: RepoNode, newTree: RepoNode, order: Order, keys: seq<string>,
                             acc: seq<RedirectDefinition>): seq<RedirectDefinition>
    decreases oldNode, 0, |keys|
  {
    if keys == [] then acc
    else
      var key := keys[0];
      var next :=
        if key !in oldNode.nodes then acc
        else if key in newNode.nodes then Generated(oldNode.nodes[key], newNode.nodes[key], newTree, order, acc)
        else
          match FindById(newTree, key, order)
          case Some(found) => Generated(oldNode.nodes[key], found, newTree, order, acc)
          case None => acc;
      GeneratedChildren(oldNode, newNode, newTree, order, keys[1..], next)
  }

  /**
   * The tombstone loop as written: `found` is shared by all children and
   * never reset; it becomes true at the first removed child that some
   * redirect already starts from, and until then every child, kept or
   * removed, gets a tombstone.
   */
  function Tombstones(oldNode: RepoNode, newNode: RepoNode, keys: seq<string>, found: bool,
                      acc: seq<RedirectDefinition>): seq<RedirectDefinition>
    decreases |keys|
  {
    if keys == [] then acc
    else if keys[0] !in oldNode.nodes then Tombstones(oldNode, newNode, keys[1..], found, acc)
    else
      var uri := oldNode.nodes[keys[0]].uri;
      var nowFound := found || (keys[0] !in newNode.nodes && SourceIn(acc, uri));
      Tombstones(oldNode, newNode, keys[1..], nowFound, if nowFound then acc else acc + [Pair(uri, "")])
  }

  /** A page and its copy produce no redirect at all: unchanged content needs no redirect. */
  lemma {:induction false} UnchangedTreeEmitsNothing(node: RepoNode, newTree: RepoNode, order: Order, acc: seq<RedirectDefinition>)
    ensures Generated(node, node, newTree, order, acc) == acc
    decreases node, 1
  {
    UnchangedChildrenEmitNothing(node, newTree, order, order(node.nodes), acc);
  }

  lemma {:induction false} UnchangedChildrenEmitNothing(node: RepoNode, newTree: RepoNode, order: Order, keys: seq<string>,
                                                        acc: seq<RedirectDefinition>)
    ensures GeneratedChildren(node, node, newTree, order, keys, acc) == acc
    decreases node, 0, |keys|
  {
    if keys != [] {
      if keys[0] in node.nodes {
        UnchangedTreeEmitsNothing(node.nodes[keys[0]], newTree, order, acc);
      }
      UnchangedChildrenEmitNothing(node, newTree, order, keys[1..], acc);
    }
  }

  /** Some page of `tree` has `uri` as its URI. */
  ghost predicate UriIn(uri: string, tree: RepoNode)
  {
    exists x :: InTree(x, tree) && x.uri == uri
  }

  /**
   * The walk only appends, the pair's own redirect (when its URI changed)
   * comes first, and every redirect it appends starts at the URI of a page
   * of the old tree.
   */
  lemma {:induction false} GeneratedAppends(oldNode: RepoNode, newNode: RepoNode, newTree: RepoNode, order: Order, acc: seq<RedirectDefinition>)
    ensures var r := Generated(oldNode, newNode, newTree, order, acc);
      |r| >= |acc| && r[..|acc|] == acc &&
      (oldNode.uri != newNode.uri ==> |r| > |acc| && r[|acc|] == Pair(oldNode.uri, newNode.uri)) &&
      forall i | |acc| <= i < |r| :: UriIn(r[i].source, oldNode)
    decreases oldNode, 1
  {
    var moved := if oldNode.uri != newNode.uri then acc + [Pair(oldNode.uri, newNode.uri)] else acc;
    assert InTree(oldNode, oldNode);
    var paired := GeneratedChildren(oldNode, newNode, newTree, order, order(oldNode.nodes), moved);
    ChildrenAppend(oldNode, newNode, newTree, order, order(oldNode.nodes), moved);
    TombstonesAppend(oldNode, newNode, order(oldNode.nodes), false, paired);
    assert moved[..|acc|] == acc;
    assert paired[..|moved|] == moved;
    var r := Generated(oldNode, newNode, newTree, order, acc);
    assert r[..|paired|] == paired;
    forall i | |acc| <= i < |r|
      ensures UriIn(r[i].source, oldNode)
    {
      if i < |moved| {
        assert r[i] == moved[i] == Pair(oldNode.uri, newNode.uri);
      } else if i < |paired| {
        assert r[i] == paired[i];
      }
    }
  }

  lemma {:induction false} ChildrenAppend(oldNode: RepoNode, newNode: RepoNode, newTree: RepoNode, order: Order, keys: seq<string>,
                                         acc: seq<RedirectDefinition>)
    ensures var r := GeneratedChildren(oldNode, newNode, newTree, order, keys, acc);
      |r| >= |acc| && r[..|acc|] == acc && forall i | |acc| <= i < |r| :: UriIn(r[i].source, oldNode)
    decreases oldNode, 0, |keys|
  {
    if keys != [] {
      var key := keys[0];
      var next :=
        if key !in oldNode.nodes then acc
        else if key in newNode.nodes then Generated(oldNode.nodes[key], newNode.nodes[key], newTree, order, acc)
        else
          match FindById(newTree, key, order)
          case Some(found) => Generated(oldNode.nodes[key], found, newTree, order, acc)
          case None => acc;
      if key in oldNode.nodes {
        ChildUrisInTree(oldNode, key);
        if key in newNode.nodes {
          GeneratedAppends(oldNode.nodes[key], newNode.nodes[key], newTree, order, acc);
        } else if FindById(newTree, key, order).Some? {
          GeneratedAppends(oldNode.nodes[key], FindById(newTree, key, order).value, newTree, order, acc);
        }
      }
      assert |next| >= |acc| && next[..|acc|] == acc && forall i | |acc| <= i < |next| :: UriIn(next[i].source, oldNode);
      ChildrenAppend(oldNode, newNode, newTree, order, keys[1..], next);
      var r := GeneratedChildren(oldNode, newNode, newTree, order, keys[1..], next);
      assert r[..|next|] == next;
      forall i | |acc| <= i < |r|
        ensures UriIn(r[i].source, oldNode)
      {
        if i < |next| {
          assert r[i] == next[i];
        }
      }
    }
  }

  /** A URI of a child's subtree is a URI of the parent's tree. */
  lemma ChildUrisInTree(node: RepoNode, key: string)
    requires key in node.nodes
    ensures forall u :: UriIn(u, node.nodes[key]) ==> UriIn(u, node)
  {
    forall u | UriIn(u, node.nodes[key])
      ensures UriIn(u, node)
    {
      var x :| InTree(x, node.nodes[key]) && x.uri == u;
      InChildIsInTree(x, node, key);
    }
  }

  lemma {:induction false} TombstonesAppend(oldNode: RepoNode, newNode: RepoNode, keys: seq<string>, found: bool, acc: seq<RedirectDefinition>)
    ensures var r := Tombstones(oldNode, newNode, keys, found, acc);
      |r| >= |acc| && r[..|acc|] == acc && forall i | |acc| <= i < |r| :: UriIn(r[i].source, oldNode)
    decreases |keys|
  {
    if keys != [] {
      if keys[0] in oldNode.nodes {
        var child := oldNode.nodes[keys[0]];
        var nowFound := found || (keys[0] !in newNode.nodes && SourceIn(acc, child.uri));
        var next := if nowFound then acc else acc + [Pair(child.uri, "")];
        assert InTree(child, child);
        InChildIsInTree(child, oldNode, keys[0]);
        TombstonesAppend(oldNode, newNode, keys[1..], nowFound, next);
        var r := Tombstones(oldNode, newNode, keys[1..], nowFound, next);
        assert r[..|next|] == next;
        assert next[..|acc|] == acc;
        forall i | |acc| <= i < |r|
          ensures UriIn(r[i].source, oldNode)
        {
          if i < |next| {
            assert r[i] == next[i] == Pair(child.uri, "");
          }
        }
      } else {
        TombstonesAppend(oldNode, newNode, keys[1..], found, acc);
      }
    }
  }

  /** AutoCreateRedirectDefinitions: an error for a missing tree, else the walk from the two roots. */
  function AutoCreated(oldRoot: Option<RepoNode>, newRoot: Option<RepoNode>, order: Order): (r: Result<seq<RedirectDefinition>, string>)
  {
    if oldRoot.None? || newRoot.None? then Err(NilError)
    else Ok(Generated(oldRoot.value, newRoot.value, newRoot.value, order, []))
  }

  /**
   * A missing tree is an error; otherwise the root's redirect, when its URI
   * changed, comes first, every redirect starts at a URI of the old tree,
   * and two identical trees give no redirect.
   */
  lemma AutoCreatedMeaning(oldRoot: Option<RepoNode>, newRoot: Option<RepoNode>, order: Order)
    ensures AutoCreated(oldRoot, newRoot, order).Err? <==> oldRoot.None? || newRoot.None?
    ensures AutoCreated(oldRoot, newRoot, order).Ok? ==>
      var r := AutoCreated(oldRoot, newRoot, order).value;
      (oldRoot.value.uri != newRoot.value.uri ==> r != [] && r[0] == Pair(oldRoot.value.uri, newRoot.value.uri)) &&
      (forall i | 0 <= i < |r| :: UriIn(r[i].source, oldRoot.value)) &&
      (oldRoot == newRoot ==> r == [])
  {
    if oldRoot.Some? && newRoot.Some? {
      GeneratedAppends(oldRoot.value, newRoot.value, newRoot.value, order, []);
      if oldRoot == newRoot {
        UnchangedTreeEmitsNothing(oldRoot.value, newRoot.value, order, []);
      }
    }
  }

  // ---------------------------------------------------------------------------
  // The tombstone loop, as evidently intended

  /**
   * The tombstone loop with the check done per child: a removed child gets
   * a tombstone exactly when no redirect starts at its URI yet; a kept
   * child never gets one.
   */
  function IntendedTombstones(oldNode: RepoNode, newNode: RepoNode, keys: seq<string>, acc: seq<RedirectDefinition>): seq<RedirectDefinition>
    decreases |keys|
  {
    if keys == [] then acc
    else if keys[0] !in oldNode.nodes || keys[0] in newNode.nodes then IntendedTombstones(oldNode, newNode, keys[1..], acc)
    else
      var uri := oldNode.nodes[keys[0]].uri;
      IntendedTombstones(oldNode, newNode, keys[1..], if SourceIn(acc, uri) then acc else acc + [Pair(uri, "")])
  }

  /** The URIs of the children of `oldNode` listed in `keys` that `newNode` no longer has. */
  function RemovedUris(oldNode: RepoNode, newNode: RepoNode, keys: seq<string>): set<string>
  {
    set k | k in keys && k in oldNode.nodes && k !in newNode.nodes :: oldNode.nodes[k].uri
  }

  /**
   * After the intended loop every removed child's URI has a redirect
   * starting at it, and everything the loop appended is a tombstone for a
   * removed child.
   */
  lemma {:induction false} IntendedTombstonesMeaning(oldNode: RepoNode, newNode: RepoNode, keys: seq<string>, acc: seq<RedirectDefinition>)
    ensures var r := IntendedTombstones(oldNode, newNode, keys, acc);
      |r| >= |acc| && r[..|acc|] == acc &&
      (forall u | u in RemovedUris(oldNode, newNode, keys) :: SourceIn(r, u)) &&
      (forall i | |acc| <= i < |r| :: r[i] == Pair(r[i].source, "") && r[i].source in RemovedUris(oldNode, newNode, keys))
    decreases |keys|
  {
    if keys != [] {
      var next :=
        if keys[0] !in oldNode.nodes || keys[0] in newNode.nodes then acc
        else if SourceIn(acc, oldNode.nodes[keys[0]].uri) then acc
        else acc + [Pair(oldNode.nodes[keys[0]].uri, "")];
      IntendedTombstonesMeaning(oldNode, newNode, keys[1..], next);
      var r := IntendedTombstones(oldNode, newNode, keys[1..], next);
      assert r == IntendedTombstones(oldNode, newNode, keys, acc);
      assert r[..|next|] == next && next[..|acc|] == acc;
      assert RemovedUris(oldNode, newNode, keys) ==
        RemovedUris(oldNode, newNode, keys[1..]) +
        (if keys[0] in oldNode.nodes && keys[0] !in newNode.nodes then {oldNode.nodes[keys[0]].uri} else {});
      if keys[0] in oldNode.nodes && keys[0] !in newNode.nodes {
        var j :| 0 <= j < |next| && next[j].source == oldNode.nodes[keys[0]].uri;
        assert r[j] == next[j];
      }
      forall i | |acc| <= i < |next|
        ensures r[i] == Pair(r[i].source, "") && r[i].source in RemovedUris(oldNode, newNode, keys)
      {
        assert r[i] == next[i];
      }
    }
  }

  function Leaf(id: string, uri: string): RepoNode
  {
    RepoNode(id, uri, map[])
  }

  /** A parent with the pages /a and /b ... */
  function ParentOfTwo(): RepoNode
  {
    RepoNode("r", "/", map["a" := Leaf("a", "/a"), "b" := Leaf("b", "/b")])
  }

  /** ... that keeps /a unchanged and loses /b. */
  function ParentOfOne(): RepoNode
  {
    RepoNode("r", "/", map["a" := Leaf("a", "/a")])
  }

  /** The two orders in which two keys can be visited. */
  lemma OrderOfTwo(keys: seq<string>)
    requires Elements(keys) == {"a", "b"} && Distinct(keys)
    ensures keys == ["a", "b"] || keys == ["b", "a"]
  {
    DistinctCard(keys);
    assert keys[0] in Elements(keys) && keys[1] in Elements(keys);
  }

  /**
   * As written, the kept, unchanged page /a gets a tombstone whichever
   * order the children are visited in, since no removed child has a
   * redirect yet when it is visited; the intended loop tombstones /b only.
   */
  lemma RetainedPageTombstoned(keys: seq<string>)
    requires keys == ["a", "b"] || keys == ["b", "a"]
    ensures "a" in ParentOfOne().nodes && ParentOfOne().nodes["a"] == ParentOfTwo().nodes["a"]
    ensures Pair("/a", "") in Tombstones(ParentOfTwo(), ParentOfOne(), keys, false, [])
    ensures IntendedTombstones(ParentOfTwo(), ParentOfOne(), keys, []) == [Pair("/b", "")]
  {
    var o := ParentOfTwo();
    var n := ParentOfOne();
    assert !SourceIn([], "/b");
    assert !SourceIn([Pair("/a", "")], "/b");
    assert o.nodes["a"].uri == "/a" && o.nodes["b"].uri == "/b";
    if keys == ["a", "b"] {
      assert keys[1..] == ["b"];
      assert Tombstones(o, n, keys, false, []) == Tombstones(o, n, ["b"], false, [Pair("/a", "")]);
      assert Tombstones(o, n, ["b"], false, [Pair("/a", "")]) == [Pair("/a", ""), Pair("/b", "")];
    } else {
      assert keys[1..] == ["a"];
      assert Tombstones(o, n, keys, false, []) == Tombstones(o, n, ["a"], false, [Pair("/b", "")]);
      assert Tombstones(o, n, ["a"], false, [Pair("/b", "")]) == [Pair("/b", ""), Pair("/a", "")];
      assert IntendedTombstones(o, n, ["a"], [Pair("/b", "")]) == [Pair("/b", "")];
    }
  }

  /** Neither child of the shrunk parent yields a redirect in the first loop: /a is unchanged and /b is nowhere. */
  lemma ShrunkParentChildrenEmitNothing(order: Order, keys: seq<string>)
    requires ValidOrder(order)
    requires keys == ["a", "b"] || keys == ["b", "a"]
    ensures GeneratedChildren(ParentOfTwo(), ParentOfOne(), ParentOfOne(), order, keys, []) == []
  {
    var o := ParentOfTwo();
    var n := ParentOfOne();
    assert n.nodes.Keys == {"a"} && Ids(n.nodes["a"]) == {"a"};
    assert "b" !in ChildIds(n, n.nodes.Keys);
    FindByIdMeaning(n, "b", order);
    assert n.nodes["a"] == o.nodes["a"];
    UnchangedTreeEmitsNothing(o.nodes["a"], n, order, []);
    assert GeneratedChildren(o, n, n, order, ["a"], []) == GeneratedChildren(o, n, n, order, [], []) == [];
    assert GeneratedChildren(o, n, n, order, ["b"], []) == GeneratedChildren(o, n, n, order, [], []) == [];
    assert keys[1..] == if keys[0] == "a" then ["b"] else ["a"];
  }

  /**
   * The whole walk, for any visiting order: the page /a, kept with the same
   * id and URI, is reported as deleted.
   */
  lemma RetainedPageTombstonedInWalk(order: Order)
    requires ValidOrder(order)
    ensures AutoCreated(Some(ParentOfTwo()), Some(ParentOfOne()), order).Ok?
    ensures Pair("/a", "") in AutoCreated(Some(ParentOfTwo()), Some(ParentOfOne()), order).value
  {
    var keys := order(ParentOfTwo().nodes);
    OrderOfTwo(keys);
    ShrunkParentChildrenEmitNothing(order, keys);
    RetainedPageTombstoned(keys);
  }

  /** The redirects collected by the walk: the slice the closure appends to. */
  class Walk {
    var redirects: seq<RedirectDefinition>
    const newTree: RepoNode
    const order: Order

    constructor (newTree: RepoNode, order: Order)
      ensures redirects == [] && this.newTree == newTree && this.order == order
    {
      this.newTree := newTree;
      this.order := order;
      redirects := [];
    }

    /** generateRedirects. */
    method Generate(oldNode: RepoNode, newNode: RepoNode)
      modifies this
      decreases oldNode
      ensures redirects == Generated(oldNode, newNode, newTree, order, old(redirects))
    {
      if oldNode.uri != newNode.uri {
        redirects := redirects + [Pair(oldNode.uri, newNode.uri)];
      }
      var keys := order(oldNode.nodes);
      ghost var moved := redirects;
      var i := 0;
      while i < |keys|
        invariant i <= |keys|
        invariant GeneratedChildren(oldNode, newNode, newTree, order, keys, moved) ==
                  GeneratedChildren(oldNode, newNode, newTree, order, keys[i..], redirects)
      {
        assert keys[i..][1..] == keys[i + 1..];
        var key := keys[i];
        if key in oldNode.nodes {
          if key in newNode.nodes {
            Generate(oldNode.nodes[key], newNode.nodes[key]);
          } else {
            var found := FindNodeById(newTree, key, order);
            if found.Some? {
              Generate(oldNode.nodes[key], found.value);
            }
          }
        }
        i := i + 1;
      }
      if |newNode.nodes| < |oldNode.nodes| {
        AddTombstones(oldNode, newNode, keys);
      }
    }

    /** The tombstone loop, with its shared `found` flag and the scan of the redirects so far. */
    method AddTombstones(oldNode: RepoNode, newNode: RepoNode, keys: seq<string>)
      modifies this
      ensures redirects == Tombstones(oldNode, newNode, keys, false, old(redirects))
    {
      var found := false;
      var i := 0;
      while i < |keys|
        invariant i <= |keys|
        invariant Tombstones(oldNode, newNode, keys, false, old(redirects)) == Tombstones(oldNode, newNode, keys[i..], found, redirects)
      {
        assert keys[i..][1..] == keys[i + 1..];
        var key := keys[i];
        if key in oldNode.nodes {
          var uri := oldNode.nodes[key].uri;
          if key !in newNode.nodes {
            ghost var before := found;
            var j := 0;
            while j < |redirects|
              invariant j <= |redirects|
              invariant found == (before || exists m | 0 <= m < j :: redirects[m].source == uri)
            {
              if redirects[j].source == uri {
                found := true;
                break;
              }
              j := j + 1;
            }
            assert found == (before || SourceIn(redirects, uri));
          }
          if !found {
            redirects := redirects + [Pair(uri, "")];
          }
        }
        i := i + 1;
      }
    }
  }

  /** AutoCreateRedirectDefinitions: the walk from the two roots, or the error for a missing one. */
  method AutoCreateRedirectDefinitions(oldRoot: Option<RepoNode>, newRoot: Option<RepoNode>, order: Order)
    returns (redirects: seq<RedirectDefinition>, err: Option<string>)
    ensures err.Some? <==> AutoCreated(oldRoot, newRoot, order).Err?
    ensures err.Some? ==> redirects == [] && err.value == NilError
    ensures err.None? ==> redirects == AutoCreated(oldRoot, newRoot, order).value
  {
    if oldRoot.None? || newRoot.None? {
      return [], Some(NilError);
    }
    var walk := new Walk(newRoot.value, order);
    walk.Generate(oldRoot.value, newRoot.value);
    return walk.redirects, None;
  }
}
