/** The content server's tree of pages, as the redirect commands see it. */
module Content {
  /** A page: its id, its URI and its child pages keyed by id. */
  datatype RepoNode = RepoNode(id: string, uri: string, nodes: map<string, RepoNode>)

  /** `x` is `root` or a page somewhere below it. */
  ghost predicate InTree(x: RepoNode, root: RepoNode)
    decreases root
  {
    x == root || exists k | k in root.nodes :: InTree(x, root.nodes[k])
  }

  /** The ids of the pages of the tree. */
  function Ids(n: RepoNode): set<string>
    decreases n, 1
  {
    {n.id} + ChildIds(n, n.nodes.Keys)
  }

  /** The ids of the pages below the children of `n` listed in `keys`. */
  function ChildIds(n: RepoNode, keys: set<string>): set<string>
    decreases n, 0
  {
    set k, i | k in keys && k in n.nodes && i in Ids(n.nodes[k]) :: i
  }

  /** Every page below a child is in the tree. */
  lemma InChildIsInTree(x: RepoNode, n: RepoNode, k: string)
    requires k in n.nodes && InTree(x, n.nodes[k])
    ensures InTree(x, n)
  {
  }
}
