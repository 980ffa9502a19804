/** The structural view of a gene tree: gene types and ordered children, without parent
    links. This is also the record a gene is encoded to, `{geneType, children}`. */
module Trees {
  import opened GeneTypes

  datatype Tree = Tree(geneType: GeneType, children: seq<Tree>)

  /** Number of nodes. */
  function Size(t: Tree): nat
    decreases t
  {
    1 + ForestSize(t.children)
  }

  function ForestSize(ts: seq<Tree>): nat
    decreases ts
  {
    if ts == [] then 0 else Size(ts[0]) + ForestSize(ts[1..])
  }

  /** Number of nodes on the longest root-to-leaf path. */
  function Height(t: Tree): nat
    decreases t
  {
    1 + ForestHeight(t.children)
  }

  function ForestHeight(ts: seq<Tree>): nat
    decreases ts
  {
    if ts == [] then 0
    else var h := Height(ts[0]); var rest := ForestHeight(ts[1..]); if h < rest then rest else h
  }

  /** The subtrees in pre-order: the tree itself, then each child's listing in order.
      The listing holds one entry per node and starts with the tree itself. */
  function PreOrder(t: Tree): (r: seq<Tree>)
    ensures |r| == Size(t) && r[0] == t
    decreases t
  {
    [t] + ForestPreOrder(t.children)
  }

  function ForestPreOrder(ts: seq<Tree>): (r: seq<Tree>)
    ensures |r| == ForestSize(ts)
    decreases ts
  {
    if ts == [] then [] else PreOrder(ts[0]) + ForestPreOrder(ts[1..])
  }

  /** The subtrees in post-order: each child's listing in order, then the tree itself.
      The listing holds one entry per node and ends with the tree itself. */
  function PostOrder(t: Tree): (r: seq<Tree>)
    ensures |r| == Size(t) && r[|r| - 1] == t
    decreases t
  {
    ForestPostOrder(t.children) + [t]
  }

  function ForestPostOrder(ts: seq<Tree>): (r: seq<Tree>)
    ensures |r| == ForestSize(ts)
    decreases ts
  {
    if ts == [] then [] else PostOrder(ts[0]) + ForestPostOrder(ts[1..])
  }

  /** Every node has exactly as many children as its type's `childCount`. */
  predicate ChildCountsMatch(v: Vocabulary, t: Tree)
    decreases t
  {
    |t.children| == v.childCount(t.geneType)
    && forall i :: 0 <= i < |t.children| ==> ChildCountsMatch(v, t.children[i])
  }

  /** Every node has the number of children its classification calls for. */
  predicate AritiesMatch(v: Vocabulary, t: Tree)
    decreases t
  {
    |t.children| == v.Arity(t.geneType)
    && forall i :: 0 <= i < |t.children| ==> AritiesMatch(v, t.children[i])
  }
}
