/** Structural equality of living-trade genes: gene types and children lists, recursively;
    parent links are not compared. */
module Equality {
  import opened Trees
  import opened Arena
  import opened Gene

  /** `==`: equal gene types, equally long children lists, and pairwise equal children in
      order. Two genes are equal exactly when their structural views are the same tree. */
  function Equal(a: Nodes, x: NodeId, ghost tx: Tree, y: NodeId, ghost ty: Tree): (r: bool)
    requires Realizes(a, x, tx) && Realizes(a, y, ty)
    ensures r <==> tx == ty
    decreases tx
  {
    a[x].geneType == a[y].geneType && EqualForest(a, a[x].children, tx.children, a[y].children, ty.children)
  }

  /** Array equality on two children lists. */
  function EqualForest(a: Nodes, xs: seq<NodeId>, ghost txs: seq<Tree>, ys: seq<NodeId>, ghost tys: seq<Tree>): (r: bool)
    requires RealizesAll(a, xs, txs) && RealizesAll(a, ys, tys)
    ensures r <==> txs == tys
    decreases txs
  {
    && |xs| == |ys|
    && (xs == [] ||
         (Equal(a, xs[0], txs[0], ys[0], tys[0]) && EqualForest(a, xs[1..], txs[1..], ys[1..], tys[1..])))
  }

  /** Every gene equals itself. */
  lemma EqualReflexive(a: Nodes, x: NodeId, tx: Tree)
    requires Realizes(a, x, tx)
    ensures Equal(a, x, tx, x, tx)
  {
  }

  /** Equality does not depend on the order of its operands. */
  lemma EqualSymmetric(a: Nodes, x: NodeId, tx: Tree, y: NodeId, ty: Tree)
    requires Realizes(a, x, tx) && Realizes(a, y, ty)
    ensures Equal(a, x, tx, y, ty) == Equal(a, y, ty, x, tx)
  {
  }

  /** Two genes are equal exactly when their encodings are. */
  lemma EqualIffSameEncoding(a: Nodes, x: NodeId, tx: Tree, y: NodeId, ty: Tree)
    requires Realizes(a, x, tx) && Realizes(a, y, ty)
    ensures Equal(a, x, tx, y, ty) <==> Encode(a, x, tx) == Encode(a, y, ty)
  {
  }

  /** Rewriting any one parent link changes no equality between genes. */
  lemma {:induction false} EqualIgnoresParents(a: Nodes, k: NodeId, p: Option<NodeId>, x: NodeId, tx: Tree, y: NodeId, ty: Tree)
    requires k in a && Realizes(a, x, tx) && Realizes(a, y, ty)
    ensures var b := a[k := a[k].(parent := p)];
      Realizes(b, x, tx) && Realizes(b, y, ty) && Equal(b, x, tx, y, ty) == Equal(a, x, tx, y, ty)
  {
    var b := a[k := a[k].(parent := p)];
    ShapeFrame(a, b, x, tx);
    ShapeFrame(a, b, y, ty);
  }

  /** A deep copy is equal to its source, and the source is still in place afterwards. */
  lemma {:induction false} CopyEqualsSource(h: Heap, id: NodeId, t: Tree, withParent: Option<NodeId>)
    requires h.Valid() && Realizes(h.nodes, id, t)
    ensures var c := Copy(h, id, t, withParent);
      Realizes(c.heap.nodes, id, t) && Realizes(c.heap.nodes, c.root, t)
      && c.root != id && Equal(c.heap.nodes, c.root, t, id, t)
  {
    var c := Copy(h, id, t, withParent);
    AllNodesFacts(h.nodes, id, t);
    SubtreeFrame(h.nodes, c.heap.nodes, id, t);
  }
}
