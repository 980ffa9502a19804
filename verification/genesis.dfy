/** `random(onlyNonLeaf:depth:parent:template:)`: recursive random generation of a gene
    tree whose child counts follow each drawn type's arity, under a depth budget.

    Every `randomElement()` is an index drawn from the oracle stream `pick`, reduced modulo
    the length of the list it samples; `pos` is the position of the next unused draw. */
module Genesis {
  import opened GeneTypes
  import opened Trees
  import opened Arena

  /** A generated tree and the position of the next unused draw. */
  datatype Drawn = Drawn(tree: Tree, next: nat)

  /** A generated gene placed in the heap, and the position of the next unused draw. */
  datatype Generated = Generated(placed: Placed, next: nat)

  /** `randomElement()!` on a non-empty list. */
  function Pick(s: seq<GeneType>, choice: nat): (g: GeneType)
    requires |s| > 0
    ensures g in s
  {
    s[choice % |s|]
  }

  /** The list the top-level draw samples. */
  function RootTypes(tpl: TypeLists, onlyNonLeaf: bool): seq<GeneType> {
    if onlyNonLeaf then tpl.NonLeafTypes() else tpl.AllTypes()
  }

  /** Every type the recursive draws can return passes one of the three classification
      tests; the source stops with a fatal error on any other type. */
  predicate Classified(v: Vocabulary, tpl: TypeLists, onlyNonLeaf: bool) {
    forall g :: g in RootTypes(tpl, onlyNonLeaf) ==> !v.Unclassified(g)
  }

  /** The leaf list holds only types that are classified as neither binary nor unary. */
  predicate LeafListIsLeaves(v: Vocabulary, tpl: TypeLists) {
    forall g :: g in tpl.leafTypes ==> !v.isBinaryType(g) && !v.isUnaryType(g)
  }

  /** Every `randomElement()!` the generator can reach succeeds: the top-level list is
      non-empty, and the leaf list is non-empty unless no type of the top-level list takes
      children. */
  predicate CanDraw(v: Vocabulary, tpl: TypeLists, onlyNonLeaf: bool) {
    && |RootTypes(tpl, onlyNonLeaf)| > 0
    && (|tpl.leafTypes| > 0 || forall g :: g in RootTypes(tpl, onlyNonLeaf) ==> v.Arity(g) == 0)
  }

  /** A childless gene of a type drawn from the leaf list. */
  predicate IsLeafDraw(tpl: TypeLists, t: Tree) {
    t.children == [] && t.geneType in tpl.leafTypes
  }

  /** The shape `random` gives every gene it draws recursively, at any depth: a type from
      `types`; a binary type has two children, leaf draws at depth 1 and trees of this shape
      one level shallower otherwise; a unary type has one leaf-draw child; any other type
      has no children. */
  predicate Shaped(v: Vocabulary, tpl: TypeLists, types: seq<GeneType>, depth: int, t: Tree)
    decreases t
  {
    && t.geneType in types
    && if v.isBinaryType(t.geneType) then
         && |t.children| == 2
         && (if depth == 1 then IsLeafDraw(tpl, t.children[0]) && IsLeafDraw(tpl, t.children[1])
             else Shaped(v, tpl, types, depth - 1, t.children[0]) && Shaped(v, tpl, types, depth - 1, t.children[1]))
       else if v.isUnaryType(t.geneType) then
         |t.children| == 1 && IsLeafDraw(tpl, t.children[0])
       else
         t.children == []
  }

  function LeafGene(tpl: TypeLists, pick: nat -> nat, pos: nat): (t: Tree)
    requires |tpl.leafTypes| > 0
    ensures IsLeafDraw(tpl, t) && Size(t) == 1 && Height(t) == 1
  {
    Tree(Pick(tpl.leafTypes, pick(pos)), [])
  }

  /** The structural part of `random`: draws a type; a binary type gets two children,
      leaves drawn from the leaf list at depth 1 and recursively generated trees of depth
      `depth - 1` otherwise; a unary type gets one leaf child; a leaf type gets none. */
  function GenerateTree(v: Vocabulary, tpl: TypeLists, onlyNonLeaf: bool, depth: int, pick: nat -> nat, pos: nat): (r: Drawn)
    requires CanDraw(v, tpl, onlyNonLeaf) && depth >= 1 && Classified(v, tpl, onlyNonLeaf)
    ensures r.next == pos + Size(r.tree)
    ensures |r.tree.children| == v.Arity(r.tree.geneType)
    ensures Shaped(v, tpl, RootTypes(tpl, onlyNonLeaf), depth, r.tree)
    ensures Height(r.tree) <= depth + 1
    ensures LeafListIsLeaves(v, tpl) ==> AritiesMatch(v, r.tree)
    decreases depth
  {
    var g := Pick(RootTypes(tpl, onlyNonLeaf), pick(pos));
    if v.isBinaryType(g) then
      if depth == 1 then
        var t := Tree(g, [LeafGene(tpl, pick, pos + 1), LeafGene(tpl, pick, pos + 2)]);
        PairFacts(t);
        Drawn(t, pos + 3)
      else
        var left := GenerateTree(v, tpl, onlyNonLeaf, depth - 1, pick, pos + 1);
        var right := GenerateTree(v, tpl, onlyNonLeaf, depth - 1, pick, left.next);
        var t := Tree(g, [left.tree, right.tree]);
        PairFacts(t);
        Drawn(t, right.next)
    else if v.isUnaryType(g) then
      var t := Tree(g, [LeafGene(tpl, pick, pos + 1)]);
      SingleFacts(t);
      Drawn(t, pos + 2)
    else if v.isLeafType(g) then
      Drawn(Tree(g, []), pos + 1)
    else
      assert false;
      Drawn(Tree(g, []), pos)
  }

  lemma PairFacts(t: Tree)
    requires |t.children| == 2
    ensures Size(t) == 1 + Size(t.children[0]) + Size(t.children[1])
    ensures Height(t) == 1 + (if Height(t.children[0]) < Height(t.children[1]) then Height(t.children[1]) else Height(t.children[0]))
  {
    var c := t.children;
    assert c[1..] == [c[1]] && c[1..][1..] == [];
    assert ForestSize(c[1..]) == Size(c[1]) + ForestSize([]);
    assert ForestSize(c) == Size(c[0]) + ForestSize(c[1..]);
    assert ForestHeight(c[1..]) == Height(c[1]);
  }

  lemma SingleFacts(t: Tree)
    requires |t.children| == 1
    ensures Size(t) == 1 + Size(t.children[0])
    ensures Height(t) == 1 + Height(t.children[0])
  {
    var c := t.children;
    assert c[1..] == [];
    assert ForestSize(c) == Size(c[0]) + ForestSize([]);
    assert ForestHeight(c) == Height(c[0]);
  }

  /** `random`: the generated tree placed in the heap as fresh genes, the root's parent being
      `parent` and every created child's parent the gene that created it. */
  function Random(v: Vocabulary, tpl: TypeLists, h: Heap, onlyNonLeaf: bool, depth: int, parent: Option<NodeId>, pick: nat -> nat, pos: nat): (r: Generated)
    requires h.Valid() && CanDraw(v, tpl, onlyNonLeaf) && depth >= 1 && Classified(v, tpl, onlyNonLeaf)
    ensures var t := GenerateTree(v, tpl, onlyNonLeaf, depth, pick, pos).tree;
      && Grows(h, r.placed.heap)
      && Linked(r.placed.heap.nodes, r.placed.root, t)
      && r.placed.heap.nodes[r.placed.root].parent == parent
      && (forall k :: k in AllNodes(r.placed.heap.nodes, r.placed.root, t) ==> k !in h.nodes)
      && r.next == pos + Size(t)
  {
    var d := GenerateTree(v, tpl, onlyNonLeaf, depth, pick, pos);
    var p := Build(h, d.tree, parent);
    Generated(p, d.next)
  }
}
