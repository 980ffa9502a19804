/** The living-trade genome: a wrapper around a root gene with whole-tree mutation,
    crossover, deep copy and a raw-value view. */
module Genome {
  import opened GeneTypes
  import opened Trees
  import opened Arena
  import opened Gene
  import opened Equality

  datatype Genome = Genome(rootGene: NodeId)

  /** A genome together with the heap its genes live in. */
  datatype Held = Held(heap: Heap, genome: Genome)

  /** The two genomes crossover returns, and the heap their genes live in. */
  datatype Crossed = Crossed(heap: Heap, first: Genome, second: Genome)

  /** The deep copies crossover makes of both roots. */
  datatype Copies = Copies(heap: Heap, rootA: NodeId, rootB: NodeId)

  /** The deep copies and the gene crossover selects in each. */
  datatype Selection = Selection(copies: Copies, pickedA: NodeId, pickedB: NodeId)

  /** Applies gene `Mutate` to the genes `ids` in order, the `i`-th one with `draws(i)`. */
  function MutateInOrder(v: Vocabulary, h: Heap, ids: seq<NodeId>, rate: real, env: Environment, draws: nat -> MutationDraws): (r: Heap)
    requires h.Valid() && forall k :: k in ids ==> k in h.nodes
    ensures r.Valid() && h.next <= r.next
    ensures forall k :: k in r.nodes ==> k in h.nodes || h.next <= k
    ensures forall k :: k in h.nodes ==> k in r.nodes && r.nodes[k].parent == h.nodes[k].parent
    ensures forall k :: k in h.nodes && k !in ids ==> r.nodes[k] == h.nodes[k]
    ensures forall k :: k in h.nodes && h.nodes[k].parent.None? ==> r.nodes[k] == h.nodes[k]
    decreases |ids|
  {
    if ids == [] then h
    else
      var last := |ids| - 1;
      var prev := MutateInOrder(v, h, ids[..last], rate, env, draws);
      Mutate(v, prev, ids[last], rate, env, draws(last))
  }

  /** Mutating one more gene of the list extends the mutation of the prefix before it. */
  lemma MutateInOrderStep(v: Vocabulary, h: Heap, ids: seq<NodeId>, i: nat, rate: real, env: Environment, draws: nat -> MutationDraws)
    requires h.Valid() && (forall k :: k in ids ==> k in h.nodes) && i < |ids|
    ensures MutateInOrder(v, h, ids[..i + 1], rate, env, draws)
         == Mutate(v, MutateInOrder(v, h, ids[..i], rate, env, draws), ids[i], rate, env, draws(i))
  {
    assert ids[..i + 1][..i] == ids[..i];
  }

  /** `mutate(rate:environment:)`: every gene of the tree, as `bottomUpEnumerate` lists
      them, undergoes gene mutation. No existing gene's parent link changes, genes outside
      the tree are untouched, and a parentless root keeps its type and children. */
  method MutateGenome(v: Vocabulary, h: Heap, g: Genome, ghost t: Tree, rate: real, env: Environment, draws: nat -> MutationDraws)
    returns (r: Heap)
    requires h.Valid() && Realizes(h.nodes, g.rootGene, t)
    ensures r == MutateInOrder(v, h, BottomUp(h.nodes, g.rootGene, t), rate, env, draws)
    ensures r.Valid() && h.next <= r.next
    ensures forall k :: k in r.nodes ==> k in h.nodes || h.next <= k
    ensures forall k :: k in h.nodes ==> k in r.nodes && r.nodes[k].parent == h.nodes[k].parent
    ensures forall k :: k in h.nodes && k !in AllNodes(h.nodes, g.rootGene, t) ==> r.nodes[k] == h.nodes[k]
    ensures h.nodes[g.rootGene].parent.None? ==> r.nodes[g.rootGene] == h.nodes[g.rootGene]
  {
    var order := BottomUp(h.nodes, g.rootGene, t);
    AllNodesFacts(h.nodes, g.rootGene, t);
    r := h;
    var i := 0;
    while i < |order|
      invariant 0 <= i <= |order|
      invariant r == MutateInOrder(v, h, order[..i], rate, env, draws)
    {
      MutateInOrderStep(v, h, order, i, rate, env, draws);
      r := Mutate(v, r, order[i], rate, env, draws(i));
      i := i + 1;
    }
    assert order[..i] == order;
    MutateGenomeClose(v, h, g, t, rate, env, draws, r);
  }

  lemma MutateGenomeClose(v: Vocabulary, h: Heap, g: Genome, t: Tree, rate: real, env: Environment, draws: nat -> MutationDraws, r: Heap)
    requires h.Valid() && Realizes(h.nodes, g.rootGene, t)
    requires r == MutateInOrder(v, h, BottomUp(h.nodes, g.rootGene, t), rate, env, draws)
    ensures forall k :: k in h.nodes && k !in AllNodes(h.nodes, g.rootGene, t) ==> r.nodes[k] == h.nodes[k]
  {
    var order := BottomUp(h.nodes, g.rootGene, t);
    BottomUpFacts(h.nodes, g.rootGene, t);
    forall k | k in order
      ensures k in AllNodes(h.nodes, g.rootGene, t)
    {
      assert k in multiset(order);
    }
  }

  /** `c` holds deep copies of trees `ta` and `tb` made one after the other in `h`: each is
      linked, parentless and made of fresh genes, the first copy's genes before the second's. */
  predicate CopiedBoth(h: Heap, c: Copies, ta: Tree, tb: Tree) {
    && h.Valid() && Grows(h, c.heap) && c.heap.next == h.next + Size(ta) + Size(tb)
    && c.rootA == h.next && c.rootB == h.next + Size(ta)
    && Linked(c.heap.nodes, c.rootA, ta) && c.heap.nodes[c.rootA].parent == None
    && Linked(c.heap.nodes, c.rootB, tb) && c.heap.nodes[c.rootB].parent == None
    && AllNodes(c.heap.nodes, c.rootA, ta) == Range(h.next, h.next + Size(ta))
    && AllNodes(c.heap.nodes, c.rootB, tb) == Range(h.next + Size(ta), c.heap.next)
  }

  /** The deep copies `crossover` makes of both roots: copies of the two trees in the sense
      of `CopiedBoth`. */
  function CopyBoth(h: Heap, a: Genome, ghost ta: Tree, b: Genome, ghost tb: Tree): (c: Copies)
    requires h.Valid() && Realizes(h.nodes, a.rootGene, ta) && Realizes(h.nodes, b.rootGene, tb)
    ensures CopiedBoth(h, c, ta, tb)
  {
    var ca := Copy(h, a.rootGene, ta, None);
    AllNodesFacts(h.nodes, b.rootGene, tb);
    SubtreeFrame(h.nodes, ca.heap.nodes, b.rootGene, tb);
    var cb := Copy(ca.heap, b.rootGene, tb, None);
    var c := Copies(cb.heap, ca.root, cb.root);
    CopyBothClose(h, ca, cb, ta, tb, c);
    c
  }

  lemma CopyBothClose(h: Heap, ca: Placed, cb: Placed, ta: Tree, tb: Tree, c: Copies)
    requires h.Valid() && Grows(h, ca.heap) && Grows(ca.heap, cb.heap)
    requires ca.root == h.next && ca.heap.next == h.next + Size(ta)
    requires cb.root == ca.heap.next && cb.heap.next == ca.heap.next + Size(tb)
    requires Linked(ca.heap.nodes, ca.root, ta) && ca.heap.nodes[ca.root].parent == None
    requires Linked(cb.heap.nodes, cb.root, tb) && cb.heap.nodes[cb.root].parent == None
    requires AllNodes(ca.heap.nodes, ca.root, ta) == Range(h.next, ca.heap.next)
    requires AllNodes(cb.heap.nodes, cb.root, tb) == Range(ca.heap.next, cb.heap.next)
    requires c == Copies(cb.heap, ca.root, cb.root)
    ensures CopiedBoth(h, c, ta, tb)
  {
    AllNodesFacts(ca.heap.nodes, ca.root, ta);
    SubtreeFrame(ca.heap.nodes, cb.heap.nodes, ca.root, ta);
  }

  /** A gene listed in a linked, parentless copy has a parent exactly when it is not the
      first one listed (the copy's root), and that parent is listed too. */
  lemma PickedParent(n: Nodes, root: NodeId, t: Tree, i: nat)
    requires Linked(n, root, t) && n[root].parent == None && i < Size(t)
    ensures |AllNodes(n, root, t)| == Size(t)
    ensures var k := AllNodes(n, root, t)[i];
      k in n && (n[k].parent.Some? <==> i != 0)
      && (i != 0 ==> n[k].parent.value in AllNodes(n, root, t))
  {
    var l := AllNodes(n, root, t);
    AllNodesFacts(n, root, t);
    LinkedParentsInside(n, root, t);
    if i != 0 {
      assert l[i] in l[1..];
    }
  }

  /** `s` holds the two deep copies of `crossover` and the genes selected in them: the
      `ia`-th gene that the first copy's `allNodes` lists and the `ib`-th of the second. */
  predicate Selected(h: Heap, s: Selection, ta: Tree, tb: Tree, ia: nat, ib: nat) {
    && CopiedBoth(h, s.copies, ta, tb)
    && ia < Size(ta) && ib < Size(tb)
    && s.pickedA == h.next + ia && s.pickedB == h.next + Size(ta) + ib
  }

  /** The two deep copies and the gene selected in each, `allNodes[pick % count]`. */
  function Select(h: Heap, a: Genome, ghost ta: Tree, b: Genome, ghost tb: Tree, pickA: nat, pickB: nat): (s: Selection)
    requires h.Valid() && Realizes(h.nodes, a.rootGene, ta) && Realizes(h.nodes, b.rootGene, tb)
    ensures Selected(h, s, ta, tb, pickA % Size(ta), pickB % Size(tb))
  {
    var c := CopyBoth(h, a, ta, b, tb);
    var nodesA := AllNodes(c.heap.nodes, c.rootA, ta);
    var nodesB := AllNodes(c.heap.nodes, c.rootB, tb);
    var s := Selection(c, nodesA[pickA % |nodesA|], nodesB[pickB % |nodesB|]);
    SelectClose(h, s, ta, tb, pickA, pickB);
    s
  }

  lemma SelectClose(h: Heap, s: Selection, ta: Tree, tb: Tree, pickA: nat, pickB: nat)
    requires CopiedBoth(h, s.copies, ta, tb)
    requires var c := s.copies;
      && s.pickedA == AllNodes(c.heap.nodes, c.rootA, ta)[pickA % Size(ta)]
      && s.pickedB == AllNodes(c.heap.nodes, c.rootB, tb)[pickB % Size(tb)]
    ensures Selected(h, s, ta, tb, pickA % Size(ta), pickB % Size(tb))
  {
  }

  /** Both roots have more than one child, so crossover goes ahead once the draw allows. */
  predicate Crossable(h: Heap, a: Genome, b: Genome)
    requires a.rootGene in h.nodes && b.rootGene in h.nodes
  {
    |h.nodes[b.rootGene].children| > 1 && |h.nodes[a.rootGene].children| > 1
  }

  /** The parent rewrites and root reassignments of `crossover`, as written: both
      "original parents" are read from the first selection. A selection with a parent gets
      that parent written into its own and the other selection's parent link; if the first
      selection has no parent (it is its copy's root) the second result is the second
      selection's subtree. No children list is written: the first result is the copy of
      `a`, the second the copy of `b` or one of its subtrees, and only the second
      selection's parent link can change. The first result therefore stays linked. When the
      first selection is not its copy's root, the second selection's new parent is a gene of
      the first result's tree. */
  function Recombine(h: Heap, s: Selection, ghost ta: Tree, ghost tb: Tree, ghost ia: nat, ghost ib: nat): (r: Crossed)
    requires Selected(h, s, ta, tb, ia, ib)
    ensures r.heap.Valid() && r.heap.next == s.copies.heap.next
    ensures SameShape(s.copies.heap.nodes, r.heap.nodes)
    ensures forall k :: k in s.copies.heap.nodes && k != s.pickedB ==> r.heap.nodes[k] == s.copies.heap.nodes[k]
    ensures ia == 0 ==> r.heap.nodes == s.copies.heap.nodes
    ensures ia != 0 ==> s.pickedA in s.copies.heap.nodes && s.pickedB in r.heap.nodes
                        && r.heap.nodes[s.pickedB].parent == s.copies.heap.nodes[s.pickedA].parent
    ensures forall k :: k in h.nodes ==> k in r.heap.nodes && r.heap.nodes[k] == h.nodes[k]
    ensures r.first.rootGene == h.next && Linked(r.heap.nodes, r.first.rootGene, ta)
    ensures forall k :: k in AllNodes(r.heap.nodes, r.first.rootGene, ta) ==> k !in h.nodes
    ensures ia != 0 ==> r.second.rootGene == s.copies.rootB && Realizes(r.heap.nodes, r.second.rootGene, tb)
                        && forall k :: k in AllNodes(r.heap.nodes, r.second.rootGene, tb) ==> k !in h.nodes
    ensures ia == 0 ==> r.second.rootGene == s.pickedB && Linked(r.heap.nodes, r.second.rootGene, PreOrder(tb)[ib])
                        && forall k :: k in AllNodes(r.heap.nodes, r.second.rootGene, PreOrder(tb)[ib]) ==> k !in h.nodes
    ensures ia != 0 ==>
      && s.pickedB in r.heap.nodes
      && r.heap.nodes[s.pickedB].parent.Some?
      && r.heap.nodes[s.pickedB].parent.value in AllNodes(r.heap.nodes, r.first.rootGene, ta)
  {
    var c := s.copies;
    var n := c.heap.nodes;
    PickedParent(n, c.rootA, ta, ia);
    PickedParent(n, c.rootB, tb, ib);
    var originalParentA := n[s.pickedA].parent;
    var originalParentB := n[s.pickedA].parent;
    var n1 := if originalParentB.Some? then n[s.pickedA := n[s.pickedA].(parent := originalParentB)] else n;
    var secondRoot := if originalParentB.Some? then c.rootB else s.pickedB;
    var n2 := if originalParentA.Some? then n1[s.pickedB := n1[s.pickedB].(parent := originalParentA)] else n1;
    var firstRoot := if originalParentA.Some? then c.rootA else s.pickedA;
    CrossoverClose(h, s, ta, tb, ia, ib, n2, firstRoot, secondRoot);
    Crossed(Heap(n2, c.heap.next), Genome(firstRoot), Genome(secondRoot))
  }

  lemma CrossoverClose(h: Heap, s: Selection, ta: Tree, tb: Tree, ia: nat, ib: nat, m: Nodes, first: NodeId, second: NodeId)
    requires Selected(h, s, ta, tb, ia, ib)
    requires var n := s.copies.heap.nodes;
      s.pickedA in n && s.pickedB in n
      && (ia == 0 ==> m == n && first == s.pickedA && second == s.pickedB)
      && (ia != 0 ==> n[s.pickedA].parent.Some? && n[s.pickedA].parent.value in AllNodes(n, s.copies.rootA, ta)
                      && m == n[s.pickedB := n[s.pickedB].(parent := n[s.pickedA].parent)]
                      && first == s.copies.rootA && second == s.copies.rootB)
    ensures Heap(m, s.copies.heap.next).Valid()
    ensures SameShape(s.copies.heap.nodes, m)
    ensures forall k :: k in h.nodes ==> k in m && m[k] == h.nodes[k]
    ensures first == h.next && Linked(m, first, ta)
    ensures forall k :: k in AllNodes(m, first, ta) ==> k !in h.nodes
    ensures ia != 0 ==> Realizes(m, second, tb) && forall k :: k in AllNodes(m, second, tb) ==> k !in h.nodes
    ensures ia == 0 ==> Linked(m, second, PreOrder(tb)[ib])
                        && forall k :: k in AllNodes(m, second, PreOrder(tb)[ib]) ==> k !in h.nodes
    ensures ia != 0 ==> m[s.pickedB].parent.Some? && m[s.pickedB].parent.value in AllNodes(m, first, ta)
  {
    if ia == 0 {
      RootSelectedClose(h, s, ta, tb, ib);
    } else {
      InnerSelectedClose(h, s, ta, tb, ia, ib, m);
    }
  }

  /** Crossover when the first selection is its copy's root: nothing is written, and the
      second result is the second selection's subtree. */
  lemma RootSelectedClose(h: Heap, s: Selection, ta: Tree, tb: Tree, ib: nat)
    requires Selected(h, s, ta, tb, 0, ib)
    ensures var n := s.copies.heap.nodes;
      && Linked(n, s.copies.rootA, ta)
      && (forall k :: k in AllNodes(n, s.copies.rootA, ta) ==> k !in h.nodes)
      && Linked(n, s.pickedB, PreOrder(tb)[ib])
      && forall k :: k in AllNodes(n, s.pickedB, PreOrder(tb)[ib]) ==> k !in h.nodes
  {
    FreshRange(h, h.next, s.copies.heap.next);
    ListedSubtreeWithin(s.copies.heap.nodes, s.copies.rootB, tb, ib);
  }

  /** Crossover when the first selection is not its copy's root: only the second
      selection's parent is rewritten, so the first copy stays linked and both copies keep
      their shape. */
  lemma InnerSelectedClose(h: Heap, s: Selection, ta: Tree, tb: Tree, ia: nat, ib: nat, m: Nodes)
    requires Selected(h, s, ta, tb, ia, ib)
    requires var n := s.copies.heap.nodes;
      s.pickedA in n && s.pickedB in n && m == n[s.pickedB := n[s.pickedB].(parent := n[s.pickedA].parent)]
    ensures SameShape(s.copies.heap.nodes, m)
    ensures Linked(m, s.copies.rootA, ta)
    ensures AllNodes(m, s.copies.rootA, ta) == AllNodes(s.copies.heap.nodes, s.copies.rootA, ta)
    ensures forall k :: k in AllNodes(m, s.copies.rootA, ta) ==> k !in h.nodes
    ensures Realizes(m, s.copies.rootB, tb)
    ensures forall k :: k in AllNodes(m, s.copies.rootB, tb) ==> k !in h.nodes
  {
    var c := s.copies;
    var n := c.heap.nodes;
    FreshRange(h, h.next, c.heap.next);
    assert SameShape(n, m);
    ShapeFrame(n, m, c.rootB, tb);
    FirstCopyKept(h, c, ta, tb, m, s.pickedB);
  }

  /** Rewriting one gene of the second copy leaves the first copy as it was. */
  lemma FirstCopyKept(h: Heap, c: Copies, ta: Tree, tb: Tree, m: Nodes, p: NodeId)
    requires CopiedBoth(h, c, ta, tb) && h.next + Size(ta) <= p
    requires forall k :: k in c.heap.nodes && k != p ==> k in m && m[k] == c.heap.nodes[k]
    ensures Linked(m, c.rootA, ta)
    ensures AllNodes(m, c.rootA, ta) == Range(h.next, h.next + Size(ta))
  {
    var n := c.heap.nodes;
    AllNodesFacts(n, c.rootA, ta);
    SubtreeFrame(n, m, c.rootA, ta);
  }

  /** Ids at or above the counter are not in use. */
  lemma FreshRange(h: Heap, lo: nat, hi: nat)
    requires h.Valid() && h.next <= lo <= hi
    ensures forall k :: k in Range(lo, hi) ==> k !in h.nodes
  {
    forall k | k in Range(lo, hi)
      ensures k !in h.nodes
    {
      var i :| 0 <= i < |Range(lo, hi)| && Range(lo, hi)[i] == k;
    }
  }

  /** `crossover(with:rate:environment:)`, as written: unless the draw falls below `rate`
      and both roots have more than one child, the two genomes come back unchanged;
      otherwise both roots are deep-copied, one gene is selected in each copy and the
      parent links are rewritten as `Recombine` describes. Then the first result is a fresh,
      linked copy of `a`; the second is a fresh copy of `b`, or a fresh, linked copy of the
      selected subtree of it when the first selection is its copy's root. No existing gene
      is touched. */
  function Crossover(h: Heap, a: Genome, ghost ta: Tree, b: Genome, ghost tb: Tree, rate: real, draw: real, pickA: nat, pickB: nat): (r: Crossed)
    requires h.Valid() && Realizes(h.nodes, a.rootGene, ta) && Realizes(h.nodes, b.rootGene, tb)
    ensures !(draw < rate) ==> r == Crossed(h, a, b)
    ensures !Crossable(h, a, b) ==> r == Crossed(h, a, b)
    ensures r.heap.Valid() && h.next <= r.heap.next
    ensures forall k :: k in h.nodes ==> k in r.heap.nodes && r.heap.nodes[k] == h.nodes[k]
    ensures Realizes(r.heap.nodes, r.first.rootGene, ta)
    ensures draw < rate && Crossable(h, a, b) ==>
      && r.first.rootGene == h.next
      && Linked(r.heap.nodes, r.first.rootGene, ta)
      && r.second.rootGene !in h.nodes
      && (forall k :: k in AllNodes(r.heap.nodes, r.first.rootGene, ta) ==> k !in h.nodes)
      && (pickA % Size(ta) != 0 ==>
            && Realizes(r.heap.nodes, r.second.rootGene, tb)
            && forall k :: k in AllNodes(r.heap.nodes, r.second.rootGene, tb) ==> k !in h.nodes)
      && (pickA % Size(ta) == 0 ==>
            && Linked(r.heap.nodes, r.second.rootGene, PreOrder(tb)[pickB % Size(tb)])
            && forall k :: k in AllNodes(r.heap.nodes, r.second.rootGene, PreOrder(tb)[pickB % Size(tb)]) ==> k !in h.nodes)
  {
    if !(draw < rate) then Crossed(h, a, b)
    else if !Crossable(h, a, b) then Crossed(h, a, b)
    else Recombine(h, Select(h, a, ta, b, tb, pickA, pickB), ta, tb, pickA % Size(ta), pickB % Size(tb))
  }

  /** The parent-link defect of crossover as written: when neither selection is its copy's
      root, the second selection's back-reference is set to a gene of the first result's
      tree, so the second result (the whole copy of `b`) is no longer linked. */
  lemma CrossoverBreaksLinks(h: Heap, a: Genome, ta: Tree, b: Genome, tb: Tree, rate: real, draw: real, pickA: nat, pickB: nat)
    requires h.Valid() && Realizes(h.nodes, a.rootGene, ta) && Realizes(h.nodes, b.rootGene, tb)
    requires draw < rate && Crossable(h, a, b)
    requires pickA % Size(ta) != 0 && pickB % Size(tb) != 0
    ensures var r := Crossover(h, a, ta, b, tb, rate, draw, pickA, pickB);
      !Linked(r.heap.nodes, r.second.rootGene, tb)
  {
    var s := Select(h, a, ta, b, tb, pickA, pickB);
    var r := Recombine(h, s, ta, tb, pickA % Size(ta), pickB % Size(tb));
    assert r == Crossover(h, a, ta, b, tb, rate, draw, pickA, pickB);
    SecondLinkBroken(h, s, ta, tb, pickA % Size(ta), pickB % Size(tb), r);
  }

  lemma SecondLinkBroken(h: Heap, s: Selection, ta: Tree, tb: Tree, ia: nat, ib: nat, r: Crossed)
    requires Selected(h, s, ta, tb, ia, ib) && ia != 0 && ib != 0
    requires r.heap.Valid() && SameShape(s.copies.heap.nodes, r.heap.nodes)
    requires r.first.rootGene == h.next && r.second.rootGene == s.copies.rootB
    requires s.pickedB in r.heap.nodes && r.heap.nodes[s.pickedB].parent.Some?
    requires Realizes(r.heap.nodes, r.first.rootGene, ta)
    requires r.heap.nodes[s.pickedB].parent.value in AllNodes(r.heap.nodes, r.first.rootGene, ta)
    ensures !Linked(r.heap.nodes, r.second.rootGene, tb)
  {
    var c := s.copies;
    var n := c.heap.nodes;
    var m := r.heap.nodes;
    ShapeFrame(n, m, c.rootA, ta);
    ShapeFrame(n, m, c.rootB, tb);
    var lb := AllNodes(m, c.rootB, tb);
    assert lb[ib] == s.pickedB && lb[ib] in lb[1..];
    assert m[s.pickedB].parent.value !in lb;
    if Linked(m, c.rootB, tb) {
      LinkedParentsInside(m, c.rootB, tb);
    }
  }

  /** `copy()`: a genome whose root is a deep copy of this genome's root: equal to it, made
      of fresh genes only, linked, and parentless. */
  function CopyGenome(h: Heap, g: Genome, ghost t: Tree): (r: Held)
    requires h.Valid() && Realizes(h.nodes, g.rootGene, t)
    ensures Grows(h, r.heap)
    ensures Realizes(r.heap.nodes, g.rootGene, t) && Linked(r.heap.nodes, r.genome.rootGene, t)
    ensures Equal(r.heap.nodes, r.genome.rootGene, t, g.rootGene, t)
    ensures r.heap.nodes[r.genome.rootGene].parent == None
    ensures forall k :: k in AllNodes(r.heap.nodes, r.genome.rootGene, t) ==> k !in h.nodes
  {
    var c := Copy(h, g.rootGene, t, None);
    CopyEqualsSource(h, g.rootGene, t, None);
    Held(c.heap, Genome(c.root))
  }

  /** `rawValue`: the root gene, which is all a genome holds. */
  function RawValue(g: Genome): (r: NodeId)
    ensures Genome(r) == g
  {
    g.rootGene
  }

  /** `init?(rawValue:)`: always succeeds, wrapping the given root gene. */
  function FromRawValue(raw: NodeId): (r: Option<Genome>)
    ensures r.Some? && RawValue(r.value) == raw
  {
    Some(Genome(raw))
  }

  /** Wrapping a genome's raw value gives the genome back. */
  lemma RawValueRoundTrip(g: Genome)
    ensures FromRawValue(RawValue(g)) == Some(g)
  {
  }
}
