/** The living-trade gene: deep copy, parent-link rebuild, coding, and the in-place
    mutation step. */
module Gene {
  import opened GeneTypes
  import opened Trees
  import opened Arena

  /** Structural mutation rates. */
  datatype Environment = Environment(structuralMutationDeletionRate: real, structuralMutationAdditionRate: real)

  /** The random values one `mutate` call consumes: the gate draw against `rate`, the
      deletion and addition draws against the environment's rates, and the genes that
      `randomGene` returns for the deletion (depth 1) and addition (depth 5) stages. */
  datatype MutationDraws = MutationDraws(
    gate: real,
    deletion: real,
    addition: real,
    deletionGene: Tree,
    additionGene: Tree)

  /** `copy(withParent:)`: a new gene with the same type and `withParent` as parent, whose
      children are copies of the original children with the new gene as their parent. The
      copy is exactly what building the original's structural view would create: fresh
      genes only, the same shape and types, and freshly set parent links. */
  function Copy(h: Heap, id: NodeId, ghost t: Tree, withParent: Option<NodeId>): (r: Placed)
    requires h.Valid() && Realizes(h.nodes, id, t)
    ensures r == Build(h, t, withParent)
    decreases t
  {
    var n := h.nodes[id];
    var h1 := Heap(h.nodes[h.next := Node(n.geneType, withParent, [])], h.next + 1);
    CopyPre(h, id, t, withParent, h1);
    var f := CopyForest(h1, n.children, t.children, h.next);
    FinishCopy(h, t, withParent, n, f)
  }

  lemma CopyPre(h: Heap, id: NodeId, t: Tree, withParent: Option<NodeId>, h1: Heap)
    requires h.Valid() && Realizes(h.nodes, id, t)
    requires h1 == Heap(h.nodes[h.next := Node(h.nodes[id].geneType, withParent, [])], h.next + 1)
    ensures h1.Valid() && RealizesAll(h1.nodes, h.nodes[id].children, t.children)
    ensures h.nodes[id].geneType == t.geneType
  {
    ExtendKeepsRealizes(h.nodes, h1.nodes, h.nodes[id].children, t.children);
  }

  /** The last step of `Copy`, which is also the last step of `Build`. */
  function FinishCopy(h: Heap, ghost t: Tree, withParent: Option<NodeId>, n: Node, f: PlacedForest): (r: Placed)
    requires h.Valid() && n.geneType == t.geneType
    requires f == BuildForest(Heap(h.nodes[h.next := Node(t.geneType, withParent, [])], h.next + 1), t.children, h.next)
    ensures r == Build(h, t, withParent)
    ensures Grows(h, r.heap) && r.root !in h.nodes
    ensures Linked(r.heap.nodes, r.root, t) && r.heap.nodes[r.root].parent == withParent
    ensures forall k :: k in AllNodes(r.heap.nodes, r.root, t) ==> k !in h.nodes
  {
    Placed(Heap(f.heap.nodes[h.next := Node(n.geneType, withParent, f.roots)], f.heap.next), h.next)
  }

  function CopyForest(h: Heap, ids: seq<NodeId>, ghost ts: seq<Tree>, parent: NodeId): (r: PlacedForest)
    requires h.Valid() && RealizesAll(h.nodes, ids, ts)
    ensures r == BuildForest(h, ts, parent)
    decreases ts
  {
    if ids == [] then PlacedForest(h, [])
    else
      var p0 := Copy(h, ids[0], ts[0], Some(parent));
      ExtendKeepsRealizes(h.nodes, p0.heap.nodes, ids[1..], ts[1..]);
      var rest := CopyForest(p0.heap, ids[1..], ts[1..], parent);
      PlacedForest(rest.heap, [p0.root] + rest.roots)
  }

  /** Adding genes to a heap leaves the existing subtrees realized. */
  lemma ExtendKeepsRealizes(a: Nodes, b: Nodes, ids: seq<NodeId>, ts: seq<Tree>)
    requires RealizesAll(a, ids, ts)
    requires forall k :: k in a ==> k in b && b[k] == a[k]
    ensures RealizesAll(b, ids, ts)
  {
    ForestFrame(a, b, ids, ts);
  }

  /** `recursivelyResetParents`: each child's parent is set to the gene holding it, then
      the child's own subtree is reset, children in order. Only parent links of proper
      descendants are written; afterwards the whole subtree is linked. */
  function ResetParents(a: Nodes, id: NodeId, ghost t: Tree): (r: Nodes)
    requires IsTree(a, id, t)
    ensures SameShape(a, r)
    ensures forall k :: k in a && (k == id || k !in AllNodes(a, id, t)) ==> r[k] == a[k]
    ensures Linked(r, id, t)
    decreases t
  {
    var ch := a[id].children;
    assert AllNodes(a, id, t) == [id] + AllNodesForest(a, ch, t.children);
    DistinctConcat([id], AllNodesForest(a, ch, t.children));
    var r := ResetForest(a, id, ch, t.children);
    ResetClose(a, r, id, t);
    r
  }

  function ResetForest(a: Nodes, p: NodeId, ids: seq<NodeId>, ghost ts: seq<Tree>): (r: Nodes)
    requires RealizesAll(a, ids, ts) && Distinct(AllNodesForest(a, ids, ts))
    ensures SameShape(a, r)
    ensures forall k :: k in a && k !in AllNodesForest(a, ids, ts) ==> r[k] == a[k]
    ensures LinkedAll(r, ids, ts, p)
    decreases ts
  {
    if ids == [] then a
    else
      var a1 := a[ids[0] := a[ids[0]].(parent := Some(p))];
      ResetStepPre(a, a1, p, ids, ts);
      var a2 := ResetParents(a1, ids[0], ts[0]);
      ShapeFrameForest(a1, a2, ids[1..], ts[1..]);
      var r := ResetForest(a2, p, ids[1..], ts[1..]);
      ResetForestClose(a, a1, a2, r, p, ids, ts);
      r
  }

  lemma ResetStepPre(a: Nodes, a1: Nodes, p: NodeId, ids: seq<NodeId>, ts: seq<Tree>)
    requires RealizesAll(a, ids, ts) && Distinct(AllNodesForest(a, ids, ts)) && ids != []
    requires a1 == a[ids[0] := a[ids[0]].(parent := Some(p))]
    ensures SameShape(a, a1)
    ensures IsTree(a1, ids[0], ts[0])
    ensures RealizesAll(a1, ids[1..], ts[1..])
    ensures AllNodes(a1, ids[0], ts[0]) == AllNodes(a, ids[0], ts[0])
    ensures AllNodesForest(a1, ids[1..], ts[1..]) == AllNodesForest(a, ids[1..], ts[1..])
    ensures Distinct(AllNodesForest(a1, ids[1..], ts[1..]))
  {
    DistinctConcat(AllNodes(a, ids[0], ts[0]), AllNodesForest(a, ids[1..], ts[1..]));
    ShapeFrame(a, a1, ids[0], ts[0]);
    ShapeFrameForest(a, a1, ids[1..], ts[1..]);
  }

  lemma ResetForestClose(a: Nodes, a1: Nodes, a2: Nodes, r: Nodes, p: NodeId, ids: seq<NodeId>, ts: seq<Tree>)
    requires RealizesAll(a, ids, ts) && Distinct(AllNodesForest(a, ids, ts)) && ids != []
    requires a1 == a[ids[0] := a[ids[0]].(parent := Some(p))]
    requires SameShape(a, a1) && IsTree(a1, ids[0], ts[0])
    requires AllNodes(a1, ids[0], ts[0]) == AllNodes(a, ids[0], ts[0])
    requires RealizesAll(a1, ids[1..], ts[1..])
    requires AllNodesForest(a1, ids[1..], ts[1..]) == AllNodesForest(a, ids[1..], ts[1..])
    requires SameShape(a1, a2) && Linked(a2, ids[0], ts[0])
    requires forall k :: k in a1 && (k == ids[0] || k !in AllNodes(a1, ids[0], ts[0])) ==> a2[k] == a1[k]
    requires RealizesAll(a2, ids[1..], ts[1..])
    requires AllNodesForest(a2, ids[1..], ts[1..]) == AllNodesForest(a1, ids[1..], ts[1..])
    requires SameShape(a2, r)
    requires forall k :: k in a2 && k !in AllNodesForest(a2, ids[1..], ts[1..]) ==> r[k] == a2[k]
    requires LinkedAll(r, ids[1..], ts[1..], p)
    ensures SameShape(a, r)
    ensures forall k :: k in a && k !in AllNodesForest(a, ids, ts) ==> r[k] == a[k]
    ensures LinkedAll(r, ids, ts, p)
  {
    var x, y := AllNodes(a, ids[0], ts[0]), AllNodesForest(a, ids[1..], ts[1..]);
    DistinctConcat(x, y);
    AllNodesFacts(a, ids[0], ts[0]);
    assert ids[0] in x;
    forall k | k in AllNodes(a2, ids[0], ts[0]) && k in a2
      ensures k in r && r[k] == a2[k]
    {
      ShapeFrame(a1, a2, ids[0], ts[0]);
    }
    SubtreeFrame(a2, r, ids[0], ts[0]);
  }

  lemma ResetClose(a: Nodes, r: Nodes, id: NodeId, t: Tree)
    requires IsTree(a, id, t)
    requires AllNodes(a, id, t) == [id] + AllNodesForest(a, a[id].children, t.children)
    requires id !in AllNodesForest(a, a[id].children, t.children)
    requires SameShape(a, r)
    requires forall k :: k in a && k !in AllNodesForest(a, a[id].children, t.children) ==> r[k] == a[k]
    requires LinkedAll(r, a[id].children, t.children, id)
    ensures forall k :: k in a && (k == id || k !in AllNodes(a, id, t)) ==> r[k] == a[k]
    ensures Linked(r, id, t)
  {
    ShapeFrame(a, r, id, t);
  }

  /** `encode(to:)`: the record `{geneType, children}`, children encoded in order. Parent
      links are not stored, so the record is exactly the structural view. */
  function Encode(a: Nodes, id: NodeId, ghost t: Tree): (r: Tree)
    requires Realizes(a, id, t)
    ensures r == t
    decreases t
  {
    Tree(a[id].geneType, EncodeForest(a, a[id].children, t.children))
  }

  function EncodeForest(a: Nodes, ids: seq<NodeId>, ghost ts: seq<Tree>): (r: seq<Tree>)
    requires RealizesAll(a, ids, ts)
    ensures r == ts
    decreases ts
  {
    if ids == [] then [] else [Encode(a, ids[0], ts[0])] + EncodeForest(a, ids[1..], ts[1..])
  }

  /** `init(from:)`: a new parentless gene with the record's type, its children decoded in
      order, then `recursivelyResetParents`. The result holds fresh genes only, realizes the
      record, and every back-reference names the gene holding it. */
  function Decode(h: Heap, rec: Tree): (r: Placed)
    requires h.Valid()
    ensures Grows(h, r.heap)
    ensures r.root == h.next && r.heap.next == h.next + Size(rec)
    ensures Linked(r.heap.nodes, r.root, rec)
    ensures r.heap.nodes[r.root].parent == None
    ensures AllNodes(r.heap.nodes, r.root, rec) == Range(h.next, r.heap.next)
    decreases rec
  {
    var id := h.next;
    var h1 := Heap(h.nodes[id := Node(rec.geneType, None, [])], id + 1);
    var f := DecodeForest(h1, rec.children);
    var n := Node(rec.geneType, None, f.roots);
    var a := f.heap.nodes[id := n];
    DecodeAttach(f, id, n, rec);
    var r := ResetParents(a, id, rec);
    DecodeClose(h, f, a, r, id, rec);
    Placed(Heap(r, f.heap.next), id)
  }

  function DecodeForest(h: Heap, recs: seq<Tree>): (r: PlacedForest)
    requires h.Valid()
    ensures Grows(h, r.heap)
    ensures r.heap.next == h.next + ForestSize(recs)
    ensures RealizesAll(r.heap.nodes, r.roots, recs)
    ensures AllNodesForest(r.heap.nodes, r.roots, recs) == Range(h.next, r.heap.next)
    decreases recs
  {
    if recs == [] then PlacedForest(h, [])
    else
      var p0 := Decode(h, recs[0]);
      var rest := DecodeForest(p0.heap, recs[1..]);
      var r := PlacedForest(rest.heap, [p0.root] + rest.roots);
      DecodeForestClose(h, p0, rest, r, recs);
      r
  }

  lemma DecodeAttach(f: PlacedForest, id: NodeId, n: Node, rec: Tree)
    requires f.heap.Valid() && id < id + 1 <= f.heap.next
    requires n.geneType == rec.geneType && n.children == f.roots
    requires RealizesAll(f.heap.nodes, f.roots, rec.children)
    requires AllNodesForest(f.heap.nodes, f.roots, rec.children) == Range(id + 1, f.heap.next)
    ensures IsTree(f.heap.nodes[id := n], id, rec)
    ensures AllNodes(f.heap.nodes[id := n], id, rec) == Range(id, f.heap.next)
  {
    var a := f.heap.nodes;
    var b := a[id := n];
    ForestFacts(a, f.roots, rec.children);
    ForestFrame(a, b, f.roots, rec.children);
    assert Realizes(b, id, rec);
    RangeCons(id, f.heap.next);
    RangeDistinct(id, f.heap.next);
  }

  lemma DecodeClose(h: Heap, f: PlacedForest, a: Nodes, r: Nodes, id: NodeId, rec: Tree)
    requires h.Valid() && id == h.next
    requires Grows(Heap(h.nodes[id := Node(rec.geneType, None, [])], id + 1), f.heap)
    requires a == f.heap.nodes[id := Node(rec.geneType, None, f.roots)]
    requires IsTree(a, id, rec) && AllNodes(a, id, rec) == Range(id, f.heap.next)
    requires SameShape(a, r)
    requires forall k :: k in a && (k == id || k !in AllNodes(a, id, rec)) ==> r[k] == a[k]
    requires Linked(r, id, rec)
    ensures Grows(h, Heap(r, f.heap.next))
    ensures r[id].parent == None
    ensures AllNodes(r, id, rec) == Range(h.next, f.heap.next)
  {
    ShapeFrame(a, r, id, rec);
  }

  lemma DecodeForestClose(h: Heap, p0: Placed, rest: PlacedForest, r: PlacedForest, recs: seq<Tree>)
    requires recs != [] && h.Valid()
    requires Grows(h, p0.heap) && p0.root == h.next && p0.heap.next == h.next + Size(recs[0])
    requires Realizes(p0.heap.nodes, p0.root, recs[0])
    requires AllNodes(p0.heap.nodes, p0.root, recs[0]) == Range(h.next, p0.heap.next)
    requires Grows(p0.heap, rest.heap) && rest.heap.next == p0.heap.next + ForestSize(recs[1..])
    requires RealizesAll(rest.heap.nodes, rest.roots, recs[1..])
    requires AllNodesForest(rest.heap.nodes, rest.roots, recs[1..]) == Range(p0.heap.next, rest.heap.next)
    requires r == PlacedForest(rest.heap, [p0.root] + rest.roots)
    ensures Grows(h, r.heap)
    ensures r.heap.next == h.next + ForestSize(recs)
    ensures RealizesAll(r.heap.nodes, r.roots, recs)
    ensures AllNodesForest(r.heap.nodes, r.roots, recs) == Range(h.next, r.heap.next)
  {
    var a := p0.heap.nodes;
    var b := rest.heap.nodes;
    AllNodesFacts(a, p0.root, recs[0]);
    SubtreeFrame(a, b, p0.root, recs[0]);
    assert r.roots[1..] == rest.roots;
    assert AllNodesForest(b, r.roots, recs)
        == AllNodes(b, p0.root, recs[0]) + AllNodesForest(b, rest.roots, recs[1..]);
    RangeConcat(h.next, p0.heap.next, rest.heap.next);
  }

  /** Decoding an encoding gives back the record, and the decoded gene is a tree whose
      back-references are all rebuilt. */
  lemma {:induction false} DecodeEncode(h: Heap, id: NodeId, t: Tree)
    requires h.Valid() && Realizes(h.nodes, id, t)
    ensures var d := Decode(h, Encode(h.nodes, id, t));
      && Encode(d.heap.nodes, d.root, t) == t
      && Linked(d.heap.nodes, d.root, t)
      && d.heap.nodes[d.root].parent == None
      && forall k :: k in AllNodes(d.heap.nodes, d.root, t) ==> k !in h.nodes
  {
    var d := Decode(h, Encode(h.nodes, id, t));
    assert Encode(h.nodes, id, t) == t;
    forall k | k in AllNodes(d.heap.nodes, d.root, t)
      ensures k !in h.nodes
    {
      var i :| 0 <= i < |AllNodes(d.heap.nodes, d.root, t)| && AllNodes(d.heap.nodes, d.root, t)[i] == k;
    }
  }

  /** `h'` differs from `h` only at gene `id`, whose own parent is kept, and in genes with
      fresh ids. */
  predicate RewritesOnly(h: Heap, h': Heap, id: NodeId) {
    && id in h.nodes && id in h'.nodes
    && h'.Valid() && h.next <= h'.next
    && (forall k :: k in h.nodes && k != id ==> k in h'.nodes && h'.nodes[k] == h.nodes[k])
    && h'.nodes[id].parent == h.nodes[id].parent
    && (forall k :: k in h'.nodes ==> k in h.nodes || h.next <= k)
  }

  /** Assigning the type and children of a gene `g` returned by `randomGene` to gene `id`,
      then setting each new child's parent to `id`. The new children are fresh genes. */
  function Install(h: Heap, id: NodeId, g: Tree): (r: Heap)
    requires h.Valid() && id in h.nodes
    ensures RewritesOnly(h, r, id)
    ensures Linked(r.nodes, id, g)
    ensures forall c :: c in r.nodes[id].children ==> c !in h.nodes
  {
    var f := BuildForest(h, g.children, id);
    var n := Node(g.geneType, h.nodes[id].parent, f.roots);
    AttachChildren(f, h.next, id, n, g);
    ForestFacts(f.heap.nodes, f.roots, g.children);
    Heap(f.heap.nodes[id := n], f.heap.next)
  }

  /** `mutate(rate:environment:)` on gene `id`. A root (no parent) and a gene whose gate
      draw is not below `rate` are left alone. Otherwise deletion replaces a non-leaf gene
      by the depth-1 random gene; addition then tests the type left behind and replaces a
      leaf gene by the depth-5 random gene; if neither fired, point replacement swaps the
      type for its compatible alternate and keeps the children. Nothing but gene `id` and
      freshly created genes is written, and gene `id` keeps its own parent. */
  function Mutate(v: Vocabulary, h: Heap, id: NodeId, rate: real, env: Environment, d: MutationDraws): (r: Heap)
    requires h.Valid() && id in h.nodes
    ensures RewritesOnly(h, r, id)
    ensures h.nodes[id].parent.None? ==> r == h
    ensures !(d.gate < rate) ==> r == h
    ensures var n := h.nodes[id];
      var m := r.nodes[id];
      var live := n.parent.Some? && d.gate < rate;
      var deleted := live && d.deletion < env.structuralMutationDeletionRate && !v.isLeafType(n.geneType);
      var added := live && d.addition < env.structuralMutationAdditionRate
                   && v.isLeafType(if deleted then d.deletionGene.geneType else n.geneType);
      && (deleted && !added ==> Linked(r.nodes, id, d.deletionGene))
      && (added ==> Linked(r.nodes, id, d.additionGene))
      && (deleted || added ==> forall c :: c in m.children ==> c !in h.nodes)
      && (live && !deleted && !added ==>
            m == n.(geneType := v.compatibleAlternate(n.geneType)) && r.next == h.next)
  {
    var n := h.nodes[id];
    if n.parent.None? then h
    else if !(d.gate < rate) then h
    else
      var deleted := d.deletion < env.structuralMutationDeletionRate
                     && !v.isLeafType(n.geneType) && n.parent.Some?;
      var h1 := if deleted then Install(h, id, d.deletionGene) else h;
      var added := d.addition < env.structuralMutationAdditionRate && v.isLeafType(h1.nodes[id].geneType);
      var h2 := if added then Install(h1, id, d.additionGene) else h1;
      if deleted || added then h2
      else
        var m := h2.nodes[id];
        Heap(h2.nodes[id := m.(geneType := v.compatibleAlternate(m.geneType))], h2.next)
  }

  /** Mutation keeps a gene well formed: if its subtree was a linked tree whose child counts
      match the types, and the random genes and the compatible alternates respect child
      counts too, then the mutated gene again heads a linked subtree with matching child
      counts. */
  lemma MutateKeepsIntegrity(v: Vocabulary, h: Heap, id: NodeId, t: Tree, rate: real, env: Environment, d: MutationDraws)
    requires h.Valid() && IsTree(h.nodes, id, t) && Linked(h.nodes, id, t)
    requires ChildCountsMatch(v, t)
    requires ChildCountsMatch(v, d.deletionGene) && ChildCountsMatch(v, d.additionGene)
    requires v.AlternatePreservesChildCount()
    ensures exists t' :: Linked(Mutate(v, h, id, rate, env, d).nodes, id, t') && ChildCountsMatch(v, t')
  {
    var r := Mutate(v, h, id, rate, env, d);
    var n := h.nodes[id];
    var live := n.parent.Some? && d.gate < rate;
    var deleted := live && d.deletion < env.structuralMutationDeletionRate && !v.isLeafType(n.geneType);
    var added := live && d.addition < env.structuralMutationAdditionRate
                 && v.isLeafType(if deleted then d.deletionGene.geneType else n.geneType);
    if !live {
      assert Linked(r.nodes, id, t);
    } else if added {
      assert Linked(r.nodes, id, d.additionGene);
    } else if deleted {
      assert Linked(r.nodes, id, d.deletionGene);
    } else {
      var t' := Tree(v.compatibleAlternate(t.geneType), t.children);
      PointReplacementLinked(h.nodes, r.nodes, id, t, t');
      assert ChildCountsMatch(v, t');
    }
  }

  /** Rewriting only a gene's type keeps its subtree linked, with the new type in its view. */
  lemma PointReplacementLinked(a: Nodes, b: Nodes, id: NodeId, t: Tree, t': Tree)
    requires IsTree(a, id, t) && Linked(a, id, t)
    requires t' == Tree(t'.geneType, t.children)
    requires b == a[id := a[id].(geneType := t'.geneType)]
    ensures Linked(b, id, t')
  {
    var ch := a[id].children;
    assert AllNodes(a, id, t) == [id] + AllNodesForest(a, ch, t.children);
    DistinctConcat([id], AllNodesForest(a, ch, t.children));
    ForestFacts(a, ch, t.children);
    ForestFrame(a, b, ch, t.children);
  }
}
