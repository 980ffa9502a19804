/** Node storage for living-trade genes.

    A gene is a reference-identity object with a gene type, a non-owning parent link and
    an ordered list of owned children. Here every gene lives in a `Heap`: a map from node
    ids to node records, plus the next unused id. A node's subtree is related to its
    structural view (a `Trees.Tree`) by `Realizes`; that view also serves as the
    termination measure of every recursive walk over the heap.
 */
module Arena {
  import opened GeneTypes
  import opened Trees

  datatype Option<T> = None | Some(value: T)

  type NodeId = nat

  /** One gene: its type, the id of its parent (`None` for a root) and its children. */
  datatype Node = Node(geneType: GeneType, parent: Option<NodeId>, children: seq<NodeId>)

  type Nodes = map<NodeId, Node>

  /** All genes in existence, and the id the next new gene receives. */
  datatype Heap = Heap(nodes: Nodes, next: nat)
  {
    /** Every id in use is below `next`, so ids from `next` on are fresh. */
    predicate Valid() {
      forall k :: k in nodes ==> k < next
    }
  }

  /** A node newly placed in a heap. */
  datatype Placed = Placed(heap: Heap, root: NodeId)

  /** A list of sibling nodes newly placed in a heap. */
  datatype PlacedForest = PlacedForest(heap: Heap, roots: seq<NodeId>)

  /** `h'` extends `h`: existing genes are untouched and new ones take fresh ids. */
  predicate Grows(h: Heap, h': Heap) {
    && h'.Valid()
    && h.next <= h'.next
    && (forall k :: k in h.nodes ==> k in h'.nodes && h'.nodes[k] == h.nodes[k])
    && (forall k :: k in h'.nodes ==> k in h.nodes || h.next <= k)
  }

  /** The consecutive ids `lo, lo + 1, ..., hi - 1`. */
  function Range(lo: nat, hi: nat): (r: seq<NodeId>)
    requires lo <= hi
    ensures |r| == hi - lo
    ensures forall i :: 0 <= i < |r| ==> r[i] == lo + i
  {
    seq(hi - lo, i requires 0 <= i < hi - lo => lo + i)
  }

  predicate Distinct(s: seq<NodeId>) {
    forall i, j :: 0 <= i < j < |s| ==> s[i] != s[j]
  }

  /** The subtree at `id` has the shape and gene types of `t`. Parents are not looked at. */
  predicate Realizes(a: Nodes, id: NodeId, t: Tree)
    decreases t
  {
    && id in a
    && a[id].geneType == t.geneType
    && |a[id].children| == |t.children|
    && forall i :: 0 <= i < |t.children| ==> Realizes(a, a[id].children[i], t.children[i])
  }

  predicate RealizesAll(a: Nodes, ids: seq<NodeId>, ts: seq<Tree>) {
    |ids| == |ts| && forall i :: 0 <= i < |ts| ==> Realizes(a, ids[i], ts[i])
  }

  /** The subtree at `id` realizes `t`, and every child's parent link names the node whose
      children list holds it. */
  predicate Linked(a: Nodes, id: NodeId, t: Tree)
    decreases t
  {
    && Realizes(a, id, t)
    && forall i :: 0 <= i < |t.children| ==>
         && a[id].children[i] in a
         && a[a[id].children[i]].parent == Some(id)
         && Linked(a, a[id].children[i], t.children[i])
  }

  /** Siblings realizing `ts`, each linked to `parent`. */
  predicate LinkedAll(a: Nodes, ids: seq<NodeId>, ts: seq<Tree>, parent: NodeId) {
    && |ids| == |ts|
    && forall i :: 0 <= i < |ts| ==>
         ids[i] in a && a[ids[i]].parent == Some(parent) && Linked(a, ids[i], ts[i])
  }

  /** Gene types and children lists agree everywhere; parents may differ. */
  predicate SameShape(a: Nodes, b: Nodes) {
    && a.Keys == b.Keys
    && forall k :: k in a ==> a[k].geneType == b[k].geneType && a[k].children == b[k].children
  }

  /** `allNodes`: the node itself, then each child's listing in order. */
  function AllNodes(a: Nodes, id: NodeId, ghost t: Tree): (r: seq<NodeId>)
    requires Realizes(a, id, t)
    ensures |r| > 0 && r[0] == id
    decreases t
  {
    [id] + AllNodesForest(a, a[id].children, t.children)
  }

  function AllNodesForest(a: Nodes, ids: seq<NodeId>, ghost ts: seq<Tree>): (r: seq<NodeId>)
    requires RealizesAll(a, ids, ts)
    decreases ts
  {
    if ids == [] then [] else AllNodes(a, ids[0], ts[0]) + AllNodesForest(a, ids[1..], ts[1..])
  }

  /** `bottomUpEnumerate`: each child's enumeration in order, then the node itself. */
  function BottomUp(a: Nodes, id: NodeId, ghost t: Tree): (r: seq<NodeId>)
    requires Realizes(a, id, t)
    ensures forall k :: k in r ==> k in a
    decreases t
  {
    BottomUpForest(a, a[id].children, t.children) + [id]
  }

  function BottomUpForest(a: Nodes, ids: seq<NodeId>, ghost ts: seq<Tree>): (r: seq<NodeId>)
    requires RealizesAll(a, ids, ts)
    ensures forall k :: k in r ==> k in a
    decreases ts
  {
    if ids == [] then [] else BottomUp(a, ids[0], ts[0]) + BottomUpForest(a, ids[1..], ts[1..])
  }

  /** The subtree is an ownership tree: no node is reachable along two paths. */
  predicate IsTree(a: Nodes, id: NodeId, t: Tree) {
    Realizes(a, id, t) && Distinct(AllNodes(a, id, t))
  }

  /** Creates genes for the record `t`, in pre-order from `h.next`, with `parent` as the
      root's parent and every other gene's parent set to the gene that holds it. */
  function Build(h: Heap, t: Tree, parent: Option<NodeId>): (r: Placed)
    requires h.Valid()
    ensures Grows(h, r.heap)
    ensures r.root == h.next && r.heap.next == h.next + Size(t)
    ensures Linked(r.heap.nodes, r.root, t)
    ensures r.heap.nodes[r.root].parent == parent
    ensures AllNodes(r.heap.nodes, r.root, t) == Range(h.next, r.heap.next)
    decreases t
  {
    var id := h.next;
    var h1 := Heap(h.nodes[id := Node(t.geneType, parent, [])], id + 1);
    var f := BuildForest(h1, t.children, id);
    var n := Node(t.geneType, parent, f.roots);
    var r := Placed(Heap(f.heap.nodes[id := n], f.heap.next), id);
    AttachChildren(f, id + 1, id, n, t);
    RangeCons(id, f.heap.next);
    r
  }

  function BuildForest(h: Heap, ts: seq<Tree>, parent: NodeId): (r: PlacedForest)
    requires h.Valid()
    ensures Grows(h, r.heap)
    ensures r.heap.next == h.next + ForestSize(ts)
    ensures LinkedAll(r.heap.nodes, r.roots, ts, parent)
    ensures AllNodesForest(r.heap.nodes, r.roots, ts) == Range(h.next, r.heap.next)
    decreases ts
  {
    if ts == [] then PlacedForest(h, [])
    else
      var p0 := Build(h, ts[0], Some(parent));
      var rest := BuildForest(p0.heap, ts[1..], parent);
      var r := PlacedForest(rest.heap, [p0.root] + rest.roots);
      BuildForestClose(h, p0, rest, r, ts, parent);
      r
  }

  /** Giving gene `id` the type of `t` and the freshly built siblings `f.roots` as its
      children makes it realize `t`, with every child linked back to it. */
  lemma AttachChildren(f: PlacedForest, lo: nat, id: NodeId, n: Node, t: Tree)
    requires id < lo <= f.heap.next && f.heap.Valid()
    requires n.geneType == t.geneType && n.children == f.roots
    requires LinkedAll(f.heap.nodes, f.roots, t.children, id)
    requires AllNodesForest(f.heap.nodes, f.roots, t.children) == Range(lo, f.heap.next)
    ensures Linked(f.heap.nodes[id := n], id, t)
    ensures AllNodes(f.heap.nodes[id := n], id, t) == [id] + Range(lo, f.heap.next)
  {
    var a := f.heap.nodes;
    var b := a[id := n];
    ForestFacts(a, f.roots, t.children);
    forall k | k in AllNodesForest(a, f.roots, t.children) && k in a
      ensures k in b && b[k] == a[k]
    {
    }
    ForestFrame(a, b, f.roots, t.children);
    assert Realizes(b, id, t);
  }

  /** The recursive step of `BuildForest`. */
  lemma BuildForestClose(h: Heap, p0: Placed, rest: PlacedForest, r: PlacedForest, ts: seq<Tree>, parent: NodeId)
    requires ts != [] && h.Valid()
    requires Grows(h, p0.heap) && p0.root == h.next && p0.heap.next == h.next + Size(ts[0])
    requires Linked(p0.heap.nodes, p0.root, ts[0]) && p0.heap.nodes[p0.root].parent == Some(parent)
    requires AllNodes(p0.heap.nodes, p0.root, ts[0]) == Range(h.next, p0.heap.next)
    requires Grows(p0.heap, rest.heap) && rest.heap.next == p0.heap.next + ForestSize(ts[1..])
    requires LinkedAll(rest.heap.nodes, rest.roots, ts[1..], parent)
    requires AllNodesForest(rest.heap.nodes, rest.roots, ts[1..]) == Range(p0.heap.next, rest.heap.next)
    requires r == PlacedForest(rest.heap, [p0.root] + rest.roots)
    ensures Grows(h, r.heap)
    ensures r.heap.next == h.next + ForestSize(ts)
    ensures LinkedAll(r.heap.nodes, r.roots, ts, parent)
    ensures AllNodesForest(r.heap.nodes, r.roots, ts) == Range(h.next, r.heap.next)
  {
    var a := p0.heap.nodes;
    var b := rest.heap.nodes;
    AllNodesFacts(a, p0.root, ts[0]);
    SubtreeFrame(a, b, p0.root, ts[0]);
    assert r.roots[1..] == rest.roots;
    assert AllNodesForest(b, r.roots, ts)
        == AllNodes(b, p0.root, ts[0]) + AllNodesForest(b, rest.roots, ts[1..]);
    RangeConcat(h.next, p0.heap.next, rest.heap.next);
  }

  lemma RangeCons(lo: nat, hi: nat)
    requires lo < hi
    ensures [lo] + Range(lo + 1, hi) == Range(lo, hi)
  {
  }

  lemma RangeConcat(lo: nat, mid: nat, hi: nat)
    requires lo <= mid <= hi
    ensures Range(lo, mid) + Range(mid, hi) == Range(lo, hi)
  {
  }

  lemma RangeDistinct(lo: nat, hi: nat)
    requires lo <= hi
    ensures Distinct(Range(lo, hi))
  {
  }

  /** A listing names only genes of the heap, one per node of the view, starting with the
      subtree's own root. */
  lemma {:induction false} AllNodesFacts(a: Nodes, id: NodeId, t: Tree)
    requires Realizes(a, id, t)
    ensures |AllNodes(a, id, t)| == Size(t)
    ensures AllNodes(a, id, t)[0] == id
    ensures forall k :: k in AllNodes(a, id, t) ==> k in a
    decreases t
  {
    ForestFacts(a, a[id].children, t.children);
  }

  lemma {:induction false} ForestFacts(a: Nodes, ids: seq<NodeId>, ts: seq<Tree>)
    requires RealizesAll(a, ids, ts)
    ensures |AllNodesForest(a, ids, ts)| == ForestSize(ts)
    ensures forall k :: k in AllNodesForest(a, ids, ts) ==> k in a
    ensures forall i, k :: 0 <= i < |ids| && k in AllNodes(a, ids[i], ts[i]) ==>
              k in AllNodesForest(a, ids, ts)
    ensures forall i :: 0 <= i < |ids| ==> ids[i] in AllNodesForest(a, ids, ts)
    decreases ts
  {
    if ids != [] {
      AllNodesFacts(a, ids[0], ts[0]);
      ForestFacts(a, ids[1..], ts[1..]);
      forall i | 0 <= i < |ids|
        ensures ids[i] in AllNodesForest(a, ids, ts)
      {
        AllNodesFacts(a, ids[i], ts[i]);
        assert ids[i] == AllNodes(a, ids[i], ts[i])[0];
      }
    }
  }

  /** A subtree's realization, listing and links depend only on the genes it lists. */
  lemma {:induction false} SubtreeFrame(a: Nodes, b: Nodes, id: NodeId, t: Tree)
    requires Realizes(a, id, t)
    requires forall k :: k in AllNodes(a, id, t) && k in a ==> k in b && b[k] == a[k]
    ensures Realizes(b, id, t)
    ensures AllNodes(b, id, t) == AllNodes(a, id, t)
    ensures BottomUp(b, id, t) == BottomUp(a, id, t)
    ensures Linked(b, id, t) <==> Linked(a, id, t)
    decreases t
  {
    var ch := a[id].children;
    ForestFacts(a, ch, t.children);
    ForestFrame(a, b, ch, t.children);
  }

  lemma {:induction false} ForestFrame(a: Nodes, b: Nodes, ids: seq<NodeId>, ts: seq<Tree>)
    requires RealizesAll(a, ids, ts)
    requires forall k :: k in AllNodesForest(a, ids, ts) && k in a ==> k in b && b[k] == a[k]
    ensures RealizesAll(b, ids, ts)
    ensures AllNodesForest(b, ids, ts) == AllNodesForest(a, ids, ts)
    ensures BottomUpForest(b, ids, ts) == BottomUpForest(a, ids, ts)
    ensures forall i :: 0 <= i < |ids| ==> (Linked(b, ids[i], ts[i]) <==> Linked(a, ids[i], ts[i]))
    ensures forall i :: 0 <= i < |ids| ==> b[ids[i]] == a[ids[i]]
    decreases ts
  {
    if ids != [] {
      var x, y := AllNodes(a, ids[0], ts[0]), AllNodesForest(a, ids[1..], ts[1..]);
      assert AllNodesForest(a, ids, ts) == x + y;
      SubtreeFrame(a, b, ids[0], ts[0]);
      ForestFrame(a, b, ids[1..], ts[1..]);
      forall i | 0 < i < |ids|
        ensures (Linked(b, ids[i], ts[i]) <==> Linked(a, ids[i], ts[i])) && b[ids[i]] == a[ids[i]]
      {
        assert ids[i] == ids[1..][i - 1] && ts[i] == ts[1..][i - 1];
      }
    }
  }

  /** Changing parent links alone changes no realization or listing. */
  lemma {:induction false} ShapeFrame(a: Nodes, b: Nodes, id: NodeId, t: Tree)
    requires SameShape(a, b) && Realizes(a, id, t)
    ensures Realizes(b, id, t)
    ensures AllNodes(b, id, t) == AllNodes(a, id, t)
    decreases t
  {
    ShapeFrameForest(a, b, a[id].children, t.children);
  }

  lemma {:induction false} ShapeFrameForest(a: Nodes, b: Nodes, ids: seq<NodeId>, ts: seq<Tree>)
    requires SameShape(a, b) && RealizesAll(a, ids, ts)
    ensures RealizesAll(b, ids, ts)
    ensures AllNodesForest(b, ids, ts) == AllNodesForest(a, ids, ts)
    decreases ts
  {
    if ids != [] {
      ShapeFrame(a, b, ids[0], ts[0]);
      ShapeFrameForest(a, b, ids[1..], ts[1..]);
    }
  }

  lemma DistinctConcat(x: seq<NodeId>, y: seq<NodeId>)
    requires Distinct(x + y)
    ensures Distinct(x) && Distinct(y)
    ensures forall k :: k in x ==> k !in y
  {
    assert forall i :: 0 <= i < |x| ==> (x + y)[i] == x[i];
    assert forall j :: 0 <= j < |y| ==> (x + y)[|x| + j] == y[j];
  }

  /** The `i`-th gene that `allNodes` lists carries the `i`-th subtree of the pre-order
      listing of the structural view. */
  lemma {:induction false} AllNodesPreOrder(a: Nodes, id: NodeId, t: Tree)
    requires Realizes(a, id, t)
    ensures |AllNodes(a, id, t)| == |PreOrder(t)|
    ensures forall i :: 0 <= i < |PreOrder(t)| ==> Realizes(a, AllNodes(a, id, t)[i], PreOrder(t)[i])
    decreases t
  {
    AllNodesFacts(a, id, t);
    ForestPreOrderLink(a, a[id].children, t.children);
  }

  lemma {:induction false} ForestPreOrderLink(a: Nodes, ids: seq<NodeId>, ts: seq<Tree>)
    requires RealizesAll(a, ids, ts)
    ensures |AllNodesForest(a, ids, ts)| == |ForestPreOrder(ts)|
    ensures forall i :: 0 <= i < |ForestPreOrder(ts)| ==>
              Realizes(a, AllNodesForest(a, ids, ts)[i], ForestPreOrder(ts)[i])
    decreases ts
  {
    if ids != [] {
      AllNodesPreOrder(a, ids[0], ts[0]);
      ForestPreOrderLink(a, ids[1..], ts[1..]);
      var x, y := AllNodes(a, ids[0], ts[0]), AllNodesForest(a, ids[1..], ts[1..]);
      var p, q := PreOrder(ts[0]), ForestPreOrder(ts[1..]);
      forall i | 0 <= i < |p + q|
        ensures Realizes(a, (x + y)[i], (p + q)[i])
      {
        if i >= |x| {
          assert (x + y)[i] == y[i - |x|] && (p + q)[i] == q[i - |p|];
        }
      }
    }
  }

  /** The subtree of the `i`-th gene that `allNodes` lists is made of listed genes only,
      and it is linked whenever the whole subtree is. */
  lemma {:induction false} ListedSubtreeWithin(a: Nodes, id: NodeId, t: Tree, i: nat)
    requires Realizes(a, id, t) && i < Size(t)
    ensures |AllNodes(a, id, t)| == Size(t)
    ensures Realizes(a, AllNodes(a, id, t)[i], PreOrder(t)[i])
    ensures forall k :: k in AllNodes(a, AllNodes(a, id, t)[i], PreOrder(t)[i]) ==> k in AllNodes(a, id, t)
    ensures Linked(a, id, t) ==> Linked(a, AllNodes(a, id, t)[i], PreOrder(t)[i])
    decreases t
  {
    AllNodesFacts(a, id, t);
    if i > 0 {
      var ch := a[id].children;
      ForestListedWithin(a, ch, t.children, i - 1);
      assert AllNodes(a, id, t)[i] == AllNodesForest(a, ch, t.children)[i - 1];
      assert PreOrder(t)[i] == ForestPreOrder(t.children)[i - 1];
    }
  }

  lemma {:induction false} ForestListedWithin(a: Nodes, ids: seq<NodeId>, ts: seq<Tree>, i: nat)
    requires RealizesAll(a, ids, ts) && i < ForestSize(ts)
    ensures |AllNodesForest(a, ids, ts)| == ForestSize(ts)
    ensures Realizes(a, AllNodesForest(a, ids, ts)[i], ForestPreOrder(ts)[i])
    ensures forall k :: k in AllNodes(a, AllNodesForest(a, ids, ts)[i], ForestPreOrder(ts)[i]) ==>
              k in AllNodesForest(a, ids, ts)
    ensures (forall j :: 0 <= j < |ids| ==> Linked(a, ids[j], ts[j])) ==>
              Linked(a, AllNodesForest(a, ids, ts)[i], ForestPreOrder(ts)[i])
    decreases ts
  {
    ForestFacts(a, ids, ts);
    AllNodesFacts(a, ids[0], ts[0]);
    var x, y := AllNodes(a, ids[0], ts[0]), AllNodesForest(a, ids[1..], ts[1..]);
    var p, q := PreOrder(ts[0]), ForestPreOrder(ts[1..]);
    if i < |x| {
      ListedSubtreeWithin(a, ids[0], ts[0], i);
      assert (x + y)[i] == x[i] && (p + q)[i] == p[i];
    } else {
      ForestListedWithin(a, ids[1..], ts[1..], i - |x|);
      assert (x + y)[i] == y[i - |x|] && (p + q)[i] == q[i - |p|];
    }
  }

  /** The `i`-th gene that `bottomUpEnumerate` visits carries the `i`-th subtree of the
      post-order listing of the structural view: each child's subtree in order, every gene
      after all of its descendants. */
  lemma {:induction false} BottomUpPostOrder(a: Nodes, id: NodeId, t: Tree)
    requires Realizes(a, id, t)
    ensures |BottomUp(a, id, t)| == |PostOrder(t)|
    ensures forall i :: 0 <= i < |PostOrder(t)| ==> Realizes(a, BottomUp(a, id, t)[i], PostOrder(t)[i])
    decreases t
  {
    var ch := a[id].children;
    ForestPostOrderLink(a, ch, t.children);
    var x, p := BottomUpForest(a, ch, t.children), ForestPostOrder(t.children);
    forall i | 0 <= i < |p + [t]|
      ensures Realizes(a, (x + [id])[i], (p + [t])[i])
    {
      if i < |x| {
        assert (x + [id])[i] == x[i] && (p + [t])[i] == p[i];
      }
    }
  }

  lemma {:induction false} ForestPostOrderLink(a: Nodes, ids: seq<NodeId>, ts: seq<Tree>)
    requires RealizesAll(a, ids, ts)
    ensures |BottomUpForest(a, ids, ts)| == |ForestPostOrder(ts)|
    ensures forall i :: 0 <= i < |ForestPostOrder(ts)| ==>
              Realizes(a, BottomUpForest(a, ids, ts)[i], ForestPostOrder(ts)[i])
    decreases ts
  {
    if ids != [] {
      BottomUpPostOrder(a, ids[0], ts[0]);
      ForestPostOrderLink(a, ids[1..], ts[1..]);
      var x, y := BottomUp(a, ids[0], ts[0]), BottomUpForest(a, ids[1..], ts[1..]);
      var p, q := PostOrder(ts[0]), ForestPostOrder(ts[1..]);
      forall i | 0 <= i < |p + q|
        ensures Realizes(a, (x + y)[i], (p + q)[i])
      {
        if i >= |x| {
          assert (x + y)[i] == y[i - |x|] && (p + q)[i] == q[i - |p|];
        }
      }
    }
  }

  /** `bottomUpEnumerate` visits exactly the genes `allNodes` lists, each as often, and
      visits the subtree's own root last. */
  lemma {:induction false} BottomUpFacts(a: Nodes, id: NodeId, t: Tree)
    requires Realizes(a, id, t)
    ensures multiset(BottomUp(a, id, t)) == multiset(AllNodes(a, id, t))
    ensures |BottomUp(a, id, t)| == Size(t)
    ensures BottomUp(a, id, t)[|BottomUp(a, id, t)| - 1] == id
    decreases t
  {
    BottomUpForestFacts(a, a[id].children, t.children);
    AllNodesFacts(a, id, t);
  }

  lemma {:induction false} BottomUpForestFacts(a: Nodes, ids: seq<NodeId>, ts: seq<Tree>)
    requires RealizesAll(a, ids, ts)
    ensures multiset(BottomUpForest(a, ids, ts)) == multiset(AllNodesForest(a, ids, ts))
    decreases ts
  {
    if ids != [] {
      BottomUpFacts(a, ids[0], ts[0]);
      BottomUpForestFacts(a, ids[1..], ts[1..]);
    }
  }

  /** In a linked subtree every listed gene after the first has a parent, and that parent
      is itself listed. */
  lemma {:induction false} LinkedParentsInside(a: Nodes, id: NodeId, t: Tree)
    requires Linked(a, id, t)
    ensures forall k :: k in AllNodes(a, id, t)[1..] ==>
              k in a && a[k].parent.Some? && a[k].parent.value in AllNodes(a, id, t)
    decreases t
  {
    var ch := a[id].children;
    LinkedForestParents(a, ch, t.children, id);
    assert AllNodes(a, id, t)[1..] == AllNodesForest(a, ch, t.children);
  }

  lemma {:induction false} LinkedForestParents(a: Nodes, ids: seq<NodeId>, ts: seq<Tree>, p: NodeId)
    requires LinkedAll(a, ids, ts, p) && RealizesAll(a, ids, ts)
    ensures forall k :: k in AllNodesForest(a, ids, ts) ==>
              k in a && a[k].parent.Some?
              && (a[k].parent.value == p || a[k].parent.value in AllNodesForest(a, ids, ts))
    decreases ts
  {
    if ids != [] {
      LinkedParentsInside(a, ids[0], ts[0]);
      LinkedForestParents(a, ids[1..], ts[1..], p);
      AllNodesFacts(a, ids[0], ts[0]);
      var x := AllNodes(a, ids[0], ts[0]);
      assert x == [ids[0]] + x[1..];
    }
  }
}
