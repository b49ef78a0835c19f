// The hybrid builder: a quad tree is built with the default quad tree
// builder, then every quad leaf (a quad node with exactly one sub-node)
// gets the BSP tree built from it as its sub-node in place of its
// geometry node.
module QuadBspBuilder {
  import opened Wrappers
  import opened Geometry
  import opened Scene
  import opened PartitionStrategy
  import BspTree
  import BspTreeBuilder
  import QuadTree
  import QuadTreeBuilder

  /** `VisitQuadNode`: a quad node with one sub-node gets the BSP tree
      built from it appended and its first sub-node removed, and is not
      descended into; any other quad node has its children and sub-nodes
      visited. Nodes of other kinds are left as they are. */
  function Hybrid(lib: Library, policy: Policy, n: Node): (r: Node)
    requires ValidLibrary(lib) && Cloneable(n)
    decreases n, 0
  {
    if n.QuadNode? then
      if |n.subNodes| == 1 then
        QuadNode(n.bb, n.tl, n.tr, n.bl, n.br,
                 (n.subNodes + Opt(BspTreeBuilder.Built(lib, policy, n)))[1..])
      else
        QuadNode(n.bb, HybridOpt(lib, policy, n.tl), HybridOpt(lib, policy, n.tr),
                 HybridOpt(lib, policy, n.bl), HybridOpt(lib, policy, n.br),
                 HybridList(lib, policy, n.subNodes))
    else n
  }

  function HybridOpt(lib: Library, policy: Policy, o: Option<Node>): (r: Option<Node>)
    requires ValidLibrary(lib) && CloneableOpt(o)
    ensures r.Some? <==> o.Some?
    decreases o, 0
  {
    if o.Some? then Some(Hybrid(lib, policy, o.value)) else None
  }

  function HybridList(lib: Library, policy: Policy, subs: seq<Node>): (r: seq<Node>)
    requires ValidLibrary(lib) && forall i :: 0 <= i < |subs| ==> Cloneable(subs[i])
    ensures |r| == |subs| && forall i :: 0 <= i < |subs| ==> r[i] == Hybrid(lib, policy, subs[i])
    decreases subs, 0
  {
    if subs == [] then [] else [Hybrid(lib, policy, subs[0])] + HybridList(lib, policy, subs[1..])
  }

  /** The hybrid tree of a face set, defined directly: the quad tree of
      the set, except that a leaf holds the BSP tree of its faces (each
      face once) instead of their geometry node. */
  function HybridTree(lib: Library, policy: Policy, faces: FaceSet, count: int, hsize: real): (n: Node)
    requires ValidLibrary(lib) && QuadTree.QuartersShrink(lib, count, hsize) && faces != []
    decreases lib.extent(faces)
  {
    var bb := lib.boundingBox(faces);
    if QuadTree.IsLeaf(bb, |faces|, count, hsize) then
      QuadNode(bb, None, None, None, None, [BspTree.Build(lib, policy, Dedup(faces))])
    else
      var q := QuadTree.Quadrants(lib, faces);
      QuadNode(bb,
               if q.tl != [] then Some(HybridTree(lib, policy, q.tl, count, hsize)) else None,
               if q.tr != [] then Some(HybridTree(lib, policy, q.tr, count, hsize)) else None,
               if q.bl != [] then Some(HybridTree(lib, policy, q.bl, count, hsize)) else None,
               if q.br != [] then Some(HybridTree(lib, policy, q.br, count, hsize)) else None,
               [])
  }

  /** A quad leaf's cloned geometry is exactly its face list. */
  lemma LeafFaces(bb: Box, faces: FaceSet)
    ensures var leaf := QuadNode(bb, None, None, None, None, [GeometryNode(faces)]);
      Cloneable(leaf) && AllFaces(Clone(leaf)) == faces
  {
    var leaf := QuadNode(bb, None, None, None, None, [GeometryNode(faces)]);
    assert CloneList([GeometryNode(faces)]) == [GeometryNode(faces)] + CloneList([]);
    assert Clone(leaf) == leaf;
    assert WalkList([GeometryNode(faces)]) == [GeometryNode(faces)] + WalkList([]);
    assert Walk(leaf) == [leaf, GeometryNode(faces)];
    assert GeometryFaces([GeometryNode(faces)]) == faces + GeometryFaces([]);
  }

  /** Visiting a constructed quad tree with the hybrid builder gives the
      hybrid tree of the same faces: the quad structure is kept and every
      leaf's geometry is replaced by the BSP tree of its faces. */
  lemma {:induction false} HybridOfQuadTree(lib: Library, policy: Policy, faces: FaceSet, count: int, hsize: real)
    requires ValidLibrary(lib) && QuadTree.QuartersShrink(lib, count, hsize) && faces != []
    ensures Cloneable(QuadTree.Build(lib, faces, count, hsize)) &&
      Hybrid(lib, policy, QuadTree.Build(lib, faces, count, hsize)) == HybridTree(lib, policy, faces, count, hsize)
    decreases lib.extent(faces)
  {
    var n := QuadTree.Build(lib, faces, count, hsize);
    QuadTree.BuildWellFormed(lib, faces, count, hsize);
    QuadTree.CloneWellFormed(n, count, hsize);
    var bb := lib.boundingBox(faces);
    if QuadTree.IsLeaf(bb, |faces|, count, hsize) {
      LeafFaces(bb, faces);
      assert ([GeometryNode(faces)] + [BspTree.Build(lib, policy, Dedup(faces))])[1..] ==
             [BspTree.Build(lib, policy, Dedup(faces))];
    } else {
      var q := QuadTree.Quadrants(lib, faces);
      if q.tl != [] { HybridOfQuadTree(lib, policy, q.tl, count, hsize); }
      if q.tr != [] { HybridOfQuadTree(lib, policy, q.tr, count, hsize); }
      if q.bl != [] { HybridOfQuadTree(lib, policy, q.bl, count, hsize); }
      if q.br != [] { HybridOfQuadTree(lib, policy, q.br, count, hsize); }
    }
  }

  /** `Build`: the quad tree of the scene from a builder with the default
      limits (count 100, leaf half size 10 / 4), with BSP trees in its
      leaves; none when the quad tree builder returns none. */
  method Build(lib: Library, policy: Policy, node: Node) returns (r: Option<Node>)
    requires ValidLibrary(lib) && QuadTree.QuartersShrink(lib, 100, 2.5) && Cloneable(node)
    ensures r.None? <==> AllFaces(Clone(node)) == []
    ensures r.Some? ==> r.value == HybridTree(lib, policy, Dedup(AllFaces(Clone(node))), 100, 2.5)
  {
    var builder := new QuadTreeBuilder.Builder();
    var quad := builder.Build(lib, node);
    r := None;
    if quad.Some? {
      var faces := Dedup(AllFaces(Clone(node)));
      HybridOfQuadTree(lib, policy, faces, 100, 2.5);
      var tree := VisitQuadNode(lib, policy, quad.value);
      r := Some(tree);
    }
  }

  /** The visit as the source runs it: `AddNode` of the BSP tree, then
      `RemoveNode` of the first sub-node, on a leaf; otherwise the visit
      of the children. */
  method VisitQuadNode(lib: Library, policy: Policy, n: Node) returns (r: Node)
    requires ValidLibrary(lib) && Cloneable(n)
    ensures r == Hybrid(lib, policy, n)
    decreases n, 0
  {
    if !n.QuadNode? {
      return n;
    }
    if |n.subNodes| == 1 {
      var bsp := BspTreeBuilder.Build(lib, policy, n);
      var subs := n.subNodes + Opt(bsp);
      subs := subs[1..];
      return QuadNode(n.bb, n.tl, n.tr, n.bl, n.br, subs);
    }
    var tl := VisitChild(lib, policy, n.tl);
    var tr := VisitChild(lib, policy, n.tr);
    var bl := VisitChild(lib, policy, n.bl);
    var br := VisitChild(lib, policy, n.br);
    var subs := VisitList(lib, policy, n.subNodes);
    r := QuadNode(n.bb, tl, tr, bl, br, subs);
  }

  method VisitChild(lib: Library, policy: Policy, o: Option<Node>) returns (r: Option<Node>)
    requires ValidLibrary(lib) && CloneableOpt(o)
    ensures r == HybridOpt(lib, policy, o)
    decreases o, 0
  {
    r := None;
    if o.Some? {
      var c := VisitQuadNode(lib, policy, o.value);
      r := Some(c);
    }
  }

  method VisitList(lib: Library, policy: Policy, subs: seq<Node>) returns (out: seq<Node>)
    requires ValidLibrary(lib) && forall i :: 0 <= i < |subs| ==> Cloneable(subs[i])
    ensures out == HybridList(lib, policy, subs)
    decreases subs, 0
  {
    out := subs;
    var i := 0;
    while i < |subs|
      invariant 0 <= i <= |subs| == |out|
      invariant forall j :: 0 <= j < i ==> out[j] == Hybrid(lib, policy, subs[j])
    {
      var c := VisitQuadNode(lib, policy, subs[i]);
      out := out[i := c];
      i := i + 1;
    }
  }
}
